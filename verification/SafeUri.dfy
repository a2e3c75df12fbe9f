/** The path of a request, made safe (http.c): a fold over its segments with a stack. */
module SafeUri {
  import opened Wrappers

  function Last<T>(s: seq<T>): T
    requires |s| > 0
  {
    s[|s| - 1]
  }

  function Init<T>(s: seq<T>): seq<T>
    requires |s| > 0
  {
    s[..|s| - 1]
  }

  predicate EndsInSlash(s: string) {
    |s| > 0 && Last(s) == '/'
  }

  // ----- The reference: segments between slashes, resolved on a stack -----

  /** The segments between the slashes of `s`, empty ones included. */
  function Split(s: string): (segs: seq<string>)
    ensures |segs| > 0
  {
    if s == "" then [""]
    else
      var segs := Split(Init(s));
      if Last(s) == '/' then segs + [""] else Init(segs) + [Last(segs) + [Last(s)]]
  }

  /** What one segment does to the stack: nothing, drop the top, or be pushed. Nothing can be dropped from an empty stack. */
  function Resolved(stack: Option<seq<string>>, seg: string): Option<seq<string>> {
    if stack == None || seg == "" || seg == "." then stack
    else if seg == ".." then (if stack.value == [] then None else Some(Init(stack.value)))
    else Some(stack.value + [seg])
  }

  function Resolve(segs: seq<string>): Option<seq<string>> {
    if segs == [] then Some([]) else Resolved(Resolve(Init(segs)), Last(segs))
  }

  function Join(stack: seq<string>): string {
    if stack == [] then "" else Join(Init(stack)) + "/" + Last(stack)
  }

  function Render(stack: seq<string>, slash: bool): string {
    Join(stack) + if stack == [] || slash then "/" else ""
  }

  /** The rule: a path has to start with a slash and never to go above the root. */
  function Safe(uri: string): Option<string> {
    if uri == "" || uri[0] != '/' then None
    else
      match Resolve(Split(uri))
      case None => None
      case Some(stack) => Some(Render(stack, EndsInSlash(uri)))
  }

  // ----- Repeated slashes do not matter -----

  function Consolidated(s: string): string {
    if s == "" then ""
    else
      var c := Consolidated(Init(s));
      if Last(s) == '/' && EndsInSlash(c) then c else c + [Last(s)]
  }

  lemma {:induction false} ConsolidatedEnds(s: string)
    ensures s != "" ==> Consolidated(s) != "" && Consolidated(s)[0] == s[0]
    ensures EndsInSlash(Consolidated(s)) <==> EndsInSlash(s)
    ensures |Consolidated(s)| <= |s|
  {
    if s != "" {
      ConsolidatedEnds(Init(s));
    }
  }

  function Filled(segs: seq<string>): seq<string> {
    if segs == [] then []
    else if Last(segs) == "" then Filled(Init(segs)) else Filled(Init(segs)) + [Last(segs)]
  }

  lemma {:induction false} ResolveFilled(segs: seq<string>)
    ensures Resolve(Filled(segs)) == Resolve(segs)
  {
    if segs != [] {
      ResolveFilled(Init(segs));
      if Last(segs) != "" {
        assert Init(Filled(segs)) == Filled(Init(segs)) && Last(Filled(segs)) == Last(segs);
      }
    }
  }

  lemma SplitSlash(s: string)
    ensures Init(Split(s + "/")) == Split(s) && Last(Split(s + "/")) == ""
  {
    assert Init(s + "/") == s;
  }

  lemma SplitChar(s: string, c: char)
    requires c != '/'
    ensures Init(Split(s + [c])) == Init(Split(s)) && Last(Split(s + [c])) == Last(Split(s)) + [c]
  {
    assert Init(s + [c]) == s;
  }

  lemma LastSegment(s: string)
    requires EndsInSlash(s)
    ensures Last(Split(s)) == ""
  {
  }

  lemma {:induction false} SplitConsolidated(s: string)
    ensures var a, b := Split(Consolidated(s)), Split(s);
            Last(a) == Last(b) && Filled(Init(a)) == Filled(Init(b))
  {
    if s != "" {
      var t, c := Init(s), Last(s);
      var d := Consolidated(t);
      SplitConsolidated(t);
      assert s == t + [c];
      if c == '/' {
        SplitSlash(t);
        FilledLast(Split(d), Split(t));
        if EndsInSlash(d) {
          LastSegment(d);
          assert Filled(Split(d)) == Filled(Init(Split(d)));
        } else {
          SplitSlash(d);
        }
      } else {
        SplitChar(t, c);
        SplitChar(d, c);
      }
    }
  }

  lemma FilledLast(a: seq<string>, b: seq<string>)
    requires |a| > 0 && |b| > 0 && Last(a) == Last(b) && Filled(Init(a)) == Filled(Init(b))
    ensures Filled(a) == Filled(b)
  {
  }

  lemma ResolveConsolidated(s: string)
    ensures Resolve(Split(Consolidated(s))) == Resolve(Split(s))
  {
    SplitConsolidated(s);
    FilledLast(Split(Consolidated(s)), Split(s));
    ResolveFilled(Split(Consolidated(s)));
    ResolveFilled(Split(s));
  }

  /** Consolidating first changes nothing about the outcome. */
  lemma SafeConsolidated(s: string)
    ensures Safe(Consolidated(s)) == Safe(s)
  {
    ConsolidatedEnds(s);
    ResolveConsolidated(s);
  }

  // ----- What comes out -----

  predicate Plain(seg: string) {
    seg != "" && seg != "." && seg != ".." && '/' !in seg
  }

  ghost predicate AllPlain(stack: seq<string>) {
    forall i :: 0 <= i < |stack| ==> Plain(stack[i])
  }

  ghost predicate NoSlashes(segs: seq<string>) {
    forall i :: 0 <= i < |segs| ==> '/' !in segs[i]
  }

  lemma {:induction false} SplitNoSlashes(s: string)
    ensures NoSlashes(Split(s))
  {
    if s != "" {
      SplitNoSlashes(Init(s));
    }
  }

  lemma {:induction false} ResolvePlain(segs: seq<string>)
    requires NoSlashes(segs)
    ensures Resolve(segs).Some? ==> AllPlain(Resolve(segs).value)
  {
    if segs != [] {
      ResolvePlain(Init(segs));
    }
  }

  lemma {:induction false} SplitMore(s: string, seg: string)
    requires '/' !in seg
    ensures Split(s + "/" + seg) == Split(s) + [seg]
  {
    if seg == "" {
      SplitSlash(s);
      assert s + "/" + "" == s + "/";
      assert Split(s + "/") == Init(Split(s + "/")) + [Last(Split(s + "/"))];
    } else {
      var t, c := Init(seg), Last(seg);
      SplitMore(s, t);
      SplitChar(s + "/" + t, c);
      assert s + "/" + seg == (s + "/" + t) + [c];
      var u := Split(s + "/" + seg);
      assert Init(u) == Split(s) && Last(u) == t + [c] == seg;
      assert u == Init(u) + [Last(u)];
    }
  }

  lemma {:induction false} SplitJoin(stack: seq<string>)
    requires AllPlain(stack)
    ensures Split(Join(stack)) == [""] + stack
    ensures stack != [] ==> Join(stack) != "" && Join(stack)[0] == '/' && !EndsInSlash(Join(stack))
  {
    if stack != [] {
      hide Split;
      var j, top := Join(Init(stack)), Last(stack);
      SplitJoin(Init(stack));
      SplitMore(j, top);
      assert ([""] + Init(stack)) + [top] == [""] + stack;
      assert Plain(top) && Last(Join(stack)) == Last(top) && Last(top) in top;
      assert stack != [top] ==> Init(stack) != [] && Join(stack)[0] == j[0];
    }
  }

  lemma {:induction false} ResolveRoot(stack: seq<string>)
    requires AllPlain(stack)
    ensures Resolve([""] + stack) == Some(stack)
  {
    if stack == [] {
      assert Resolve([""]) == Resolved(Resolve(Init([""])), "");
    } else {
      ResolveRoot(Init(stack));
      assert Init([""] + stack) == [""] + Init(stack);
      assert Init(stack) + [Last(stack)] == stack;
    }
  }

  /** A rendered stack resolves to itself. */
  lemma RenderSafe(stack: seq<string>, slash: bool)
    requires AllPlain(stack)
    ensures Safe(Render(stack, slash)) == Some(Render(stack, slash))
  {
    var j, r := Join(stack), Render(stack, slash);
    SplitJoin(stack);
    ResolveRoot(stack);
    if stack == [] || slash {
      SplitSlash(j);
      assert Split(r) == Init(Split(r)) + [Last(Split(r))];
      assert Resolve(Split(r)) == Resolved(Resolve(Split(j)), "");
      assert r[0] == '/';
    } else {
      assert r == j;
    }
  }

  /**
   What is returned has only plain segments, at most one slash at the end, is a fixed point, and
   starts with a slash; it ends with one if the path did.
   */
  lemma SafeShape(uri: string)
    requires Safe(uri).Some?
    ensures var out := Safe(uri).value;
            && Safe(out) == Some(out) && out != "" && out[0] == '/' && (EndsInSlash(uri) ==> EndsInSlash(out))
            && exists stack :: AllPlain(stack) && out == Render(stack, EndsInSlash(uri))
  {
    var stack := Resolve(Split(uri)).value;
    SplitNoSlashes(uri);
    ResolvePlain(Split(uri));
    RenderSafe(stack, EndsInSlash(uri));
    SplitJoin(stack);
  }

  /** The characters of some segments, each with a slash. */
  function Cost(segs: seq<string>): nat {
    if segs == [] then 0 else Cost(Init(segs)) + 1 + |Last(segs)|
  }

  lemma {:induction false} SplitCost(s: string)
    ensures Cost(Split(s)) == |s| + 1
  {
    if s == "" {
      assert Init([""]) == [] && Cost([""]) == Cost(Init([""])) + 1;
    } else {
      SplitCost(Init(s));
      var a, b := Split(Init(s)), Split(s);
      if Last(s) == '/' {
        assert Init(b) == a;
      } else {
        assert Init(b) == Init(a);
      }
    }
  }

  lemma {:induction false} JoinCost(stack: seq<string>)
    ensures |Join(stack)| == Cost(stack)
  {
    if stack != [] {
      JoinCost(Init(stack));
    }
  }

  lemma {:induction false} ResolveCost(segs: seq<string>)
    ensures Resolve(segs).Some? ==> Cost(Resolve(segs).value) <= Cost(Filled(segs))
  {
    hide Cost;
    if segs == [] {
      assert Resolve(segs) == Some([]) && Filled(segs) == [];
    } else {
      var r, top := Resolve(Init(segs)), Last(segs);
      ResolveCost(Init(segs));
      CostMore(Filled(Init(segs)), top);
      if r.Some? {
        CostMore(r.value, top);
        CostLess(r.value);
      }
    }
  }

  lemma CostMore(stack: seq<string>, seg: string)
    ensures Cost(stack + [seg]) == Cost(stack) + 1 + |seg|
  {
    assert Init(stack + [seg]) == stack;
  }

  lemma CostLess(stack: seq<string>)
    ensures stack != [] ==> Cost(Init(stack)) <= Cost(stack)
  {
  }

  lemma {:induction false} FilledCost(segs: seq<string>)
    ensures Cost(Filled(segs)) <= Cost(segs)
    ensures |segs| > 0 && (segs[0] == "" || Last(segs) == "") ==> Cost(Filled(segs)) < Cost(segs)
    ensures |segs| > 1 && segs[0] == "" && Last(segs) == "" ==> Cost(Filled(segs)) + 2 <= Cost(segs)
  {
    if segs != [] {
      FilledCost(Init(segs));
      assert Init(Filled(Init(segs)) + [Last(segs)]) == Filled(Init(segs));
    }
  }

  lemma SplitEmpty()
    ensures Split("") == [""]
  {
  }

  lemma {:induction false} FirstSegment(s: string)
    requires s != "" && s[0] == '/'
    ensures |Split(s)| > 1 && Split(s)[0] == ""
  {
    hide Split;
    if |s| == 1 {
      SplitSlash("");
      SplitEmpty();
      assert s == "" + "/";
      assert Split(s) == Init(Split(s)) + [Last(Split(s))];
    } else {
      var t := Init(s);
      FirstSegment(t);
      assert s == t + [Last(s)];
      if Last(s) == '/' {
        SplitSlash(t);
      } else {
        SplitChar(t, Last(s));
      }
      assert Init(Split(s))[0] == Split(s)[0];
    }
  }

  /** The result is never longer than the path. */
  lemma SafeNoLonger(uri: string)
    requires Safe(uri).Some?
    ensures |Safe(uri).value| <= |uri|
  {
    var segs := Split(uri);
    SplitCost(uri);
    FirstSegment(uri);
    FilledCost(segs);
    ResolveCost(segs);
    JoinCost(Resolve(segs).value);
    if EndsInSlash(uri) {
      LastSegment(uri);
    }
  }

  // ----- What segments do -----

  /** A plain segment goes one level down. */
  lemma DownOne(p: string, x: string)
    requires Plain(x) && Resolve(Split(p)).Some?
    ensures Resolve(Split(p + "/" + x)) == Some(Resolve(Split(p)).value + [x])
  {
    SplitMore(p, x);
    ResolveMore(Split(p), x);
  }

  lemma ResolveMore(segs: seq<string>, x: string)
    ensures Resolve(segs + [x]) == Resolved(Resolve(segs), x)
  {
    assert Init(segs + [x]) == segs;
  }

  /** Two dots take back the plain segment before them; one dot, or nothing, does nothing. */
  lemma UpOne(p: string, x: string)
    requires Plain(x)
    ensures Resolve(Split(p + "/" + x + "/" + "..")) == Resolve(Split(p))
    ensures Resolve(Split(p + "/" + ".")) == Resolve(Split(p)) == Resolve(Split(p + "/" + ""))
  {
    SplitMore(p, x);
    ResolveMore(Split(p), x);
    SplitMore(p + "/" + x, "..");
    ResolveMore(Split(p + "/" + x), "..");
    SplitMore(p, ".");
    ResolveMore(Split(p), ".");
    SplitMore(p, "");
    ResolveMore(Split(p), "");
    if Resolve(Split(p)).Some? {
      assert Init(Resolve(Split(p)).value + [x]) == Resolve(Split(p)).value;
    }
  }

  /** So the whole rule takes back "x/.." at the end of a path. */
  lemma SafeUpOne(p: string, x: string)
    requires Plain(x) && p != "" && !EndsInSlash(p)
    ensures Safe(p + "/" + x + "/" + "..") == Safe(p)
  {
    hide Split, Resolve, Render;
    UpOne(p, x);
    var s := p + "/" + x + "/" + "..";
    assert s[0] == p[0] && Last(s) == '.';
  }

  /** How many segments go up, and how many down. */
  function Ups(segs: seq<string>): nat {
    if segs == [] then 0 else Ups(Init(segs)) + if Last(segs) == ".." then 1 else 0
  }

  function Downs(segs: seq<string>): nat {
    if segs == [] then 0
    else Downs(Init(segs)) + if Last(segs) != ".." && Last(segs) != "." && Last(segs) != "" then 1 else 0
  }

  ghost predicate GoesAbove(segs: seq<string>) {
    exists n :: 0 <= n <= |segs| && Ups(segs[..n]) > Downs(segs[..n])
  }

  lemma {:induction false} DepthExactly(segs: seq<string>)
    ensures Resolve(segs) == None <==> GoesAbove(segs)
    ensures Resolve(segs).Some? ==> |Resolve(segs).value| == Downs(segs) - Ups(segs)
  {
    if segs == [] {
      assert Resolve(segs) == Some([]);
      assert forall n :: 0 <= n <= |segs| ==> segs[..n] == [];
    } else {
      var before, n := Init(segs), |segs|;
      DepthExactly(before);
      assert segs[..n] == segs;
      assert forall k :: 0 <= k <= |before| ==> before[..k] == segs[..k];
      if GoesAbove(before) {
        var k :| 0 <= k <= |before| && Ups(before[..k]) > Downs(before[..k]);
        assert Ups(segs[..k]) > Downs(segs[..k]);
      } else {
        assert !(Ups(before[..|before|]) > Downs(before[..|before|]));
        assert before[..|before|] == before;
        if GoesAbove(segs) {
          var k :| 0 <= k <= n && Ups(segs[..k]) > Downs(segs[..k]);
          assert k == n;
        } else {
          assert !(Ups(segs[..n]) > Downs(segs[..n]));
        }
      }
    }
  }

  /** There is no result exactly if there is no leading slash or, at some point, the path has gone up more often than down. */
  lemma SafeFailsExactly(uri: string)
    ensures Safe(uri) == None <==> uri == "" || uri[0] != '/' || GoesAbove(Split(uri))
  {
    DepthExactly(Split(uri));
  }

  // ----- The code -----

  /** A C string of `n` characters in a buffer. */
  ghost predicate Terminated(a: array<char>, n: nat)
    reads a
  {
    n < a.Length && a[n] == '\0' && forall i :: 0 <= i < n ==> a[i] != '\0'
  }

  lemma ConsolidatedStep(s: string, k: nat)
    requires k < |s|
    ensures var c := Consolidated(s[..k]);
            Consolidated(s[..k + 1]) == if s[k] == '/' && EndsInSlash(c) then c else c + [s[k]]
  {
    assert Init(s[..k + 1]) == s[..k];
  }

  lemma ConsolidatedNone()
    ensures Consolidated("") == ""
  {
  }

  /** consolidate_slashes(), in place */
  method ConsolidateSlashes(a: array<char>, ghost n: nat) returns (left: nat)
    requires Terminated(a, n)
    modifies a
    ensures left <= n && a[..left] == Consolidated(old(a[..n])) && Terminated(a, left)
  {
    hide Consolidated;
    ghost var s := a[..n];
    ConsolidatedNone();
    left := 0;
    var right := 0;
    var sawSlash := false;
    while a[right] != '\0'
      invariant left <= right <= n && a[n] == '\0' && forall k :: right <= k < n ==> a[k] == s[k]
      invariant a[..left] == Consolidated(s[..right])
      invariant sawSlash == EndsInSlash(a[..left])
      invariant forall i :: 0 <= i < n ==> a[i] != '\0'
      decreases n - right
    {
      ConsolidatedStep(s, right);
      assert a[right] == s[right];
      if sawSlash && a[right] == '/' {
        right := right + 1;
      } else {
        sawSlash := a[right] == '/';
        a[left] := a[right];
        left, right := left + 1, right + 1;
        assert a[..left] == Consolidated(s[..right - 1]) + [s[right - 1]];
      }
    }
    assert s[..right] == s;
    a[left] := '\0';
  }

  function Slashes(s: string): nat {
    if s == "" then 0 else Slashes(Init(s)) + if Last(s) == '/' then 1 else 0
  }

  lemma {:induction false} SlashesMono(s: string, k: nat)
    requires k <= |s|
    ensures Slashes(s[..k]) <= Slashes(s)
  {
    if k < |s| {
      SlashesMono(Init(s), k);
      assert Init(s)[..k] == s[..k];
    } else {
      assert s[..k] == s;
    }
  }

  method CountSlashes(s: string) returns (n: nat)
    ensures n == Slashes(s)
  {
    n := 0;
    for i := 0 to |s|
      invariant n == Slashes(s[..i])
    {
      assert Init(s[..i + 1]) == s[..i];
      if s[i] == '/' {
        n := n + 1;
      }
    }
    assert s[..|s|] == s;
  }

  /** The loop that looks for the end of a segment. */
  method SegmentEnd(s: string, i: nat) returns (j: nat)
    requires i <= |s|
    ensures i <= j <= |s| && (j < |s| ==> s[j] == '/') && '/' !in s[i..j]
  {
    j := i;
    while j < |s| && s[j] != '/'
      invariant i <= j <= |s| && '/' !in s[i..j]
    {
      j := j + 1;
    }
  }

  /** One more segment of the path: what it does to the stack and to the length of its rendering. */
  lemma NextSegment(s: string, i: nat, j: nat)
    requires 1 <= i <= j <= |s| && s[i - 1] == '/' && '/' !in s[i..j]
    ensures Resolve(Split(s[..j])) == Resolved(Resolve(Split(s[..i - 1])), s[i..j])
    ensures Slashes(s[..j]) >= Slashes(s[..i - 1]) + 1
  {
    assert s[..j] == s[..i - 1] + "/" + s[i..j];
    SplitMore(s[..i - 1], s[i..j]);
    var segs := Split(s[..i - 1]);
    assert Init(segs + [s[i..j]]) == segs;
    SlashesMono(s[..j], i);
    assert s[..j][..i] == s[..i] && Init(s[..i]) == s[..i - 1];
  }

  ghost predicate NoDoubles(s: string) {
    forall k :: 0 <= k < |s| - 1 ==> !(s[k] == '/' && s[k + 1] == '/')
  }

  lemma {:induction false} ConsolidatedNoDoubles(s: string)
    ensures NoDoubles(Consolidated(s))
  {
    if s != "" {
      ConsolidatedNoDoubles(Init(s));
    }
  }

  /** Splits the path and works on an array of segments that has one place for each slash. */
  method ResolveSegments(s: string, elem: array<string>) returns (r: Option<nat>)
    requires s != "" && s[0] == '/' && NoDoubles(s) && elem.Length == Slashes(s)
    modifies elem
    ensures r.None? <==> Resolve(Split(s)) == None
    ensures r.Some? ==> r.value <= elem.Length && Resolve(Split(s)) == Some(elem[..r.value])
  {
    hide Split, Slashes;
    var elements, i: nat := 0, 1;
    Start(s);
    while i < |s|
      invariant 1 <= i <= |s| + 1 && (i <= |s| ==> s[i - 1] == '/')
      invariant elements <= Slashes(s[..i - 1]) <= elem.Length
      invariant Resolve(Split(s[..i - 1])) == Some(elem[..elements])
    {
      var j := SegmentEnd(s, i);
      NextSegment(s, i, j);
      SlashesMono(s, j);
      ghost var was := elem[..elements];
      if j == i + 1 && s[i] == '.' {
        assert s[i..j] == ".";
      } else if j == i + 2 && s[i] == '.' && s[i + 1] == '.' {
        assert s[i..j] == "..";
        if elements == 0 {
          assert was == [];
          Hopeless(s, j);
          return None;
        }
        elements := elements - 1;
        assert elem[..elements] == Init(was);
      } else {
        elem[elements] := s[i..j];
        elements := elements + 1;
        assert elem[..elements] == was + [s[i..j]];
      }
      i := j + 1;
    }
    Finish(s, i);
    r := Some(elements);
  }

  lemma Start(s: string)
    requires s != ""
    ensures Resolve(Split(s[..0])) == Some([]) && Slashes(s[..0]) == 0
  {
    assert Init([""]) == [];
    assert Resolve([""]) == Resolved(Resolve(Init([""])), "");
  }

  /** The last segment is empty if the path ends in a slash. */
  lemma {:induction false} Finish(s: string, i: nat)
    requires |s| <= i <= |s| + 1 && s != "" && (i == |s| ==> s[i - 1] == '/')
    ensures Resolve(Split(s)) == Resolve(Split(s[..i - 1]))
  {
    if i == |s| {
      hide Split;
      assert s == s[..i - 1] + "/";
      SplitSlash(s[..i - 1]);
      var segs := Split(s);
      assert Init(segs) == Split(s[..i - 1]) && Last(segs) == "";
    } else {
      assert s[..i - 1] == s;
    }
  }

  /** Once above the root there is no way back. */
  lemma Hopeless(s: string, j: nat)
    requires j <= |s| && Resolve(Split(s[..j])) == None && (j < |s| ==> s[j] == '/')
    ensures Resolve(Split(s)) == None
  {
    if j == |s| {
      assert s[..j] == s;
    } else {
      HopelessFrom(s, j);
    }
  }

  lemma {:induction false} HopelessFrom(s: string, j: nat)
    requires j < |s| && s[j] == '/' && Resolve(Split(s[..j])) == None
    ensures |Split(s)| > 0 && Resolve(Init(Split(s))) == None && Resolve(Split(s)) == None
  {
    var t := Init(s);
    assert s == t + [Last(s)];
    if j == |s| - 1 {
      assert t == s[..j];
      SplitSlash(t);
    } else {
      assert t[..j] == s[..j];
      HopelessFrom(t, j);
      if Last(s) == '/' {
        SplitSlash(t);
      } else {
        SplitChar(t, Last(s));
      }
    }
  }

  method Append(out: array<char>, pos: nat, text: string)
    requires pos + |text| <= out.Length
    modifies out
    ensures out[..pos + |text|] == old(out[..pos]) + text
  {
    for k := 0 to |text|
      invariant out[..pos + k] == old(out[..pos]) + text[..k]
    {
      out[pos + k] := text[k];
      assert out[..pos + k + 1] == out[..pos + k] + [text[k]];
    }
    assert text[..|text|] == text;
  }

  lemma {:induction false} JoinMono(stack: seq<string>, k: nat)
    requires k <= |stack|
    ensures |Join(stack[..k])| <= |Join(stack)|
  {
    if k < |stack| {
      JoinMono(Init(stack), k);
      assert Init(stack)[..k] == stack[..k];
    } else {
      assert stack[..k] == stack;
    }
  }

  /** Puts the segments together in a buffer that has room for the path and its terminator. */
  method Reassemble(stack: seq<string>, slash: bool, room: nat) returns (out: array<char>, pos: nat)
    requires |Render(stack, slash)| <= room
    ensures fresh(out) && out.Length == room + 1 && pos <= room && out[..pos] == Render(stack, slash) && out[pos] == '\0'
  {
    out := new char[room + 1](_ => '\0');
    pos := 0;
    for i := 0 to |stack|
      invariant pos == |Join(stack[..i])| <= |Join(stack)| <= room && out[..pos] == Join(stack[..i])
    {
      JoinMono(stack, i + 1);
      assert Init(stack[..i + 1]) == stack[..i];
      assert Join(stack[..i + 1]) == Join(stack[..i]) + "/" + stack[i];
      Append(out, pos, "/");
      pos := pos + 1;
      Append(out, pos, stack[i]);
      pos := pos + |stack[i]|;
    }
    assert stack[..|stack|] == stack;
    if |stack| == 0 || slash {
      Append(out, pos, "/");
      pos := pos + 1;
    }
    assert out[..pos] == Render(stack, slash);
    out[pos] := '\0';
  }

  /** make_safe_uri() on a C string, which it consolidates in place */
  method MakeSafeUri(uri: array<char>, ghost n: nat) returns (r: Option<string>)
    requires Terminated(uri, n)
    modifies uri
    ensures r == Safe(old(uri[..n]))
  {
    ghost var s0 := uri[..n];
    if uri[0] != '/' {
      return None;
    }
    var len := ConsolidateSlashes(uri, n);
    var s := uri[..len];
    SafeConsolidated(s0);
    ConsolidatedEnds(s0);
    ConsolidatedNoDoubles(s0);
    var slashes := CountSlashes(s);
    var elem := new string[slashes](_ => "");
    var k := ResolveSegments(s, elem);
    if k == None {
      return None;
    }
    SafeNoLonger(s);
    var out, pos := Reassemble(elem[..k.value], s[len - 1] == '/', len);
    r := Some(out[..pos]);
  }

  lemma SlashAdded(s: string)
    ensures EndsInSlash(s + "/")
  {
  }

  /** A string as C stores it. */
  method CString(s: string) returns (a: array<char>)
    requires '\0' !in s
    ensures fresh(a) && Terminated(a, |s|) && a[..|s|] == s
  {
    a := new char[|s| + 1](_ => '\0');
    Append(a, 0, s);
    a[|s|] := '\0';
    ghost var t := a[..|s|];
    assert t == s;
    assert forall i :: 0 <= i < |s| ==> a[i] == t[i];
  }

  /** http_init_base(): the base URL with slashes around it, or the root if it is missing or unsafe. */
  method InitBase(url: Option<string>) returns (base: string)
    requires url.Some? ==> '\0' !in url.value
    ensures base != "" && base[0] == '/' && EndsInSlash(base)
    ensures base == if url.Some? && Safe("/" + url.value + "/").Some? then Safe("/" + url.value + "/").value else "/"
  {
    hide Safe, EndsInSlash;
    if url == None {
      SlashAdded("");
      assert "" + "/" == "/";
      return "/";
    }
    var slashed := "/" + url.value + "/";
    var buffer := CString(slashed);
    var safe := MakeSafeUri(buffer, |slashed|);
    if safe == None {
      SlashAdded("");
      assert "" + "/" == "/";
      return "/";
    }
    SafeShape(slashed);
    SlashAdded("/" + url.value);
    base := safe.value;
  }
}
