/**
 The four round-robin graphs as graph_db.c keeps them: two arrays of 64-bit counters per graph,
 changed in place. Every method is tied to the ring functions of GraphRing.
 */
module GraphDb {
  import opened Bytes
  import opened GraphRing

  /** The fields of the C library's broken-down local time that the graphs use. */
  datatype Tm = Tm(sec: nat, min: nat, hour: nat, mday: nat)

  /** What localtime() promises; the second is 60 in a leap second. */
  predicate ValidTm(tm: Tm) {
    tm.sec <= 60 && tm.min < 60 && tm.hour < 24 && 1 <= tm.mday <= 31
  }

  /** A leap second is taken care of only when the clock has gone back or stands still. */
  predicate Manageable(last: int, t: int, tm: Tm) {
    tm.sec == 60 ==> last != 0 && t <= last
  }

  lemma Multiple(a: int, n: nat)
    requires a >= 1
    ensures a * n >= n
  {
  }

  lemma Remainder(x: int, n: nat, q: int, r: nat)
    requires r < n && x == q * n + r
    ensures x % n == r
  {
    var p, m := x / n, x % n;
    assert x == p * n + m && m < n;
    assert (p - q) * n == p * n - q * n && (q - p) * n == q * n - p * n;
    if p > q {
      Multiple(p - q, n);
    } else if p < q {
      Multiple(q - p, n);
    }
  }

  /** The place that the `i`-th bar moves to when a ring turns by `ofs`. */
  function Target(i: nat, ofs: nat, n: nat): (j: nat)
    requires i < n && ofs < 2 * n
    ensures j < n && j == (i + ofs) % n
  {
    var x := i + ofs;
    var q := if x < n then 0 else if x < 2 * n then 1 else 2;
    Remainder(x, n, q, x - q * n);
    x - q * n
  }

  /** The place that the bar now at `j` had before the bar at `from` moved to `to`. */
  function Origin(j: nat, from: nat, to: nat, n: nat): (i: nat)
    requires j < n && from < n && to < n
    ensures i < n
  {
    Wrap(j + from - to, n)
  }

  /** What a ring of counters becomes when the bar at `from` moves to `to`. */
  ghost function Moved(s: seq<nat>, from: nat, to: nat): (t: seq<nat>)
    requires from < |s| && to < |s|
    ensures |t| == |s|
  {
    seq(|s|, i requires 0 <= i < |s| => s[Origin(i, from, to, |s|)])
  }

  /** Where a bar goes to is the inverse of where it comes from. */
  lemma TargetInverse(i: nat, j: nat, from: nat, to: nat, n: nat)
    requires i < n && j < n && from < n && to < n
    ensures Origin(j, from, to, n) == i <==> j == Target(i, n + to - from, n)
  {
  }

  /** The bars held by an array of incoming and an array of outgoing counters. */
  ghost function Both(inn: seq<nat>, out: seq<nat>): (bars: seq<Bar>)
    requires |inn| == |out|
    ensures |bars| == |inn|
  {
    seq(|inn|, i requires 0 <= i < |inn| => Bar(inn[i], out[i]))
  }

  lemma RotatedNowhere(r: Ring)
    requires ValidRing(r)
    ensures Rotated(r, r.pos) == r
  {
    var n, q := |r.bars|, Rotated(r, r.pos).bars;
    assert forall i :: 0 <= i < n ==> q[i] == r.bars[Wrap(i + r.pos - r.pos, n)] == r.bars[i];
    assert q == r.bars;
  }

  /** Turning both arrays turns the ring. */
  lemma BothMoved(inn: seq<nat>, out: seq<nat>, from: nat, to: nat)
    requires from < |inn| == |out| && to < |inn|
    ensures Ring(Both(Moved(inn, from, to), Moved(out, from, to)), to) == Rotated(Ring(Both(inn, out), from), to)
  {
    var p, q := Both(Moved(inn, from, to), Moved(out, from, to)), Rotated(Ring(Both(inn, out), from), to).bars;
    forall i | 0 <= i < |inn|
      ensures p[i] == q[i]
    {
      assert Moved(inn, from, to)[i] == inn[Origin(i, from, to, |inn|)];
    }
    assert p == q;
  }

  class Graph {
    const numBars: nat
    const barSecs: nat
    const inn: array<nat>
    const out: array<nat>
    var pos: nat

    ghost predicate Valid()
      reads this
    {
      inn != out && inn.Length == out.Length == numBars && pos < numBars
    }

    ghost function R(): (r: Ring)
      requires Valid()
      reads this, inn, out
      ensures ValidRing(r) && |r.bars| == numBars
    {
      Ring(Both(inn[..], out[..]), pos)
    }

    constructor (numBars: nat, barSecs: nat)
      requires numBars > 0
      ensures Valid() && fresh(inn) && fresh(out)
      ensures this.numBars == numBars && this.barSecs == barSecs
    {
      this.numBars, this.barSecs := numBars, barSecs;
      inn, out := new nat[numBars], new nat[numBars];
      pos := 0;
    }

    method Zero()
      requires Valid()
      modifies inn, out
      ensures Valid() && R() == Zeroed(old(R()))
    {
      for i := 0 to numBars
        invariant forall j :: 0 <= j < i ==> inn[j] == out[j] == 0
      {
        inn[i], out[i] := 0, 0;
      }
    }

    method Acct(amount: nat, dir: Dir)
      requires Valid()
      modifies inn, out
      ensures Valid() && R() == Accounted(old(R()), amount, dir)
    {
      if dir == In {
        inn[pos] := Add64(inn[pos], amount);
      } else {
        out[pos] := Add64(out[pos], amount);
      }
    }

    /** The body of the loop in advance(). */
    method Next()
      requires Valid()
      modifies this`pos, inn, out
      ensures Valid() && R() == NextBar(old(R()))
    {
      Remainder(pos + 1, numBars, if pos + 1 < numBars then 0 else 1, if pos + 1 < numBars then pos + 1 else 0);
      pos := (pos + 1) % numBars;
      out[pos] := 0;
      inn[pos] := 0;
    }

    method Advance(to: nat)
      requires Valid() && to < numBars
      modifies this`pos, inn, out
      ensures Valid() && R() == Advanced(old(R()), to)
    {
      if pos == to {
        return;
      }
      Next();
      while pos != to
        invariant Valid() && Advanced(R(), to) == Advanced(old(R()), to)
        decreases Distance(pos, to, numBars)
      {
        Next();
      }
    }

    /** The loop that either half of rotate() fills its temporary array with. */
    method Turn(a: array<nat>, to: nat) returns (tmp: array<nat>)
      requires Valid() && a.Length == numBars && to < numBars
      ensures fresh(tmp) && tmp[..] == Moved(a[..], pos, to)
    {
      hide Origin, Target;
      var n, ofs := numBars, numBars + to - pos;
      tmp := new nat[n];
      for i := 0 to n
        invariant forall j :: 0 <= j < n && Origin(j, pos, to, n) < i ==> tmp[j] == a[Origin(j, pos, to, n)]
      {
        forall j | 0 <= j < n
          ensures Origin(j, pos, to, n) == i <==> j == Target(i, ofs, n)
        {
          TargetInverse(i, j, pos, to, n);
        }
        tmp[(i + ofs) % n] := a[i];
      }
      assert forall j :: 0 <= j < n ==> Origin(j, pos, to, n) < n;
    }

    method CopyFrom(a: array<nat>, tmp: array<nat>)
      requires a.Length == tmp.Length && a != tmp
      modifies a
      ensures a[..] == tmp[..]
    {
      for i := 0 to a.Length
        invariant a[..i] == tmp[..i]
      {
        a[i] := tmp[i];
      }
      assert a[..] == a[..a.Length] && tmp[..] == tmp[..a.Length];
    }

    method Rotate(to: nat)
      requires Valid() && to < numBars
      modifies this`pos, inn, out
      ensures Valid() && R() == Rotated(old(R()), to)
    {
      if to == pos {
        RotatedNowhere(R());
        return;
      }
      var tmp := Turn(inn, to);
      CopyFrom(inn, tmp);
      tmp := Turn(out, to);
      CopyFrom(out, tmp);
      assert to == Target(pos, numBars + to - pos, numBars);
      BothMoved(old(inn[..]), old(out[..]), pos, to);
      pos := to;
    }
  }

  /** Graphs that share nothing. */
  ghost predicate Apart(g: Graph, h: Graph)
    reads g, h
  {
    g != h && {g.inn, g.out} !! {h.inn, h.out}
  }

  /** The seconds in one turn of each of the four graphs. */
  const SPANS: seq<nat> := [60, 3600, 86400, 2678400]

  ghost predicate Positions(to: seq<nat>) {
    |to| == 4 && forall i :: 0 <= i < 4 ==> to[i] < SIZES[i]
  }

  function Indices(tm: Tm): (to: seq<nat>)
    requires ValidTm(tm)
    ensures Positions(to)
  {
    [if tm.sec == 60 then 59 else tm.sec, tm.min, tm.hour, tm.mday - 1]
  }

  /** The four graphs, and the time they were last rotated at. */
  class Graphs {
    const db: seq<Graph>
    var startMono: int
    var startReal: int
    var lastReal: int

    ghost function Arrays(): set<array<nat>> {
      (set g | g in db :: g.inn) + (set g | g in db :: g.out)
    }

    ghost predicate Valid()
      reads db
    {
      && |db| == 4
      && (forall i, j :: 0 <= i < 4 && 0 <= j < 4 && i != j ==> Apart(db[i], db[j]))
      && (forall i :: 0 <= i < 4 ==> db[i].Valid() && db[i].numBars == SIZES[i])
      && db[0].barSecs == 1 && db[1].barSecs == 60 && db[2].barSecs == 3600 && db[3].barSecs == 86400
    }

    /** graph_init(), before its reset. */
    constructor ()
      ensures Valid()
    {
      var secs := new Graph(60, 1);
      var mins := new Graph(60, 60);
      var hrs := new Graph(24, 3600);
      var days := new Graph(31, 86400);
      assert Apart(secs, mins) && Apart(secs, hrs) && Apart(secs, days);
      assert Apart(mins, hrs) && Apart(mins, days) && Apart(hrs, days);
      db := [secs, mins, hrs, days];
      startMono, startReal, lastReal := 0, 0, 0;
      new;
      assert forall i, j :: 0 <= i < j < 4 ==> Apart(db[i], db[j]);
    }

    ghost function Rings(): (rs: seq<Ring>)
      requires Valid()
      reads db, Arrays()
      ensures ValidRings(rs)
    {
      [db[0].R(), db[1].R(), db[2].R(), db[3].R()]
    }

    /** A step on one graph leaves the other three alone. */
    twostate lemma OneChanged(i: nat)
      requires i < 4 && old(Valid()) && db[i].Valid()
      requires forall j :: 0 <= j < 4 && j != i ==> unchanged(db[j]) && unchanged(db[j].inn) && unchanged(db[j].out)
      ensures Valid() && Rings() == old(Rings())[i := db[i].R()]
    {
    }

    /** zero_graph() on every graph that `which` names. */
    method ZeroThose(which: seq<bool>)
      requires Valid() && |which| == 4
      modifies Arrays()
      ensures Valid() && Rings() == ZeroedThose(old(Rings()), which)
    {
      hide Advanced, Rotated, Zeroed, Accounted, ValidRings;
      for i := 0 to 4
        invariant Valid()
        invariant forall j :: 0 <= j < 4 ==>
          Rings()[j] == if j < i && which[j] then Zeroed(old(Rings())[j]) else old(Rings())[j]
      {
        if which[i] {
          label before:
          db[i].Zero();
          OneChanged@before(i);
        }
      }
    }

    /** graph_reset(), but for the two totals, which accounting resets */
    method Reset(mono: int, wall: int)
      requires Valid()
      modifies this, Arrays()
      ensures Valid() && startMono == mono && startReal == wall && lastReal == 0
      ensures Rings() == ZeroedThose(old(Rings()), [true, true, true, true])
    {
      ZeroThose([true, true, true, true]);
      startMono, startReal, lastReal := mono, wall, 0;
    }

    /** graph_acct() */
    method Acct(amount: nat, dir: Dir)
      requires Valid()
      modifies Arrays()
      ensures Valid() && Rings() == AccountedAll(old(Rings()), amount, dir)
    {
      hide Advanced, Rotated, Zeroed, Accounted, ValidRings;
      for i := 0 to 4
        invariant Valid()
        invariant forall j :: 0 <= j < 4 ==>
          Rings()[j] == if j < i then Accounted(old(Rings())[j], amount, dir) else old(Rings())[j]
      {
        label before:
        db[i].Acct(amount, dir);
        OneChanged@before(i);
      }
    }

    method AdvanceOne(i: nat, to: nat)
      requires i < 4 && Valid() && to < SIZES[i]
      modifies db[i], db[i].inn, db[i].out
      ensures Valid() && Rings() == old(Rings())[i := Advanced(old(Rings())[i], to)]
    {
      hide Advanced, ValidRings;
      label before:
      db[i].Advance(to);
      OneChanged@before(i);
    }

    /** The last step of a normal rotation. */
    method AdvanceAll(to: seq<nat>)
      requires Valid() && Positions(to)
      modifies db, Arrays()
      ensures Valid() && Rings() == AdvancedAll(old(Rings()), to)
    {
      hide Advanced, Rotated, Zeroed, Accounted, ValidRings;
      for i := 0 to 4
        invariant Valid()
        invariant forall j :: 0 <= j < 4 ==>
          Rings()[j] == if j < i then Advanced(old(Rings())[j], to[j]) else old(Rings())[j]
      {
        AdvanceOne(i, to[i]);
      }
    }

    method RotateOne(i: nat, to: nat)
      requires i < 4 && Valid() && to < SIZES[i]
      modifies db[i], db[i].inn, db[i].out
      ensures Valid() && Rings() == old(Rings())[i := Rotated(old(Rings())[i], to)]
    {
      hide Rotated, ValidRings;
      label before:
      db[i].Rotate(to);
      OneChanged@before(i);
    }

    /** graph_resync() */
    method RotateAll(to: seq<nat>)
      requires Valid() && Positions(to)
      modifies db, Arrays()
      ensures Valid() && Rings() == RotatedAll(old(Rings()), to)
    {
      hide Advanced, Rotated, Zeroed, Accounted, ValidRings;
      for i := 0 to 4
        invariant Valid()
        invariant forall j :: 0 <= j < 4 ==>
          Rings()[j] == if j < i then Rotated(old(Rings())[j], to[j]) else old(Rings())[j]
      {
        RotateOne(i, to[i]);
      }
    }

    /** The first rotation only takes the positions. */
    method PlaceAll(to: seq<nat>)
      requires Valid() && Positions(to)
      modifies db
      ensures Valid() && Rings() == PlacedAll(old(Rings()), to)
    {
      hide Advanced, Rotated, Zeroed, Accounted, ValidRings;
      for i := 0 to 4
        invariant Valid()
        invariant forall j :: 0 <= j < 4 ==>
          Rings()[j] == if j < i then old(Rings())[j].(pos := to[j]) else old(Rings())[j]
      {
        label before:
        db[i].pos := to[i];
        OneChanged@before(i);
      }
    }

    /** The seconds in one turn of each graph, from its own figures. */
    method Spans() returns (spans: seq<nat>)
      requires Valid()
      ensures spans == SPANS
    {
      spans := [];
      for i := 0 to 4
        invariant spans == SPANS[..i]
      {
        spans := spans + [db[i].numBars * db[i].barSecs];
      }
    }

    method TurnAll(last: int, t: int, tm: Tm)
      requires Valid() && ValidTm(tm) && Manageable(last, t, tm)
      modifies db, Arrays()
      ensures Valid() && Rings() == TurnedAll(old(Rings()), last, t, Indices(tm))
    {
      hide Advanced, Rotated, Zeroed, Turned, TurnedAll, AdvancedAll, RotatedAll, ZeroedThose, PlacedAll, ValidRings;
      var td := t - last;
      var to := Indices(tm);
      TurnedCases(Rings(), last, t, to);
      if last == 0 {
        PlaceAll(to);
      } else if t < last {
        RotateAll(to);
      } else if t > last {
        var spans := Spans();
        ZeroThose([td >= spans[0], td >= spans[1], td >= spans[2], td >= spans[3]]);
        AdvanceAll(to);
      }
    }

    /** graph_rotate() at real time `t`, whose local time is `tm`. */
    method GraphRotate(t: int, tm: Tm)
      requires Valid() && ValidTm(tm) && Manageable(lastReal, t, tm)
      modifies this`lastReal, db, Arrays()
      ensures Valid() && lastReal == t
      ensures Rings() == TurnedAll(old(Rings()), old(lastReal), t, Indices(tm))
      ensures old(lastReal) == 0 || t != old(lastReal) ==>
                && db[0].pos == (if tm.sec == 60 then 59 else tm.sec) && db[1].pos == tm.min && db[2].pos == tm.hour
                && db[3].pos == tm.mday - 1
    {
      hide TurnedAll, ValidRings;
      TurnedPositions(Rings(), lastReal, t, tm);
      TurnAll(lastReal, t, tm);
      assert forall i :: 0 <= i < 4 ==> Rings()[i].pos == db[i].pos;
      lastReal := t;
    }
  }

  ghost function ZeroedThose(rs: seq<Ring>, which: seq<bool>): (qs: seq<Ring>)
    requires ValidRings(rs) && |which| == 4
    ensures ValidRings(qs)
  {
    seq(4, i requires 0 <= i < 4 => if which[i] then Zeroed(rs[i]) else rs[i])
  }

  ghost function AccountedAll(rs: seq<Ring>, amount: nat, dir: Dir): (qs: seq<Ring>)
    requires ValidRings(rs)
    ensures ValidRings(qs)
  {
    seq(4, i requires 0 <= i < 4 => Accounted(rs[i], amount, dir))
  }

  ghost function AdvancedAll(rs: seq<Ring>, to: seq<nat>): (qs: seq<Ring>)
    requires ValidRings(rs) && Positions(to)
    ensures ValidRings(qs)
  {
    seq(4, i requires 0 <= i < 4 => Advanced(rs[i], to[i]))
  }

  ghost function RotatedAll(rs: seq<Ring>, to: seq<nat>): (qs: seq<Ring>)
    requires ValidRings(rs) && Positions(to)
    ensures ValidRings(qs)
  {
    seq(4, i requires 0 <= i < 4 => Rotated(rs[i], to[i]))
  }

  ghost function PlacedAll(rs: seq<Ring>, to: seq<nat>): (qs: seq<Ring>)
    requires ValidRings(rs) && Positions(to)
    ensures ValidRings(qs)
  {
    seq(4, i requires 0 <= i < 4 => rs[i].(pos := to[i]))
  }

  /** All four rings turned, each by the rule of its own span. */
  ghost function TurnedAll(rs: seq<Ring>, last: int, t: int, to: seq<nat>): (qs: seq<Ring>)
    requires ValidRings(rs) && Positions(to)
    ensures ValidRings(qs)
  {
    seq(4, i requires 0 <= i < 4 => Turned(SPANS[i], rs[i], last, t, to[i]))
  }

  /** After a rotation that moves the clock, and after the first, the positions are those of the time. */
  lemma TurnedPositions(rs: seq<Ring>, last: int, t: int, tm: Tm)
    requires ValidRings(rs) && ValidTm(tm) && Manageable(last, t, tm)
    ensures var qs := TurnedAll(rs, last, t, Indices(tm));
            last == 0 || t != last ==>
              && qs[0].pos == (if tm.sec == 60 then 59 else tm.sec) && qs[1].pos == tm.min && qs[2].pos == tm.hour
              && qs[3].pos == tm.mday - 1
  {
    hide Turned, View;
    var to := Indices(tm);
    if last == 0 || t != last {
      forall i | 0 <= i < 4
        ensures TurnedAll(rs, last, t, to)[i].pos == to[i]
      {
        TurnedPosition(SPANS[i], rs[i], last, t, to[i]);
      }
    }
  }

  lemma TurnedCases(rs: seq<Ring>, last: int, t: int, to: seq<nat>)
    requires ValidRings(rs) && Positions(to)
    ensures var td := t - last;
            TurnedAll(rs, last, t, to)
            == if last == 0 then PlacedAll(rs, to)
               else if t == last then rs
               else if t < last then RotatedAll(rs, to)
               else AdvancedAll(ZeroedThose(rs, [td >= 60, td >= 3600, td >= 86400, td >= 2678400]), to)
  {
    hide Advanced, Rotated, Zeroed;
    assert RotatedAll(rs, to)[0] == Rotated(rs[0], to[0]);
    assert last != 0 && t == last ==> TurnedAll(rs, last, t, to) == rs;
    assert last != 0 && t < last ==> TurnedAll(rs, last, t, to) == RotatedAll(rs, to);
  }
}
