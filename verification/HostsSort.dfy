/**
 Partial three-way quicksort over an array of buckets (hosts_sort.c).

 Only the positions inside the window [left, right] have to reach their final place; sides
 that lie wholly outside the window are never sorted. Each in-place loop is proved equal to
 a function on sequences that takes the same steps, and what the steps achieve is proved
 about those functions.
 */
module HostsSort {
  import opened Buckets

  /** Three-way comparison; a positive result means that `x` belongs after `y`. */
  function Cmp<K>(x: Bucket<K>, y: Bucket<K>, dir: SortDir): (r: int)
    reads x, y
    ensures r > 0 <==> Rank(x, dir) < Rank(y, dir)
    ensures r < 0 <==> Rank(x, dir) > Rank(y, dir)
  {
    var p, q := Rank(x, dir), Rank(y, dir);
    if p < q then 1 else if p > q then -1 else 0
  }

  // ----- What the sort has to achieve -----

  /** `after` is a rearrangement of `before` that touches only [lo, hi). */
  ghost predicate Rearranged<T>(before: seq<T>, after: seq<T>, lo: int, hi: int) {
    && |before| == |after|
    && multiset(before) == multiset(after)
    && 0 <= lo <= hi <= |before|
    && (forall k :: 0 <= k < lo || hi <= k < |before| ==> before[k] == after[k])
  }

  /** Position `k` of s[lo..hi] is final: nothing before it ranks lower, nothing after it ranks higher. */
  ghost predicate Final<T>(s: seq<T>, lo: int, hi: int, k: int, rank: T -> int)
    requires 0 <= lo <= k < hi <= |s|
  {
    && (forall i :: lo <= i < k ==> rank(s[i]) >= rank(s[k]))
    && (forall j :: k < j < hi ==> rank(s[j]) <= rank(s[k]))
  }

  ghost predicate Sorted<T>(s: seq<T>, lo: int, hi: int, rank: T -> int)
    requires 0 <= lo <= hi <= |s|
  {
    forall i, j :: lo <= i < j < hi ==> rank(s[i]) >= rank(s[j])
  }

  /** `rank` records the ranks of the buckets in `s`, which the sort only reads. */
  ghost predicate Ranks<K>(s: seq<Bucket<K>>, dir: SortDir, rank: Bucket<K> -> int)
    reads s
  {
    forall k :: 0 <= k < |s| ==> rank(s[k]) == Rank(s[k], dir)
  }

  lemma MultisetCancel<T>(x: multiset<T>, y: multiset<T>, z: multiset<T>, w: multiset<T>)
    requires x + (y + w) == x + (z + w)
    ensures y == z
  {
    forall e: T
      ensures y[e] == z[e]
    {
      assert (x + (y + w))[e] == (x + (z + w))[e];
    }
  }

  /** A rearrangement of [lo, hi) only permutes that stretch: everything in it was in it before. */
  lemma RearrangedMembers<T>(before: seq<T>, after: seq<T>, lo: int, hi: int)
    requires Rearranged(before, after, lo, hi)
    ensures forall k :: lo <= k < hi ==> after[k] in before[lo..hi]
  {
    assert before[..lo] == after[..lo] && before[hi..] == after[hi..];
    assert before == before[..lo] + (before[lo..hi] + before[hi..]);
    assert after == after[..lo] + (after[lo..hi] + after[hi..]);
    assert multiset(before) == multiset(before[..lo]) + (multiset(before[lo..hi]) + multiset(before[hi..]));
    assert multiset(after) == multiset(after[..lo]) + (multiset(after[lo..hi]) + multiset(after[hi..]));
    MultisetCancel(multiset(before[..lo]), multiset(before[lo..hi]), multiset(after[lo..hi]), multiset(before[hi..]));
    forall k | lo <= k < hi
      ensures after[k] in before[lo..hi]
    {
      assert after[lo..hi][k - lo] == after[k];
      assert after[k] in multiset(after[lo..hi]);
    }
  }

  lemma RearrangedTrans<T>(s: seq<T>, t: seq<T>, u: seq<T>, lo: nat, hi: nat)
    requires Rearranged(s, t, lo, hi) && Rearranged(t, u, lo, hi)
    ensures Rearranged(s, u, lo, hi)
  {
  }

  lemma RearrangedWiden<T>(s: seq<T>, t: seq<T>, lo: nat, hi: nat, lo': nat, hi': nat)
    requires Rearranged(s, t, lo, hi) && lo' <= lo && hi <= hi' <= |s|
    ensures Rearranged(s, t, lo', hi')
  {
  }

  // ----- Exchanging elements -----

  ghost function Swapped<T>(s: seq<T>, i: nat, j: nat): seq<T>
    requires i < |s| && j < |s|
  {
    s[i := s[j]][j := s[i]]
  }

  lemma SwappedRearranged<T>(s: seq<T>, i: nat, j: nat, lo: nat, hi: nat)
    requires lo <= i < hi <= |s| && lo <= j < hi
    ensures Rearranged(s, Swapped(s, i, j), lo, hi)
  {
  }

  method Swap<K>(a: array<Bucket<K>>, i: nat, j: nat, dir: SortDir, ghost rank: Bucket<K> -> int)
    requires i < a.Length && j < a.Length
    requires Ranks(a[..], dir, rank)
    modifies a
    ensures a[..] == Swapped(old(a[..]), i, j)
    ensures Ranks(a[..], dir, rank)
  {
    a[i], a[j] := a[j], a[i];
  }

  ghost function VecSwapped<T>(s: seq<T>, i: nat, j: nat, n: nat): (t: seq<T>)
    requires i + n <= |s| && j + n <= |s|
    ensures |t| == |s|
    decreases n
  {
    if n == 0 then s else VecSwapped(Swapped(s, i, j), i + 1, j + 1, n - 1)
  }

  /** Exchanges a[i..i+n] with a[j..j+n], one pair at a time. */
  method VecSwap<K>(a: array<Bucket<K>>, i: nat, j: nat, n: nat, dir: SortDir, ghost rank: Bucket<K> -> int)
    requires i + n <= a.Length && j + n <= a.Length
    requires Ranks(a[..], dir, rank)
    modifies a
    ensures a[..] == VecSwapped(old(a[..]), i, j, n)
    ensures Ranks(a[..], dir, rank)
  {
    var pi, pj, m := i, j, n;
    while m > 0
      invariant 0 <= m <= n && pi == i + (n - m) && pj == j + (n - m)
      invariant Ranks(a[..], dir, rank)
      invariant VecSwapped(a[..], pi, pj, m) == VecSwapped(old(a[..]), i, j, n)
    {
      Swap(a, pi, pj, dir, rank);
      pi, pj, m := pi + 1, pj + 1, m - 1;
    }
  }

  /** The two stretches change places and everything else stays. */
  lemma {:induction false} VecSwappedAt<T>(s: seq<T>, i: nat, j: nat, n: nat, k: nat)
    requires i + n <= j && j + n <= |s| && k < |s|
    ensures VecSwapped(s, i, j, n)[k] ==
            if i <= k < i + n then s[k + (j - i)] else if j <= k < j + n then s[k - (j - i)] else s[k]
    decreases n
  {
    if n > 0 {
      VecSwappedAt(Swapped(s, i, j), i + 1, j + 1, n - 1, k);
    }
  }

  lemma {:induction false} VecSwappedRearranged<T>(s: seq<T>, i: nat, j: nat, n: nat, lo: nat, hi: nat)
    requires lo <= i && i + n <= hi && lo <= j && j + n <= hi <= |s|
    ensures Rearranged(s, VecSwapped(s, i, j, n), lo, hi)
    decreases n
  {
    if n > 0 {
      var u := Swapped(s, i, j);
      SwappedRearranged(s, i, j, lo, hi);
      VecSwappedRearranged(u, i + 1, j + 1, n - 1, lo, hi);
      RearrangedTrans(s, u, VecSwapped(u, i + 1, j + 1, n - 1), lo, hi);
    }
  }

  // ----- Insertion sort -----

  /** The element at `pl` sinks towards `lo` past every lower-ranking element. */
  ghost function Sunk<T>(s: seq<T>, lo: nat, pl: nat, rank: T -> int): (t: seq<T>)
    requires pl < |s|
    ensures |t| == |s|
    decreases pl
  {
    if pl > lo && rank(s[pl - 1]) < rank(s[pl]) then Sunk(Swapped(s, pl, pl - 1), lo, pl - 1, rank) else s
  }

  ghost function Inserted<T>(s: seq<T>, lo: nat, pm: nat, hi: nat, rank: T -> int): (t: seq<T>)
    requires hi <= |s|
    ensures |t| == |s|
    decreases hi - pm
  {
    if pm < hi then Inserted(Sunk(s, lo, pm, rank), lo, pm + 1, hi, rank) else s
  }

  method InsertionSort<K>(a: array<Bucket<K>>, lo: nat, n: nat, dir: SortDir, ghost rank: Bucket<K> -> int)
    requires lo + n <= a.Length
    requires Ranks(a[..], dir, rank)
    modifies a
    ensures a[..] == Inserted(old(a[..]), lo, lo + 1, lo + n, rank)
    ensures Ranks(a[..], dir, rank)
  {
    var pm := lo + 1;
    while pm < lo + n
      invariant pm >= lo + 1
      invariant Ranks(a[..], dir, rank)
      invariant Inserted(a[..], lo, pm, lo + n, rank) == Inserted(old(a[..]), lo, lo + 1, lo + n, rank)
    {
      var pl := pm;
      ghost var s := a[..];
      while pl > lo && Cmp(a[pl - 1], a[pl], dir) > 0
        invariant lo <= pl <= pm
        invariant Ranks(a[..], dir, rank)
        invariant Sunk(a[..], lo, pl, rank) == Sunk(s, lo, pm, rank)
      {
        Swap(a, pl, pl - 1, dir, rank);
        pl := pl - 1;
      }
      pm := pm + 1;
    }
  }

  /** s[lo..hi] is in order except that position `hole` may rank higher than those before it. */
  ghost predicate SortedBut<T>(s: seq<T>, lo: int, hi: int, hole: int, rank: T -> int)
    requires 0 <= lo <= hi <= |s|
  {
    forall i, j :: lo <= i < j < hi && j != hole ==> rank(s[i]) >= rank(s[j])
  }

  lemma SwapDown<T>(s: seq<T>, lo: nat, hi: nat, hole: nat, rank: T -> int)
    requires lo < hole < hi <= |s|
    requires SortedBut(s, lo, hi, hole, rank) && rank(s[hole - 1]) < rank(s[hole])
    ensures SortedBut(Swapped(s, hole, hole - 1), lo, hi, hole - 1, rank)
  {
    var t := Swapped(s, hole, hole - 1);
    forall i, j | lo <= i < j < hi && j != hole - 1
      ensures rank(t[i]) >= rank(t[j])
    {
      var i' := if i == hole then hole - 1 else if i == hole - 1 then hole else i;
      var j' := if j == hole then hole - 1 else j;
      if i' < j' {
        assert rank(s[i']) >= rank(s[j']);
      }
    }
  }

  lemma HoleClosed<T>(s: seq<T>, lo: nat, hi: nat, hole: nat, rank: T -> int)
    requires lo <= hole < hi <= |s|
    requires SortedBut(s, lo, hi, hole, rank)
    requires hole > lo ==> rank(s[hole - 1]) >= rank(s[hole])
    ensures Sorted(s, lo, hi, rank)
  {
    forall i, j | lo <= i < j < hi
      ensures rank(s[i]) >= rank(s[j])
    {
      if j == hole && i < hole - 1 {
        assert rank(s[i]) >= rank(s[hole - 1]);
      }
    }
  }

  lemma {:induction false} SunkSorted<T>(s: seq<T>, lo: nat, pl: nat, hi: nat, rank: T -> int)
    requires lo <= pl < hi <= |s|
    requires SortedBut(s, lo, hi, pl, rank)
    ensures Sorted(Sunk(s, lo, pl, rank), lo, hi, rank)
    ensures Rearranged(s, Sunk(s, lo, pl, rank), lo, hi)
    decreases pl
  {
    hide Sorted, Rearranged, SortedBut, Sunk;
    SunkStep(s, lo, pl, rank);
    if pl > lo && rank(s[pl - 1]) < rank(s[pl]) {
      var t := Swapped(s, pl, pl - 1);
      SwapDown(s, lo, hi, pl, rank);
      SwappedRearranged(s, pl, pl - 1, lo, hi);
      SunkSorted(t, lo, pl - 1, hi, rank);
      RearrangedTrans(s, t, Sunk(t, lo, pl - 1, rank), lo, hi);
    } else {
      HoleClosed(s, lo, hi, pl, rank);
      RearrangedSelf(s, lo, hi);
    }
  }

  lemma SunkStep<T>(s: seq<T>, lo: nat, pl: nat, rank: T -> int)
    requires pl < |s|
    ensures Sunk(s, lo, pl, rank) ==
            if pl > lo && rank(s[pl - 1]) < rank(s[pl]) then Sunk(Swapped(s, pl, pl - 1), lo, pl - 1, rank) else s
  {
  }

  lemma RearrangedSelf<T>(s: seq<T>, lo: nat, hi: nat)
    requires lo <= hi <= |s|
    ensures Rearranged(s, s, lo, hi)
  {
  }

  lemma {:induction false} InsertedSorted<T>(s: seq<T>, lo: nat, pm: nat, hi: nat, rank: T -> int)
    requires lo < pm && lo <= hi <= |s|
    requires if pm <= hi then Sorted(s, lo, pm, rank) else hi == lo
    ensures Sorted(Inserted(s, lo, pm, hi, rank), lo, hi, rank)
    ensures Rearranged(s, Inserted(s, lo, pm, hi, rank), lo, hi)
    decreases hi - pm
  {
    if pm < hi {
      var t := Sunk(s, lo, pm, rank);
      SunkSorted(s, lo, pm, pm + 1, rank);
      RearrangedWiden(s, t, lo, pm + 1, lo, hi);
      InsertedSorted(t, lo, pm + 1, hi, rank);
      RearrangedTrans(s, t, Inserted(t, lo, pm + 1, hi, rank), lo, hi);
    }
  }

  // ----- Three-way partition -----

  predicate IsMedian(r: int, p: int, q: int, s: int) {
    || (r == p && (q <= r <= s || s <= r <= q))
    || (r == q && (p <= r <= s || s <= r <= p))
    || (r == s && (p <= r <= q || q <= r <= p))
  }

  function Median(p: int, q: int, s: int): (r: int)
    ensures IsMedian(r, p, q, s)
  {
    if p <= q then (if q <= s then q else if p <= s then s else p)
    else (if p <= s then p else if q <= s then s else q)
  }

  /** Picks the position, out of three, that holds the median rank. */
  method Med3<K>(a: array<Bucket<K>>, x: nat, y: nat, z: nat, dir: SortDir) returns (m: nat)
    requires x < a.Length && y < a.Length && z < a.Length
    ensures m == x || m == y || m == z
    ensures Rank(a[m], dir) == Median(Rank(a[x], dir), Rank(a[y], dir), Rank(a[z], dir))
  {
    m := if Cmp(a[x], a[y], dir) < 0
         then (if Cmp(a[y], a[z], dir) < 0 then y else if Cmp(a[x], a[z], dir) < 0 then z else x)
         else (if Cmp(a[y], a[z], dir) > 0 then y else if Cmp(a[x], a[z], dir) < 0 then x else z);
  }

  /** For long stretches: the medians of three at the front, in the middle and at the end. */
  method ThreeMedians<K>(a: array<Bucket<K>>, lo: nat, n: nat, dir: SortDir) returns (pl: nat, pm: nat, pn: nat)
    requires n > 40 && lo + n <= a.Length
    ensures lo <= pl < lo + n && lo <= pm < lo + n && lo <= pn < lo + n
    ensures var d, mid, last := n / 8, lo + n / 2, lo + (n - 1);
            && Rank(a[pl], dir) == Median(Rank(a[lo], dir), Rank(a[lo + d], dir), Rank(a[lo + 2 * d], dir))
            && Rank(a[pm], dir) == Median(Rank(a[mid - d], dir), Rank(a[mid], dir), Rank(a[mid + d], dir))
            && Rank(a[pn], dir) == Median(Rank(a[last - 2 * d], dir), Rank(a[last - d], dir), Rank(a[last], dir))
  {
    hide Median, IsMedian, Rank;
    var d, mid, last := n / 8, lo + n / 2, lo + (n - 1);
    pl := Med3(a, lo, lo + d, lo + 2 * d, dir);
    pm := Med3(a, mid - d, mid, mid + d, dir);
    pn := Med3(a, last - 2 * d, last - d, last, dir);
  }

  /** The middle element, a median of three, or for long stretches a median of three medians. */
  method ChoosePivot<K>(a: array<Bucket<K>>, lo: nat, n: nat, dir: SortDir) returns (pm: nat)
    requires n >= 7 && lo + n <= a.Length
    ensures lo <= pm < lo + n
    ensures Rank(a[pm], dir) ==
            var d, mid, last := n / 8, lo + n / 2, lo + (n - 1);
            if n == 7 then Rank(a[mid], dir)
            else if n <= 40 then Median(Rank(a[lo], dir), Rank(a[mid], dir), Rank(a[last], dir))
            else Median(Median(Rank(a[lo], dir), Rank(a[lo + d], dir), Rank(a[lo + 2 * d], dir)),
                        Median(Rank(a[mid - d], dir), Rank(a[mid], dir), Rank(a[mid + d], dir)),
                        Median(Rank(a[last - 2 * d], dir), Rank(a[last - d], dir), Rank(a[last], dir)))
  {
    hide Median, IsMedian, Rank;
    pm := lo + n / 2;
    if n > 7 {
      var pl, pn := lo, lo + (n - 1);
      if n > 40 {
        pl, pm, pn := ThreeMedians(a, lo, n, dir);
      }
      pm := Med3(a, pl, pm, pn, dir);
    }
  }

  /** The four cursors of the partition loop, and whether it has exchanged anything. */
  datatype Cursors = Cursors(pa: nat, pb: nat, pc: int, pd: int, swapped: bool)

  ghost predicate InBounds(c: Cursors, lo: nat, hi: nat) {
    lo < c.pa <= c.pb <= c.pc + 1 && c.pc <= c.pd < hi
  }

  /** One step of the partition around the pivot s[lo]. */
  ghost function SplitStep<T>(s: seq<T>, lo: nat, c: Cursors, rank: T -> int): (r: (seq<T>, Cursors))
    requires InBounds(c, lo, |s|) && c.pb <= c.pc
    ensures |r.0| == |s| && InBounds(r.1, lo, |s|) && r.1.pc - r.1.pb < c.pc - c.pb
  {
    var p := rank(s[lo]);
    if rank(s[c.pb]) > p then (s, c.(pb := c.pb + 1))
    else if rank(s[c.pb]) == p then (Swapped(s, c.pa, c.pb), Cursors(c.pa + 1, c.pb + 1, c.pc, c.pd, true))
    else if rank(s[c.pc]) < p then (s, c.(pc := c.pc - 1))
    else if rank(s[c.pc]) == p then (Swapped(s, c.pc, c.pd), Cursors(c.pa, c.pb, c.pc - 1, c.pd - 1, true))
    else (Swapped(s, c.pb, c.pc), Cursors(c.pa, c.pb + 1, c.pc - 1, c.pd, true))
  }

  /** The partition around the pivot s[lo], continued from cursors `c` until they cross. */
  ghost function Split<T>(s: seq<T>, lo: nat, c: Cursors, rank: T -> int): (r: (seq<T>, Cursors))
    requires InBounds(c, lo, |s|)
    ensures |r.0| == |s|
    decreases c.pc + 1 - c.pb
  {
    if c.pb > c.pc then (s, c)
    else
      var next := SplitStep(s, lo, c, rank);
      Split(next.0, lo, next.1, rank)
  }

  /** Moves `pb` up by one past an element that does not belong after the pivot. */
  method StepUp<K>(a: array<Bucket<K>>, lo: nat, c: Cursors, dir: SortDir, ghost rank: Bucket<K> -> int)
      returns (d: Cursors)
    requires InBounds(c, lo, a.Length) && c.pb <= c.pc
    requires Ranks(a[..], dir, rank)
    requires Rank(a[c.pb], dir) >= Rank(a[lo], dir)
    modifies a
    ensures Ranks(a[..], dir, rank)
    ensures (a[..], d) == SplitStep(old(a[..]), lo, c, rank) && d.pb == c.pb + 1 && d.pc == c.pc
  {
    d := c;
    assert rank(a[..][c.pb]) == Rank(a[c.pb], dir) && rank(a[..][lo]) == Rank(a[lo], dir);
    if Cmp(a[c.pb], a[lo], dir) == 0 {
      Swap(a, c.pa, c.pb, dir, rank);
      d := d.(pa := c.pa + 1, swapped := true);
    }
    d := d.(pb := c.pb + 1);
  }

  /** Moves `pc` down by one past an element that does not belong before the pivot. */
  method StepDown<K>(a: array<Bucket<K>>, lo: nat, c: Cursors, dir: SortDir, ghost rank: Bucket<K> -> int)
      returns (d: Cursors)
    requires InBounds(c, lo, a.Length) && c.pb <= c.pc
    requires Ranks(a[..], dir, rank)
    requires Rank(a[c.pc], dir) <= Rank(a[lo], dir) && Rank(a[c.pb], dir) < Rank(a[lo], dir)
    modifies a
    ensures Ranks(a[..], dir, rank)
    ensures (a[..], d) == SplitStep(old(a[..]), lo, c, rank) && d.pb == c.pb && d.pc == c.pc - 1
    ensures a[lo] == old(a[lo]) && (c.pb < c.pc ==> a[c.pb] == old(a[c.pb]))
  {
    d := c;
    assert rank(a[..][c.pb]) == Rank(a[c.pb], dir) && rank(a[..][lo]) == Rank(a[lo], dir);
    assert rank(a[..][c.pc]) == Rank(a[c.pc], dir);
    if Cmp(a[c.pc], a[lo], dir) == 0 {
      Swap(a, c.pc, c.pd, dir, rank);
      assert a[..][lo] == old(a[..])[lo] && (c.pb < c.pc ==> a[..][c.pb] == old(a[..])[c.pb]);
      d := d.(pd := c.pd - 1, swapped := true);
    }
    d := d.(pc := c.pc - 1);
  }

  /** Exchanges two elements that are each on the wrong side. */
  method StepBoth<K>(a: array<Bucket<K>>, lo: nat, c: Cursors, dir: SortDir, ghost rank: Bucket<K> -> int)
      returns (d: Cursors)
    requires InBounds(c, lo, a.Length) && c.pb <= c.pc
    requires Ranks(a[..], dir, rank)
    requires Rank(a[c.pb], dir) < Rank(a[lo], dir) < Rank(a[c.pc], dir)
    modifies a
    ensures Ranks(a[..], dir, rank)
    ensures (a[..], d) == SplitStep(old(a[..]), lo, c, rank)
  {
    assert rank(a[..][c.pb]) == Rank(a[c.pb], dir) && rank(a[..][lo]) == Rank(a[lo], dir);
    assert rank(a[..][c.pc]) == Rank(a[c.pc], dir);
    Swap(a, c.pb, c.pc, dir, rank);
    d := Cursors(c.pa, c.pb + 1, c.pc - 1, c.pd, true);
  }

  /** The inner loop that moves `pb` up. */
  method ScanUp<K>(a: array<Bucket<K>>, lo: nat, c: Cursors, dir: SortDir, ghost rank: Bucket<K> -> int)
      returns (d: Cursors)
    requires InBounds(c, lo, a.Length)
    requires Ranks(a[..], dir, rank)
    modifies a
    ensures InBounds(d, lo, a.Length) && d.pc - d.pb <= c.pc - c.pb
    ensures Ranks(a[..], dir, rank)
    ensures Split(a[..], lo, d, rank) == Split(old(a[..]), lo, c, rank)
    ensures d.pb <= d.pc ==> Rank(a[d.pb], dir) < Rank(a[lo], dir)
  {
    d := c;
    while d.pb <= d.pc && Cmp(a[d.pb], a[lo], dir) <= 0
      invariant InBounds(d, lo, a.Length) && d.pc == c.pc && d.pb >= c.pb
      invariant Ranks(a[..], dir, rank)
      invariant Split(a[..], lo, d, rank) == Split(old(a[..]), lo, c, rank)
      decreases d.pc + 1 - d.pb
    {
      d := StepUp(a, lo, d, dir, rank);
    }
  }

  /** The inner loop that moves `pc` down. */
  method ScanDown<K>(a: array<Bucket<K>>, lo: nat, c: Cursors, dir: SortDir, ghost rank: Bucket<K> -> int)
      returns (d: Cursors)
    requires InBounds(c, lo, a.Length)
    requires Ranks(a[..], dir, rank)
    requires c.pb <= c.pc ==> Rank(a[c.pb], dir) < Rank(a[lo], dir)
    modifies a
    ensures InBounds(d, lo, a.Length) && d.pc - d.pb <= c.pc - c.pb
    ensures Ranks(a[..], dir, rank)
    ensures Split(a[..], lo, d, rank) == Split(old(a[..]), lo, c, rank)
    ensures d.pb <= d.pc ==> Rank(a[d.pb], dir) < Rank(a[lo], dir) < Rank(a[d.pc], dir)
  {
    d := c;
    while d.pb <= d.pc && Cmp(a[d.pc], a[lo], dir) >= 0
      invariant InBounds(d, lo, a.Length) && d.pc <= c.pc && d.pb == c.pb
      invariant Ranks(a[..], dir, rank)
      invariant d.pb <= d.pc ==> Rank(a[d.pb], dir) < Rank(a[lo], dir)
      invariant Split(a[..], lo, d, rank) == Split(old(a[..]), lo, c, rank)
      decreases d.pc + 1 - d.pb
    {
      d := StepDown(a, lo, d, dir, rank);
    }
  }

  method Partition<K>(a: array<Bucket<K>>, lo: nat, n: nat, dir: SortDir, ghost rank: Bucket<K> -> int)
      returns (c: Cursors)
    requires n >= 2 && lo + n <= a.Length
    requires Ranks(a[..], dir, rank)
    modifies a
    ensures (a[..], c) == Split(old(a[..]), lo, Cursors(lo + 1, lo + 1, lo + (n - 1), lo + (n - 1), false), rank)
    ensures Ranks(a[..], dir, rank)
  {
    c := Cursors(lo + 1, lo + 1, lo + (n - 1), lo + (n - 1), false);
    ghost var goal := Split(a[..], lo, c, rank);
    while c.pb <= c.pc
      invariant InBounds(c, lo, a.Length)
      invariant Ranks(a[..], dir, rank)
      invariant Split(a[..], lo, c, rank) == goal
      decreases c.pc + 1 - c.pb
    {
      c := ScanUp(a, lo, c, dir, rank);
      c := ScanDown(a, lo, c, dir, rank);
      if c.pb <= c.pc {
        c := StepBoth(a, lo, c, dir, rank);
      }
    }
  }

  /** What the cursors delimit: equal, before, unknown, after and equal elements, in this order. */
  ghost predicate Scanned<T>(s: seq<T>, lo: nat, hi: nat, c: Cursors, p: int, rank: T -> int) {
    && hi <= |s| && InBounds(c, lo, hi)
    && (forall k :: lo <= k < c.pa ==> rank(s[k]) == p)
    && (forall k :: c.pa <= k < c.pb ==> rank(s[k]) > p)
    && (forall k :: c.pc < k <= c.pd ==> rank(s[k]) < p)
    && (forall k :: c.pd < k < hi ==> rank(s[k]) == p)
  }

  lemma ScanEqualUp<T>(s: seq<T>, lo: nat, hi: nat, c: Cursors, p: int, rank: T -> int)
    requires Scanned(s, lo, hi, c, p, rank) && c.pb <= c.pc && rank(s[c.pb]) == p
    ensures Scanned(Swapped(s, c.pa, c.pb), lo, hi, Cursors(c.pa + 1, c.pb + 1, c.pc, c.pd, true), p, rank)
  {
  }

  lemma ScanEqualDown<T>(s: seq<T>, lo: nat, hi: nat, c: Cursors, p: int, rank: T -> int)
    requires Scanned(s, lo, hi, c, p, rank) && c.pb <= c.pc && rank(s[c.pc]) == p
    ensures Scanned(Swapped(s, c.pc, c.pd), lo, hi, Cursors(c.pa, c.pb, c.pc - 1, c.pd - 1, true), p, rank)
  {
  }

  lemma ScanExchange<T>(s: seq<T>, lo: nat, hi: nat, c: Cursors, p: int, rank: T -> int)
    requires Scanned(s, lo, hi, c, p, rank) && c.pb <= c.pc && rank(s[c.pb]) < p < rank(s[c.pc])
    ensures Scanned(Swapped(s, c.pb, c.pc), lo, hi, Cursors(c.pa, c.pb + 1, c.pc - 1, c.pd, true), p, rank)
  {
  }

  lemma StepScans<T>(s: seq<T>, lo: nat, hi: nat, c: Cursors, p: int, rank: T -> int)
    requires Scanned(s, lo, hi, c, p, rank) && c.pb <= c.pc
    ensures var next := SplitStep(s, lo, c, rank); Scanned(next.0, lo, hi, next.1, p, rank)
  {
    assert rank(s[lo]) == p;
    if rank(s[c.pb]) == p {
      ScanEqualUp(s, lo, hi, c, p, rank);
    } else if rank(s[c.pb]) < p == rank(s[c.pc]) {
      ScanEqualDown(s, lo, hi, c, p, rank);
    } else if rank(s[c.pb]) < p < rank(s[c.pc]) {
      ScanExchange(s, lo, hi, c, p, rank);
    }
  }

  lemma {:induction false} SplitScans<T>(s: seq<T>, lo: nat, hi: nat, c: Cursors, p: int, rank: T -> int)
    requires Scanned(s, lo, hi, c, p, rank)
    ensures var (t, d) := Split(s, lo, c, rank); Scanned(t, lo, hi, d, p, rank) && d.pb == d.pc + 1
    decreases c.pc + 1 - c.pb
  {
    if c.pb <= c.pc {
      var next := SplitStep(s, lo, c, rank);
      StepScans(s, lo, hi, c, p, rank);
      SplitScans(next.0, lo, hi, next.1, p, rank);
    }
  }

  lemma StepRearranges<T>(s: seq<T>, lo: nat, hi: nat, c: Cursors, rank: T -> int)
    requires InBounds(c, lo, hi) && hi <= |s| && c.pb <= c.pc
    ensures var next := SplitStep(s, lo, c, rank); Rearranged(s, next.0, lo, hi) && InBounds(next.1, lo, hi)
  {
    SwappedRearranged(s, c.pa, c.pb, lo, hi);
    SwappedRearranged(s, c.pc, c.pd, lo, hi);
    SwappedRearranged(s, c.pb, c.pc, lo, hi);
  }

  lemma {:induction false} SplitRearranges<T>(s: seq<T>, lo: nat, hi: nat, c: Cursors, rank: T -> int)
    requires InBounds(c, lo, hi) && hi <= |s|
    ensures Rearranged(s, Split(s, lo, c, rank).0, lo, hi)
    decreases c.pc + 1 - c.pb
  {
    if c.pb <= c.pc {
      var next := SplitStep(s, lo, c, rank);
      StepRearranges(s, lo, hi, c, rank);
      SplitRearranges(next.0, lo, hi, next.1, rank);
      RearrangedTrans(s, next.0, Split(s, lo, c, rank).0, lo, hi);
    }
  }

  /** s[lo..hi] falls into a part above `p`, a part equal to `p` and a part below `p`. */
  ghost predicate Parted<T>(s: seq<T>, lo: nat, less: nat, more: nat, hi: nat, p: int, rank: T -> int) {
    && lo + less <= hi - more && hi <= |s|
    && (forall k :: lo <= k < lo + less ==> rank(s[k]) > p)
    && (forall k :: lo + less <= k < hi - more ==> rank(s[k]) == p)
    && (forall k :: hi - more <= k < hi ==> rank(s[k]) < p)
  }

  function Min(x: nat, y: nat): nat { if x < y then x else y }

  ghost function Gathered<T>(s: seq<T>, lo: nat, hi: nat, c: Cursors): seq<T>
    requires InBounds(c, lo, hi) && c.pb == c.pc + 1 && hi <= |s|
  {
    var r := Min(c.pa - lo, c.pb - c.pa);
    var r' := Min(c.pd - c.pc, hi - c.pd - 1);
    VecSwapped(VecSwapped(s, lo, c.pb - r, r), c.pb, hi - r', r')
  }

  /** Exchanging the shorter of [x, y) and [y, z) with the far end of the other makes them change sides. */
  lemma EndsExchanged<T>(s: seq<T>, x: nat, y: nat, z: nat, k: nat) returns (i: nat)
    requires x <= y <= z <= |s| && k < |s|
    ensures i < |s| && VecSwapped(s, x, z - Min(y - x, z - y), Min(y - x, z - y))[k] == s[i]
    ensures if x <= k < x + (z - y) then y <= i < z else if x <= k < z then x <= i < y else i == k
  {
    var r := Min(y - x, z - y);
    VecSwappedAt(s, x, z - r, r, k);
    i := if x <= k < x + r then k + (z - r - x) else if z - r <= k < z then k - (z - r - x) else k;
  }

  lemma GatheredAt<T>(s: seq<T>, lo: nat, hi: nat, c: Cursors, p: int, rank: T -> int, k: nat)
    requires Scanned(s, lo, hi, c, p, rank) && c.pb == c.pc + 1 && lo <= k < hi
    ensures var e := rank(Gathered(s, lo, hi, c)[k]);
            if k < lo + (c.pb - c.pa) then e > p else if k < hi - (c.pd - c.pc) then e == p else e < p
  {
    hide Gathered;
    var j := GatheredFrom(s, lo, hi, c, k);
  }

  /**
   Where the element comes from: a larger one from the left block, an equal one from either end,
   a smaller one from the right block.
   */
  lemma GatheredFrom<T>(s: seq<T>, lo: nat, hi: nat, c: Cursors, k: nat) returns (j: nat)
    requires InBounds(c, lo, hi) && c.pb == c.pc + 1 && hi <= |s| && lo <= k < hi
    ensures lo <= j < hi && Gathered(s, lo, hi, c)[k] == s[j]
    ensures if k < lo + (c.pb - c.pa) then c.pa <= j < c.pb
            else if k < hi - (c.pd - c.pc) then j < c.pa || c.pd < j
            else c.pc < j <= c.pd
  {
    hide VecSwapped;
    var r := Min(c.pa - lo, c.pb - c.pa);
    var i := EndsExchanged(VecSwapped(s, lo, c.pb - r, r), c.pb, c.pd + 1, hi, k);
    j := EndsExchanged(s, lo, c.pa, c.pb, i);
  }

  /** Exchanging the outer equal stretches with the inner ones gathers all equal elements in the middle. */
  lemma GatheredParted<T>(s: seq<T>, lo: nat, hi: nat, c: Cursors, p: int, rank: T -> int)
    requires Scanned(s, lo, hi, c, p, rank) && c.pb == c.pc + 1
    ensures Parted(Gathered(s, lo, hi, c), lo, c.pb - c.pa, c.pd - c.pc, hi, p, rank)
  {
    forall k | lo <= k < hi
      ensures var e := rank(Gathered(s, lo, hi, c)[k]);
              if k < lo + (c.pb - c.pa) then e > p else if k < hi - (c.pd - c.pc) then e == p else e < p
    {
      GatheredAt(s, lo, hi, c, p, rank, k);
    }
  }

  lemma GatheredRearranged<T>(s: seq<T>, lo: nat, hi: nat, c: Cursors)
    requires InBounds(c, lo, hi) && c.pb == c.pc + 1 && hi <= |s|
    ensures Rearranged(s, Gathered(s, lo, hi, c), lo, hi)
  {
    var r := Min(c.pa - lo, c.pb - c.pa);
    var r' := Min(c.pd - c.pc, hi - c.pd - 1);
    var t := VecSwapped(s, lo, c.pb - r, r);
    VecSwappedRearranged(s, lo, c.pb - r, r, lo, hi);
    VecSwappedRearranged(t, c.pb, hi - r', r', lo, hi);
    RearrangedTrans(s, t, Gathered(s, lo, hi, c), lo, hi);
  }

  /** Chooses a pivot, moves it to the front and splits the stretch around it. */
  method PivotAndSplit<K>(a: array<Bucket<K>>, lo: nat, n: nat, dir: SortDir, ghost rank: Bucket<K> -> int)
      returns (c: Cursors, ghost p: int)
    requires n >= 7 && lo + n <= a.Length
    requires Ranks(a[..], dir, rank)
    modifies a
    ensures Rearranged(old(a[..]), a[..], lo, lo + n)
    ensures Ranks(a[..], dir, rank)
    ensures Scanned(a[..], lo, lo + n, c, p, rank) && c.pb == c.pc + 1
  {
    ghost var s0, hi := a[..], lo + n;
    var pm := ChoosePivot(a, lo, n, dir);
    Swap(a, lo, pm, dir, rank);
    ghost var t := a[..];
    p := rank(t[lo]);
    c := Partition(a, lo, n, dir, rank);
    ghost var c0 := Cursors(lo + 1, lo + 1, lo + (n - 1), lo + (n - 1), false);
    Pivoted(s0, t, a[..], lo, pm, hi, c0, c, p, rank);
  }

  /** What the exchange with the pivot and the partition make of the stretch. */
  lemma Pivoted<T>(s: seq<T>, t: seq<T>, u: seq<T>, lo: nat, pm: nat, hi: nat, c0: Cursors, c: Cursors, p: int,
                   rank: T -> int)
    requires lo <= pm < hi <= |s| && lo + 1 < hi && t == Swapped(s, lo, pm) && p == rank(t[lo])
    requires c0 == Cursors(lo + 1, lo + 1, hi - 1, hi - 1, false)
    requires (u, c) == Split(t, lo, c0, rank)
    ensures Rearranged(s, u, lo, hi) && Scanned(u, lo, hi, c, p, rank) && c.pb == c.pc + 1
  {
    SwappedRearranged(s, lo, pm, lo, hi);
    SplitScans(t, lo, hi, c0, p, rank);
    SplitRearranges(t, lo, hi, c0, rank);
    RearrangedTrans(s, t, u, lo, hi);
  }

  method SortOutright<K>(a: array<Bucket<K>>, lo: nat, n: nat, dir: SortDir, ghost rank: Bucket<K> -> int)
    requires lo + n <= a.Length
    requires Ranks(a[..], dir, rank)
    modifies a
    ensures Rearranged(old(a[..]), a[..], lo, lo + n)
    ensures Ranks(a[..], dir, rank)
    ensures Sorted(a[..], lo, lo + n, rank)
  {
    InsertedSorted(a[..], lo, lo + 1, lo + n, rank);
    InsertionSort(a, lo, n, dir, rank);
  }

  method Gather<K>(a: array<Bucket<K>>, lo: nat, n: nat, c: Cursors, dir: SortDir, ghost rank: Bucket<K> -> int)
    requires lo + n <= a.Length && InBounds(c, lo, lo + n) && c.pb == c.pc + 1
    requires Ranks(a[..], dir, rank)
    modifies a
    ensures a[..] == Gathered(old(a[..]), lo, lo + n, c)
    ensures Ranks(a[..], dir, rank)
  {
    var r := Min(c.pa - lo, c.pb - c.pa);
    VecSwap(a, lo, c.pb - r, r, dir, rank);
    r := Min(c.pd - c.pc, lo + n - c.pd - 1);
    VecSwap(a, c.pb, lo + n - r, r, dir, rank);
  }

  /** One round of the sort: either the stretch is sorted outright, or it is parted around a pivot. */
  method Round<K>(a: array<Bucket<K>>, lo: nat, n: nat, dir: SortDir, ghost rank: Bucket<K> -> int)
      returns (done: bool, less: nat, more: nat, ghost p: int)
    requires lo + n <= a.Length
    requires Ranks(a[..], dir, rank)
    modifies a
    ensures Rearranged(old(a[..]), a[..], lo, lo + n)
    ensures Ranks(a[..], dir, rank)
    ensures done ==> Sorted(a[..], lo, lo + n, rank)
    ensures !done ==> less + more < n && Parted(a[..], lo, less, more, lo + n, p, rank)
  {
    hide Rearranged, Ranks, Sorted, Parted, Gathered;
    if n < 7 {
      SortOutright(a, lo, n, dir, rank);
      return true, 0, 0, 0;
    }
    var c;
    c, p := PivotAndSplit(a, lo, n, dir, rank);
    ghost var u := a[..];
    if !c.swapped {
      SortOutright(a, lo, n, dir, rank);
      RearrangedTrans(old(a[..]), u, a[..], lo, lo + n);
      return true, 0, 0, p;
    }
    Gather(a, lo, n, c, dir, rank);
    GatheredParted(u, lo, lo + n, c, p, rank);
    GatheredRearranged(u, lo, lo + n, c);
    RearrangedTrans(old(a[..]), u, a[..], lo, lo + n);
    return false, c.pb - c.pa, c.pd - c.pc, p;
  }

  // ----- The partial sort -----

  /** Every position of [lo, hi) that lies in the window [left, right], counted from `lo`, is final. */
  ghost predicate WindowFinal<T>(s: seq<T>, lo: nat, hi: nat, left: int, right: int, rank: T -> int)
    requires lo <= hi <= |s|
  {
    forall k :: lo <= k < hi && left <= k - lo <= right ==> Final(s, lo, hi, k, rank)
  }

  /** No element of [lo, mid) ranks below an element of [mid, hi). */
  ghost predicate Above<T>(s: seq<T>, lo: nat, mid: nat, hi: nat, rank: T -> int)
    requires lo <= mid <= hi <= |s|
  {
    forall i, j :: lo <= i < mid <= j < hi ==> rank(s[i]) >= rank(s[j])
  }

  /** Rearranging the two sides of a boundary separately keeps every pair across it in order. */
  lemma AboveKept<T>(s: seq<T>, t: seq<T>, lo: nat, mid: nat, hi: nat, x: nat, y: nat, rank: T -> int)
    requires lo <= mid <= hi <= |s| && Above(s, lo, mid, hi, rank)
    requires Rearranged(s, t, x, y) && lo <= x && y <= hi && (y <= mid || mid <= x)
    ensures Above(t, lo, mid, hi, rank)
  {
    RearrangedMembers(s, t, x, y);
    forall k | lo <= k < hi
      ensures exists i :: lo <= i < hi && t[k] == s[i] && (k < mid <==> i < mid)
    {
      if x <= k < y {
        var i :| 0 <= i < y - x && s[x..y][i] == t[k];
        assert t[k] == s[x + i];
      } else {
        assert t[k] == s[k];
      }
    }
  }

  lemma PartedAbove<T>(s: seq<T>, lo: nat, less: nat, more: nat, hi: nat, p: int, rank: T -> int)
    requires Parted(s, lo, less, more, hi, p, rank)
    ensures Above(s, lo, lo + less, hi, rank) && Above(s, lo, hi - more, hi, rank)
    ensures forall k :: lo + less <= k < hi - more ==> Final(s, lo, hi, k, rank)
  {
  }

  /** A position outside a rearranged stretch stays final. */
  lemma FinalKept<T>(s: seq<T>, t: seq<T>, lo: nat, hi: nat, k: nat, x: nat, y: nat, rank: T -> int)
    requires lo <= k < hi <= |s| && Final(s, lo, hi, k, rank)
    requires Rearranged(s, t, x, y) && lo <= x && y <= hi && (k < x || y <= k)
    ensures Final(t, lo, hi, k, rank)
  {
    RearrangedMembers(s, t, x, y);
    forall j | lo <= j < hi
      ensures exists i :: lo <= i < hi && t[j] == s[i] && (j < k <==> i < k) && (j == k <==> i == k)
    {
      if x <= j < y {
        var i :| 0 <= i < y - x && s[x..y][i] == t[j];
        assert t[j] == s[x + i];
      } else {
        assert t[j] == s[j];
      }
    }
  }

  /** A position that is final on one side of an ordered boundary is final in the whole. */
  lemma FinalAcross<T>(s: seq<T>, lo: nat, mid: nat, hi: nat, k: nat, rank: T -> int)
    requires lo <= mid <= hi <= |s| && Above(s, lo, mid, hi, rank)
    requires (lo <= k < mid && Final(s, lo, mid, k, rank)) || (mid <= k < hi && Final(s, mid, hi, k, rank))
    ensures Final(s, lo, hi, k, rank)
  {
  }

  /** The positions before `mid` that lie in the window are final, and `mid` is an ordered boundary. */
  ghost predicate FrontFinal<T>(s: seq<T>, lo: nat, mid: nat, hi: nat, left: int, right: int, rank: T -> int)
    requires lo <= mid <= hi <= |s|
  {
    && Above(s, lo, mid, hi, rank)
    && (forall k :: lo <= k < mid && left <= k - lo <= right ==> Final(s, lo, hi, k, rank))
  }

  /** After the part above the pivot has been dealt with, everything before the part below it has. */
  lemma FrontDone<T>(s: seq<T>, t: seq<T>, lo: nat, less: nat, more: nat, hi: nat, p: int,
                     left: int, right: int, rank: T -> int)
    requires Parted(s, lo, less, more, hi, p, rank)
    requires Rearranged(s, t, lo, lo + less)
    requires less <= 1 || less < left || WindowFinal(t, lo, lo + less, left, right, rank)
    ensures FrontFinal(t, lo, hi - more, hi, left, right, rank)
  {
    PartedAbove(s, lo, less, more, hi, p, rank);
    AboveKept(s, t, lo, lo + less, hi, lo, lo + less, rank);
    AboveKept(s, t, lo, hi - more, hi, lo, lo + less, rank);
    forall k | lo <= k < hi - more && left <= k - lo <= right
      ensures Final(t, lo, hi, k, rank)
    {
      if k >= lo + less {
        FinalKept(s, t, lo, hi, k, lo, lo + less, rank);
      } else {
        FinalAcross(t, lo, lo + less, hi, k, rank);
      }
    }
  }

  lemma SortedFront<T>(s: seq<T>, lo: nat, hi: nat, left: int, right: int, rank: T -> int)
    requires lo <= hi <= |s| && Sorted(s, lo, hi, rank)
    ensures FrontFinal(s, lo, hi, hi, left, right, rank)
  {
  }

  /**
   Part the stretch [lo, hi) and sort what precedes the part below the pivot, as far as the window
   asks; `mid` is where the part below the pivot begins.
   */
  method SortFront<K>(a: array<Bucket<K>>, lo: nat, hi: nat, left: nat, right: nat, dir: SortDir,
                      ghost rank: Bucket<K> -> int)
      returns (mid: nat)
    requires lo <= hi <= a.Length
    requires Ranks(a[..], dir, rank)
    modifies a
    ensures Rearranged(old(a[..]), a[..], lo, hi)
    ensures Ranks(a[..], dir, rank)
    ensures lo <= mid <= hi && (mid == lo ==> lo == hi)
    ensures FrontFinal(a[..], lo, mid, hi, left, right, rank)
    decreases hi - lo, 0
  {
    var done, less, more;
    ghost var p;
    done, less, more, p := Round(a, lo, hi - lo, dir, rank);
    ghost var s := a[..];
    if done {
      SortedFront(s, lo, hi, left, right, rank);
      return hi;
    }
    if less > 1 && less >= left {
      QsortBuckets(a, lo, lo + less, left, right, dir, rank);
      RearrangedWiden(s, a[..], lo, lo + less, lo, hi);
      RearrangedTrans(old(a[..]), s, a[..], lo, hi);
    }
    FrontDone(s, a[..], lo, less, more, hi, p, left, right, rank);
    mid := hi - more;
  }

  /** Sorting the rest behind an ordered boundary extends the finished front. */
  lemma FrontExtended<T>(s: seq<T>, t: seq<T>, lo: nat, mid: nat, mid': nat, hi: nat,
                         left: int, right: int, left': int, right': int, rank: T -> int)
    requires lo <= mid <= mid' <= hi <= |s|
    requires FrontFinal(s, lo, mid, hi, left, right, rank)
    requires Rearranged(s, t, mid, hi)
    requires FrontFinal(t, mid, mid', hi, left', right', rank)
    requires left' + mid <= left + lo || left' == 0
    requires right + lo == right' + mid
    ensures FrontFinal(t, lo, mid', hi, left, right, rank)
  {
    AboveKept(s, t, lo, mid, hi, mid, hi, rank);
    forall k | lo <= k < mid' && left <= k - lo <= right
      ensures Final(t, lo, hi, k, rank)
    {
      if k < mid {
        FinalKept(s, t, lo, hi, k, mid, hi, rank);
      } else {
        FinalAcross(t, lo, mid, hi, k, rank);
      }
    }
    forall i, j | lo <= i < mid' <= j < hi
      ensures rank(t[i]) >= rank(t[j])
    {
    }
  }

  /** Sorts the front of the rest [base, hi) and extends the finished front of [lo, hi) by it. */
  method SortOn<K>(a: array<Bucket<K>>, ghost s0: seq<Bucket<K>>, ghost lo: nat, base: nat, hi: nat,
                   ghost left: nat, ghost right: nat, left': nat, right': nat, dir: SortDir,
                   ghost rank: Bucket<K> -> int)
      returns (mid: nat)
    requires lo <= base <= hi <= a.Length
    requires Ranks(a[..], dir, rank)
    requires Rearranged(s0, a[..], lo, hi)
    requires FrontFinal(a[..], lo, base, hi, left, right, rank)
    requires right + lo == right' + base && (left' + base <= left + lo || left' == 0)
    modifies a
    ensures Rearranged(s0, a[..], lo, hi)
    ensures Ranks(a[..], dir, rank)
    ensures base <= mid <= hi && (mid == base ==> base == hi)
    ensures FrontFinal(a[..], lo, mid, hi, left, right, rank)
    decreases hi - base, 1
  {
    ghost var s := a[..];
    mid := SortFront(a, base, hi, left', right', dir, rank);
    RearrangedWiden(s, a[..], base, hi, lo, hi);
    RearrangedTrans(s0, s, a[..], lo, hi);
    FrontExtended(s, a[..], lo, base, mid, hi, left, right, left', right', rank);
  }

  /** What the window leaves unsorted at the end needs no sorting. */
  lemma WindowDone<T>(s: seq<T>, lo: nat, mid: nat, hi: nat, left: int, right: int, rank: T -> int)
    requires lo <= mid <= hi <= |s|
    requires FrontFinal(s, lo, mid, hi, left, right, rank)
    requires hi - mid <= 1 || mid - lo > right
    ensures WindowFinal(s, lo, hi, left, right, rank)
  {
  }

  /**
   Sorts a[lo..hi] as far as the window [left, right] asks: the stretch is rearranged, nothing
   else moves, and every position in the window is final.
   */
  method QsortBuckets<K>(a: array<Bucket<K>>, lo: nat, hi: nat, left: nat, right: nat, dir: SortDir,
                         ghost rank: Bucket<K> -> int)
    requires lo <= hi <= a.Length
    requires Ranks(a[..], dir, rank)
    modifies a
    ensures Rearranged(old(a[..]), a[..], lo, hi)
    ensures Ranks(a[..], dir, rank)
    ensures WindowFinal(a[..], lo, hi, left, right, rank)
    decreases hi - lo, 2
  {
    var base, left', right' := lo, left, right;
    var mid: nat := SortFront(a, lo, hi, left, right, dir, rank);
    while hi - mid > 1 && mid - base <= right'
      invariant lo <= base <= mid <= hi && (mid == base ==> base == hi)
      invariant Rearranged(old(a[..]), a[..], lo, hi)
      invariant Ranks(a[..], dir, rank)
      invariant right + lo == right' + base && (left' + base <= left + lo || left' == 0)
      invariant FrontFinal(a[..], lo, mid, hi, left, right, rank)
      decreases hi - mid
    {
      var skip := mid - base;
      left' := if skip > left' then 0 else left' - skip;
      right' := right' - skip;
      base := mid;
      mid := SortOn(a, old(a[..]), lo, base, hi, left, right, left', right', dir, rank);
    }
    WindowDone(a[..], lo, mid, hi, left, right, rank);
  }

  /** The first bucket may stand before the second in a listing by the counter that `dir` names. */
  predicate Listed<K>(x: Bucket<K>, y: Bucket<K>, dir: SortDir)
    reads x, y
  {
    && (dir.In? ==> x.bytesIn >= y.bytesIn) && (dir.Out? ==> x.bytesOut >= y.bytesOut)
    && (dir.Total? ==> x.total >= y.total) && (dir.LastSeen? ==> x.lastSeen >= y.lastSeen)
  }

  /**
   The partial sort of a whole table, with the window in positions of the table: whatever the window,
   the table is only rearranged and every position the window covers is final in the listing order.
   */
  method Sort<K>(a: array<Bucket<K>>, left: nat, right: nat, dir: SortDir)
    requires a.Length < 0x8000_0000
    modifies a
    ensures Rearranged(old(a[..]), a[..], 0, a.Length)
    ensures forall k, i :: 0 <= i < k < a.Length && left <= k <= right ==> Rank(a[i], dir) >= Rank(a[k], dir)
    ensures forall k, j :: 0 <= k < j < a.Length && left <= k <= right ==> Rank(a[k], dir) >= Rank(a[j], dir)
    ensures forall i, j :: 0 <= i < j < a.Length && (left <= i <= right || left <= j <= right) ==> Listed(a[i], a[j], dir)
  {
    ghost var ranks := map b | b in a[..] :: Rank(b, dir);
    ghost var rank := (b: Bucket<K>) => if b in ranks then ranks[b] else 0;
    QsortBuckets(a, 0, a.Length, left, right, dir, rank);
    ghost var s := a[..];
    forall k, i | 0 <= k < a.Length && left <= k <= right && 0 <= i < a.Length
      ensures i < k ==> Rank(a[i], dir) >= Rank(a[k], dir)
      ensures k < i ==> Rank(a[k], dir) >= Rank(a[i], dir)
    {
      assert Final(s, 0, a.Length, k, rank);
      assert rank(s[k]) == Rank(s[k], dir) && rank(s[i]) == Rank(s[i], dir);
    }
  }
}
