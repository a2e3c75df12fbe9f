/** Chains of buckets: the linked lists that hang off the slots of a table, seen as sequences. */
module Chains {
  import opened Buckets
  import opened Collections

  // ----- One chain on the heap -----

  /** The successor that position `j` of chain `c` has to point to. */
  function NextIn<K>(c: seq<Bucket<K>>, j: nat): Bucket?<K>
    requires j < |c|
  {
    if j + 1 < |c| then c[j + 1] else null
  }

  function Head<K>(c: seq<Bucket<K>>): Bucket?<K> {
    if |c| > 0 then c[0] else null
  }

  ghost predicate Links<K>(c: seq<Bucket<K>>)
    reads c`next
  {
    forall j :: 0 <= j < |c| ==> c[j].next == NextIn(c, j)
  }

  ghost function Elems<T>(s: seq<T>): (r: set<T>)
    ensures forall x :: x in s ==> x in r
    ensures forall x :: x in r ==> x in s
  {
    set x | x in s
  }

  // ----- All chains of a table -----

  ghost function Members<T>(cs: seq<seq<T>>): (r: set<T>)
    ensures forall i, b :: 0 <= i < |cs| && b in cs[i] ==> b in r
    ensures forall b :: b in r ==> exists i :: 0 <= i < |cs| && b in cs[i]
  {
    set i, b | 0 <= i < |cs| && b in cs[i] :: b
  }

  ghost predicate AllLinked<K>(cs: seq<seq<Bucket<K>>>)
    reads Members(cs)`next
  {
    forall i :: 0 <= i < |cs| ==> Links(cs[i])
  }

  /** The slots of `t` point to the heads of the chains, which are properly linked. */
  ghost predicate Laid<K>(t: array<Bucket?<K>>, cs: seq<seq<Bucket<K>>>)
    reads t, Members(cs)`next
  {
    t.Length == |cs| && AllLinked(cs) && forall i :: 0 <= i < |cs| ==> t[i] == Head(cs[i])
  }

  /** Every bucket is in the chain of its slot, and in it only once. */
  ghost predicate Chained<K>(cs: seq<seq<Bucket<K>>>, slot: K -> nat) {
    forall i :: 0 <= i < |cs| ==> NoDup(cs[i]) && forall b :: b in cs[i] ==> slot(b.key) == i
  }

  /** The finite map `m` files exactly the buckets of `s`, each under its own key. */
  ghost predicate Keyed<K>(s: set<Bucket<K>>, m: map<K, Bucket<K>>) {
    && (forall b :: b in s ==> b.key in m && m[b.key] == b)
    && (forall k :: k in m ==> m[k] in s && m[k].key == k)
  }

  /** The number of buckets in all chains. */
  ghost function ChainLength<T>(cs: seq<seq<T>>): nat {
    if |cs| == 0 then 0 else ChainLength(cs[..|cs| - 1]) + |cs[|cs| - 1]|
  }

  lemma {:induction false} LengthUpdate<T>(cs: seq<seq<T>>, i: nat, c: seq<T>)
    requires i < |cs|
    ensures ChainLength(cs[i := c]) == ChainLength(cs) - |cs[i]| + |c|
  {
    var n := |cs| - 1;
    if i == n {
      assert cs[i := c][..n] == cs[..n];
    } else {
      LengthUpdate(cs[..n], i, c);
      assert cs[i := c][..n] == cs[..n][i := c];
    }
  }

  lemma {:induction false} LengthEmpty<T>(cs: seq<seq<T>>)
    requires forall i :: 0 <= i < |cs| ==> cs[i] == []
    ensures ChainLength(cs) == 0
  {
    if |cs| > 0 {
      LengthEmpty(cs[..|cs| - 1]);
    }
  }

  // ----- Adding buckets -----

  /** Puts `b` in front of chain `i`. */
  ghost function Push<T>(cs: seq<seq<T>>, i: nat, b: T): seq<seq<T>>
    requires i < |cs|
  {
    cs[i := [b] + cs[i]]
  }

  /** No bucket of `c` is in any of the chains `cs`. */
  ghost predicate Apart<T>(cs: seq<seq<T>>, c: seq<T>) {
    forall b :: b in c ==> b !in Members(cs)
  }

  lemma MembersPush<T>(cs: seq<seq<T>>, i: nat, b: T)
    requires i < |cs|
    ensures Members(Push(cs, i, b)) == Members(cs) + {b}
  {
    var cs' := Push(cs, i, b);
    assert cs'[i][0] == b;
    forall x: T | x in Members(cs)
      ensures x in Members(cs')
    {
      var y :| 0 <= y < |cs| && x in cs[y];
      assert x in cs'[y];
    }
  }

  lemma PushChained<K>(cs: seq<seq<Bucket<K>>>, slot: K -> nat, b: Bucket<K>)
    requires Chained(cs, slot) && slot(b.key) < |cs| && b !in Members(cs)
    ensures Chained(Push(cs, slot(b.key), b), slot)
  {
    var i := slot(b.key);
    var c := [b] + cs[i];
    assert NoDup(c) && forall x :: x in c ==> slot(x.key) == i;
  }

  /** Puts the buckets of `c`, in order, each in front of the chain of its slot. */
  ghost function PushAll<K>(cs: seq<seq<Bucket<K>>>, c: seq<Bucket<K>>, slot: K -> nat): (r: seq<seq<Bucket<K>>>)
    requires forall b :: b in c ==> slot(b.key) < |cs|
    ensures |r| == |cs|
    decreases |c|
  {
    if c == [] then cs else PushAll(Push(cs, slot(c[0].key), c[0]), c[1..], slot)
  }

  lemma {:induction false} PushAllChained<K>(cs: seq<seq<Bucket<K>>>, c: seq<Bucket<K>>, slot: K -> nat)
    requires forall b :: b in c ==> slot(b.key) < |cs|
    requires Chained(cs, slot) && NoDup(c) && Apart(cs, c)
    ensures var cs' := PushAll(cs, c, slot);
            && Chained(cs', slot)
            && Members(cs') == Members(cs) + Elems(c)
            && ChainLength(cs') == ChainLength(cs) + |c|
    decreases |c|
  {
    if c != [] {
      var i := slot(c[0].key);
      PushChained(cs, slot, c[0]);
      MembersPush(cs, i, c[0]);
      LengthUpdate(cs, i, [c[0]] + cs[i]);
      PushAllChained(Push(cs, i, c[0]), c[1..], slot);
      assert Elems(c) == {c[0]} + Elems(c[1..]);
    }
  }

  /** Moves all chains `from` over to the chains `cs`, slot by slot. */
  ghost function Rehashed<K(!new)>(cs: seq<seq<Bucket<K>>>, from: seq<seq<Bucket<K>>>, slot: K -> nat): (r: seq<seq<Bucket<K>>>)
    requires forall k :: slot(k) < |cs|
    ensures |r| == |cs|
    decreases |from|
  {
    if from == [] then cs else Rehashed(PushAll(cs, from[0], slot), from[1..], slot)
  }

  /** Chains that share no bucket with each other or with `cs`. */
  ghost predicate Separate<T>(cs: seq<seq<T>>, from: seq<seq<T>>) {
    && (forall i :: 0 <= i < |from| ==> NoDup(from[i]) && Apart(cs, from[i]))
    && (forall i, j, b :: 0 <= i < j < |from| && b in from[i] ==> b !in from[j])
  }

  lemma SeparateRest<T>(cs: seq<seq<T>>, from: seq<seq<T>>, cs1: seq<seq<T>>)
    requires Separate(cs, from) && |from| > 0
    requires Members(cs1) == Members(cs) + Elems(from[0])
    ensures Separate(cs1, from[1..])
    ensures Members(from) == Elems(from[0]) + Members(from[1..])
    ensures Elems(from[0]) !! Members(from[1..])
  {
    var rest := from[1..];
    assert forall i :: 0 <= i < |rest| ==> rest[i] == from[i + 1];
    forall b: T | b in Members(from)
      ensures b in Elems(from[0]) + Members(rest)
    {
      var i :| 0 <= i < |from| && b in from[i];
      if i > 0 {
        assert b in rest[i - 1];
      }
    }
  }

  /** Rehashing keeps every bucket, puts it in its new slot, and keeps their number. */
  lemma {:induction false} RehashedChained<K(!new)>(cs: seq<seq<Bucket<K>>>, from: seq<seq<Bucket<K>>>, slot: K -> nat)
    requires forall k :: slot(k) < |cs|
    requires Chained(cs, slot) && Separate(cs, from)
    ensures var cs' := Rehashed(cs, from, slot);
            && Chained(cs', slot)
            && Members(cs') == Members(cs) + Members(from)
            && ChainLength(cs') == ChainLength(cs) + ChainLength(from)
    decreases |from|
  {
    if from == [] {
      assert Members(from) == {};
    } else {
      var cs1, rest := PushAll(cs, from[0], slot), from[1..];
      PushAllChained(cs, from[0], slot);
      SeparateRest(cs, from, cs1);
      RehashedChained(cs1, rest, slot);
      LengthFront(from);
    }
  }

  lemma {:induction false} LengthFront<T>(cs: seq<seq<T>>)
    requires |cs| > 0
    ensures ChainLength(cs) == |cs[0]| + ChainLength(cs[1..])
  {
    var n := |cs| - 1;
    if n > 0 {
      LengthFront(cs[..n]);
      assert cs[..n][1..] == cs[1..][..n - 1];
    }
  }

  // ----- Listing all buckets -----

  ghost function Flat<T>(cs: seq<seq<T>>): (s: seq<T>)
    ensures |s| == ChainLength(cs)
  {
    if |cs| == 0 then [] else Flat(cs[..|cs| - 1]) + cs[|cs| - 1]
  }

  lemma {:induction false} DistinctElems<T>(s: seq<T>)
    requires NoDup(s)
    ensures |Elems(s)| == |s|
  {
    if |s| > 0 {
      var n := |s| - 1;
      DistinctElems(s[..n]);
      assert Elems(s) == Elems(s[..n]) + {s[n]};
    }
  }

  /** The listing of properly chained buckets names each of them once. */
  lemma {:induction false} FlatLists<K>(cs: seq<seq<Bucket<K>>>, slot: K -> nat)
    requires Chained(cs, slot)
    ensures Elems(Flat(cs)) == Members(cs) && NoDup(Flat(cs))
  {
    if |cs| > 0 {
      var n := |cs| - 1;
      var front, c := cs[..n], cs[n];
      FlatLists(front, slot);
      FlatSlots(front, slot);
      NoDupConcat(Flat(front), c, slot, n);
      MembersLast(cs);
      assert Elems(Flat(cs)) == Elems(Flat(front)) + Elems(c);
    } else {
      assert Elems(Flat(cs)) == {} == Members(cs);
    }
  }

  lemma NoDupConcat<K>(s: seq<Bucket<K>>, t: seq<Bucket<K>>, slot: K -> nat, n: nat)
    requires NoDup(s) && NoDup(t)
    requires forall b :: b in s ==> slot(b.key) < n
    requires forall b :: b in t ==> slot(b.key) == n
    ensures NoDup(s + t)
  {
    forall i, j | 0 <= i < j < |s + t|
      ensures (s + t)[i] != (s + t)[j]
    {
      assert i < |s| ==> s[i] in s;
      assert j >= |s| ==> t[j - |s|] in t;
    }
  }

  lemma FlatSlots<K>(cs: seq<seq<Bucket<K>>>, slot: K -> nat)
    requires Chained(cs, slot) && Elems(Flat(cs)) == Members(cs)
    ensures forall b :: b in Flat(cs) ==> slot(b.key) < |cs|
  {
    forall b | b in Flat(cs)
      ensures slot(b.key) < |cs|
    {
      assert b in Members(cs);
    }
  }

  lemma MembersLast<T>(cs: seq<seq<T>>)
    requires |cs| > 0
    ensures Members(cs) == Members(cs[..|cs| - 1]) + Elems(cs[|cs| - 1])
  {
    var n := |cs| - 1;
    forall b: T | b in Members(cs)
      ensures b in Members(cs[..n]) + Elems(cs[n])
    {
      var i :| 0 <= i < |cs| && b in cs[i];
      if i < n {
        assert b in cs[..n][i];
      }
    }
    forall b: T | b in Members(cs[..n])
      ensures b in Members(cs)
    {
      var i :| 0 <= i < n && b in cs[..n][i];
      assert b in cs[i];
    }
  }

  /** The number of chained buckets is the number of keys. */
  lemma CountKeys<K>(cs: seq<seq<Bucket<K>>>, slot: K -> nat, m: map<K, Bucket<K>>)
    requires Chained(cs, slot) && Keyed(Members(cs), m)
    ensures ChainLength(cs) == |Members(cs)| == |m|
  {
    FlatLists(cs, slot);
    DistinctElems(Flat(cs));
    KeyedSize(Members(cs), m);
  }

  lemma {:induction false} KeyedSize<K>(s: set<Bucket<K>>, m: map<K, Bucket<K>>)
    requires Keyed(s, m)
    ensures |s| == |m|
    decreases |s|
  {
    if s == {} {
      assert m.Keys == {};
    } else {
      var b :| b in s;
      var m' := m - {b.key};
      assert m'.Keys == m.Keys - {b.key};
      KeyedSize(s - {b}, m');
    }
  }

  // ----- Removing buckets -----

  ghost function Filter<T>(c: seq<T>, p: T -> bool): (r: seq<T>)
    ensures |r| <= |c|
    ensures forall b :: b in r ==> b in c && p(b)
  {
    if |c| == 0 then [] else if p(c[0]) then [c[0]] + Filter(c[1..], p) else Filter(c[1..], p)
  }

  lemma {:induction false} FilterKeeps<T>(c: seq<T>, p: T -> bool)
    ensures Elems(Filter(c, p)) == set b | b in c && p(b)
    ensures NoDup(c) ==> NoDup(Filter(c, p))
  {
    if |c| > 0 {
      FilterKeeps(c[1..], p);
    }
  }

  /** The chains with the first `n` of them filtered. */
  ghost function FilterUpTo<T>(cs: seq<seq<T>>, n: nat, p: T -> bool): (r: seq<seq<T>>)
    requires n <= |cs|
    ensures |r| == |cs|
    ensures forall i :: 0 <= i < n ==> r[i] == Filter(cs[i], p)
    ensures forall i :: n <= i < |cs| ==> r[i] == cs[i]
  {
    seq(|cs|, i requires 0 <= i < |cs| => if i < n then Filter(cs[i], p) else cs[i])
  }

  lemma FilterStep<T>(cs: seq<seq<T>>, i: nat, p: T -> bool)
    requires i < |cs|
    ensures FilterUpTo(cs, i, p)[i := Filter(cs[i], p)] == FilterUpTo(cs, i + 1, p)
  {
  }

  /** Filtering all chains keeps exactly the buckets that pass, in their chains. */
  lemma FilterChained<K>(cs: seq<seq<Bucket<K>>>, slot: K -> nat, p: Bucket<K> -> bool)
    requires Chained(cs, slot)
    ensures Chained(FilterUpTo(cs, |cs|, p), slot)
    ensures Members(FilterUpTo(cs, |cs|, p)) == set b | b in Members(cs) && p(b)
  {
    var r := FilterUpTo(cs, |cs|, p);
    forall i | 0 <= i < |cs|
      ensures NoDup(r[i]) && Elems(r[i]) == set b | b in cs[i] && p(b)
    {
      FilterKeeps(cs[i], p);
    }
    forall b | b in Members(cs) && p(b)
      ensures b in Members(r)
    {
      var i :| 0 <= i < |cs| && b in cs[i];
      assert b in Elems(r[i]);
    }
    forall b | b in Members(r)
      ensures b in Members(cs) && p(b)
    {
      var i :| 0 <= i < |cs| && b in r[i];
      assert b in Elems(r[i]);
    }
  }

  /** The other chains share no bucket with chain `i`. */
  lemma OthersApart<K>(cs: seq<seq<Bucket<K>>>, i: nat, slot: K -> nat)
    requires i < |cs| && Chained(cs, slot)
    ensures Members(cs[i := []]) !! Elems(cs[i])
    ensures Members(cs[i := []]) + Elems(cs[i]) == Members(cs)
  {
    var others := cs[i := []];
    forall b | b in Members(others)
      ensures b !in cs[i] && b in Members(cs)
    {
      var x :| 0 <= x < |others| && b in others[x];
      assert x != i && b in cs[x];
    }
    forall b | b in Members(cs)
      ensures b in Members(others) + Elems(cs[i])
    {
      var x :| 0 <= x < |cs| && b in cs[x];
      assert x != i ==> b in others[x];
    }
  }

  lemma FilterOneChained<K>(cs: seq<seq<Bucket<K>>>, i: nat, slot: K -> nat, p: Bucket<K> -> bool)
    requires i < |cs| && Chained(cs, slot)
    ensures Chained(cs[i := Filter(cs[i], p)], slot)
    ensures ChainLength(cs[i := Filter(cs[i], p)]) == ChainLength(cs) - |cs[i]| + |Filter(cs[i], p)|
  {
    FilterKeeps(cs[i], p);
    LengthUpdate(cs, i, Filter(cs[i], p));
  }
}
