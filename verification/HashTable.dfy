/** The chained hash table of hosts_db.c, which refines a finite map from keys to buckets. */
module HashTable {
  import opened Buckets
  import opened Chains
  import opened Collections
  import HostsSort

  function Pow2(n: nat): (p: nat)
    ensures p >= 1
  {
    if n == 0 then 1 else 2 * Pow2(n - 1)
  }

  /** phi^-1, exactly as the constant is written down. */
  const PHI_1: real := 0.61803398874989490252573887119069695472717285156250

  /** The multiplier for a table of `u` slots. `u` is a power of two, so the product needs no rounding. */
  function Coprime(u: nat): (c: nat)
    ensures c % 2 == 1
  {
    var f := (u as real * PHI_1).Floor;
    if f % 2 == 1 then f else f + 1
  }

  /** The occupancy that `hashtable_insert` tests for before it grows the table. */
  predicate Crowded(count: nat, size: nat) {
    count > size || size - count < size / 5
  }

  /** Doubling the table is always enough: the grown table is not crowded. */
  lemma GrowthSuffices(bits: nat, count: nat, size: nat)
    requires bits > 0 && size == Pow2(bits) && count <= size - size / 5 + 1
    ensures !Crowded(count, Pow2(bits + 1))
  {
    assert Pow2(bits) == 2 * Pow2(bits - 1);
  }

  ghost function SlotOf<K(!new)>(hash: (K, nat) -> nat, coeff: nat, size: nat): (f: K -> nat)
    requires size > 0
    ensures forall k :: f(k) == hash(k, coeff) % size < size
  {
    (k: K) => hash(k, coeff) % size
  }

  /** What the fields of a table say about each other. */
  ghost predicate Shaped<K>(bits: nat, size: nat, coeff: nat, count: nat, slot: K -> nat,
                            chains: seq<seq<Bucket<K>>>, buckets: set<Bucket<K>>, m: map<K, Bucket<K>>) {
    && bits > 0 && size == Pow2(bits) && coeff % 2 == 1 && |chains| == size
    && Chained(chains, slot) && Members(chains) == buckets && Keyed(buckets, m)
    && count == ChainLength(chains) && count <= size - size / 5 + 1
  }

  lemma ShapedAnew<K>(bits: nat, size: nat, coeff: nat, count: nat, slot: K -> nat,
                      chains: seq<seq<Bucket<K>>>, buckets: set<Bucket<K>>, m: map<K, Bucket<K>>,
                      bits': nat, coeff': nat, slot': K -> nat, cs: seq<seq<Bucket<K>>>)
    requires Shaped(bits, size, coeff, count, slot, chains, buckets, m)
    requires bits' > 0 && coeff' % 2 == 1 && |cs| == Pow2(bits') && Chained(cs, slot')
    requires Members(cs) == Members(chains) && ChainLength(cs) == ChainLength(chains)
    requires count <= Pow2(bits') - Pow2(bits') / 5 + 1
    ensures Shaped(bits', Pow2(bits'), coeff', count, slot', cs, buckets, m)
  {
  }

  class Table<K(==, !new)> {
    const hash: (K, nat) -> nat
    const countMax: nat
    const countKeep: nat
    var bits: nat
    var size: nat
    var coeff: nat
    var count: nat
    var table: array<Bucket?<K>>
    /** The map that the table refines, its buckets, and the buckets of each slot in chain order. */
    ghost var m: map<K, Bucket<K>>
    ghost var buckets: set<Bucket<K>>
    ghost var chains: seq<seq<Bucket<K>>>

    /** The slot of a key under the current multiplier and size. */
    function Slot(k: K): nat
      requires size > 0
      reads this
    {
      hash(k, coeff) % size
    }

    ghost predicate Valid()
      reads this, table, buckets`next
    {
      && Shaped(bits, size, coeff, count, SlotOf(hash, coeff, Pow2(bits)), chains, buckets, m)
      && countKeep < countMax && Laid(table, chains)
    }

    constructor (bits: nat, countMax: nat, countKeep: nat, hash: (K, nat) -> nat)
      requires bits > 0 && countKeep < countMax
      ensures Valid() && m == map[] && fresh(table)
      ensures this.bits == bits && this.countMax == countMax && this.countKeep == countKeep && this.hash == hash
    {
      this.hash, this.countMax, this.countKeep := hash, countMax, countKeep;
      this.bits, size, coeff, count := bits, Pow2(bits), Coprime(Pow2(bits)), 0;
      table := new Bucket?<K>[Pow2(bits)](_ => null);
      m, buckets, chains := map[], {}, seq(Pow2(bits), _ => []);
      new;
      LengthEmpty(chains);
    }

    /** Returns the bucket of a key, or null if there is none. */
    method Search(key: K) returns (b: Bucket?<K>)
      requires Valid()
      ensures b == null <==> key !in m
      ensures b != null ==> b == m[key] && b in buckets
    {
      hide ChainLength, Pow2;
      var pos := Slot(key);
      ghost var c := chains[pos];
      ghost var j := 0;
      b := table[pos];
      assert key in m ==> m[key] in c by {
        if key in m {
          var i :| 0 <= i < size && m[key] in chains[i];
        }
      }
      while b != null
        invariant j <= |c| && b == if j < |c| then c[j] else null
        invariant forall x :: 0 <= x < j ==> c[x].key != key
        decreases |c| - j
      {
        if b.key == key {
          assert b in Members(chains);
          return;
        }
        b, j := b.next, j + 1;
      }
    }

    /** Puts one bucket in front of its chain. */
    static method PushBucket(b: Bucket<K>, to: array<Bucket?<K>>, pos: nat, ghost cs: seq<seq<Bucket<K>>>)
      requires pos < |cs| && Laid(to, cs) && b !in Members(cs)
      modifies to, b`next
      ensures Laid(to, Push(cs, pos, b))
    {
      b.next := to[pos];
      to[pos] := b;
    }

    /** Puts a bucket that is in no chain yet into its slot, or on top of the chain that is there. */
    static method PushTop(b: Bucket<K>, to: array<Bucket?<K>>, pos: nat, ghost cs: seq<seq<Bucket<K>>>)
      requires pos < to.Length && Laid(to, cs) && b !in Members(cs) && b.next == null
      modifies to, b`next
      ensures pos < |cs| && Laid(to, Push(cs, pos, b))
    {
      if to[pos] == null {
        to[pos] := b;
      } else {
        b.next := to[pos];
        to[pos] := b;
      }
    }

    /** Moves a whole chain of the old table, whose head is `first`, over to the new table. */
    static method MoveChain(hash: (K, nat) -> nat, coeff: nat, first: Bucket?<K>, to: array<Bucket?<K>>,
                            ghost c: seq<Bucket<K>>, ghost cs: seq<seq<Bucket<K>>>, ghost slot: K -> nat)
      requires |cs| > 0 && Laid(to, cs) && slot == SlotOf(hash, coeff, |cs|)
      requires first == Head(c) && Links(c) && NoDup(c) && Apart(cs, c)
      modifies to, c`next
      ensures Laid(to, PushAll(cs, c, slot))
    {
      var b := first;
      ghost var rest: seq<Bucket<K>>, cs': seq<seq<Bucket<K>>> := c, cs;
      while b != null
        invariant b == Head(rest) && Links(rest) && NoDup(rest)
        invariant forall x :: x in rest ==> x in c
        invariant |cs'| == |cs| && Laid(to, cs') && Apart(cs', rest)
        invariant PushAll(cs', rest, slot) == PushAll(cs, c, slot)
        decreases |rest|
      {
        var next := b.next;
        var pos := hash(b.key, coeff) % to.Length;
        assert b in c && b in rest;
        PushBucket(b, to, pos, cs');
        MembersPush<Bucket<K>>(cs', pos, b);
        cs' := Push<Bucket<K>>(cs', pos, b);
        rest := rest[1..];
        b := next;
      }
    }

    /** Moves all chains of the old table over to the new one. */
    static method MoveAll(hash: (K, nat) -> nat, coeff: nat, old_: array<Bucket?<K>>, to: array<Bucket?<K>>,
                          ghost from: seq<seq<Bucket<K>>>, ghost empty: seq<seq<Bucket<K>>>, ghost slot: K -> nat)
      requires old_ != to && |empty| > 0 && slot == SlotOf(hash, coeff, |empty|)
      requires Laid(old_, from) && Laid(to, empty) && Chained(empty, slot) && Separate(empty, from)
      modifies to, Members(from)`next
      ensures Laid(to, Rehashed(empty, from, slot))
    {
      hide Chained, Members, NoDup, PushAll;
      var i := 0;
      ghost var rest, cs := from, empty;
      while i < old_.Length
        invariant i <= old_.Length == |from| && rest == from[i..] && |cs| == |empty|
        invariant Laid(to, cs) && Chained(cs, slot) && Separate(cs, rest)
        invariant AllLinked(rest)
        invariant Rehashed(cs, rest, slot) == Rehashed(empty, from, slot)
      {
        ghost var c, tail := rest[0], rest[1..];
        assert c == from[i] && Links(c) && AllLinked(tail);
        PushAllChained(cs, c, slot);
        SeparateRest(cs, rest, PushAll(cs, c, slot));
        MoveChain(hash, coeff, old_[i], to, c, cs, slot);
        cs, rest := PushAll(cs, c, slot), tail;
        i := i + 1;
      }
    }

    /** Allocates a table of `size` slots and moves the old chains `from` into it. */
    static method Relay(hash: (K, nat) -> nat, coeff: nat, size: nat, old_: array<Bucket?<K>>,
                        ghost from: seq<seq<Bucket<K>>>, ghost slot0: K -> nat)
        returns (to: array<Bucket?<K>>, ghost cs: seq<seq<Bucket<K>>>)
      requires size > 0 && Laid(old_, from) && Chained(from, slot0)
      modifies Members(from)`next
      ensures fresh(to) && |cs| == size && Laid(to, cs) && Chained(cs, SlotOf(hash, coeff, size))
      ensures Members(cs) == Members(from) && ChainLength(cs) == ChainLength(from)
    {
      ghost var slot := SlotOf(hash, coeff, size);
      to := new Bucket?<K>[size](_ => null);
      ghost var empty: seq<seq<Bucket<K>>> := seq(size, _ => []);
      ChainedSeparate(empty, from, slot0);
      RehashedChained(empty, from, slot);
      LengthEmpty(empty);
      MoveAll(hash, coeff, old_, to, from, empty, slot);
      cs := Rehashed(empty, from, slot);
    }

    /** Rebuilds the table with `newBits` bits: the same map, the same bucket objects, new chains. */
    method Rehash(newBits: nat)
      requires Valid() && newBits > 0
      requires count <= Pow2(newBits) - Pow2(newBits) / 5 + 1
      modifies this, buckets`next
      ensures Valid() && fresh(table) && bits == newBits
      ensures m == old(m) && count == old(count) && buckets == old(buckets)
    {
      hide Keyed, Chained, Members, ChainLength, Laid, Coprime, Pow2, SlotOf;
      var newSize := Pow2(newBits);
      var newCoeff := Coprime(newSize);
      var to;
      ghost var cs;
      to, cs := Relay(hash, newCoeff, newSize, table, chains, SlotOf(hash, coeff, size));
      ShapedAnew(bits, size, coeff, count, SlotOf(hash, coeff, size), chains, buckets, m,
                 newBits, newCoeff, SlotOf(hash, newCoeff, newSize), cs);
      bits, size, coeff, table, chains := newBits, newSize, newCoeff, to, cs;
    }

    /** Adds a bucket under a new key to a table that is not crowded. */
    method InsertHere(b: Bucket<K>)
      requires Valid() && b.next == null && b.key !in m && !Crowded(count, size)
      modifies this, table, b`next
      ensures Valid() && table == old(table) && bits == old(bits)
      ensures m == old(m)[b.key := b] && buckets == old(buckets) + {b} && count == old(count) + 1
    {
      hide Keyed, Chained, ChainLength, Laid, Pow2, Members, Crowded;
      var pos := Slot(b.key);
      ShapedPush(bits, size, coeff, count, SlotOf(hash, coeff, size), chains, buckets, m, b);
      assert table.Length == size by { LaidLength(table, chains); }
      PushTop(b, table, pos, chains);
      chains, buckets, m := Push(chains, pos, b), buckets + {b}, m[b.key := b];
      count := count + 1;
    }

    /** Adds a bucket under a new key, growing the table first when it is crowded. */
    method Insert(b: Bucket<K>)
      requires Valid() && b.next == null && b.key !in m
      modifies this, table, buckets`next, b`next
      ensures Valid() && (table == old(table) || fresh(table))
      ensures m == old(m)[b.key := b] && buckets == old(buckets) + {b} && count == old(count) + 1
      ensures bits == old(bits) + if Crowded(old(count), old(size)) then 1 else 0
    {
      hide Chained, ChainLength, Laid, Pow2, Members;
      assert b !in buckets;
      if count > size || size - count < size / 5 {
        GrowthSuffices(bits, count, size);
        Rehash(bits + 1);
      }
      InsertHere(b);
    }

    /** Lists pointers to all buckets, in slot and chain order. */
    method ListBuckets() returns (list: seq<Bucket<K>>)
      requires Valid()
      ensures list == Flat(chains) && |list| == count
    {
      hide Chained, Keyed, Members, ChainLength, Pow2;
      list := [];
      var i := 0;
      assert Flat(chains[..0]) == [];
      while i < size
        invariant i <= size && list == Flat(chains[..i])
      {
        var b := table[i];
        ghost var j, c := 0, chains[i];
        while b != null
          invariant j <= |c| && b == if j < |c| then c[j] else null
          invariant list == Flat(chains[..i]) + c[..j]
          decreases |c| - j
        {
          list := list + [b];
          b, j := b.next, j + 1;
        }
        assert chains[..i + 1][..i] == chains[..i] && c[..j] == c;
        i := i + 1;
      }
      assert chains[..size] == chains;
    }

    /** Takes the first of the buckets in `rest` out of the chain `kept + rest`. */
    static method Unlink(t: array<Bucket?<K>>, i: nat, last: Bucket?<K>, next: Bucket?<K>,
                         ghost kept: seq<Bucket<K>>, ghost rest: seq<Bucket<K>>)
      requires i < t.Length && |rest| > 0 && next == rest[0].next
      requires t[i] == Head(kept + rest) && Links(kept + rest) && NoDup(kept + rest)
      requires last == if |kept| > 0 then kept[|kept| - 1] else null
      modifies t, (if last == null then {} else {last})`next
      ensures t[i] == Head(kept + rest[1..]) && Links(kept + rest[1..])
      ensures forall x :: 0 <= x < t.Length && x != i ==> t[x] == old(t[x])
    {
      ghost var c, c', n := kept + rest, kept + rest[1..], |kept|;
      assert c[n] == rest[0];
      if last == null {
        t[i] := next;
      } else {
        last.next := next;
      }
      forall y | 0 <= y < |c'|
        ensures c'[y].next == NextIn(c', y)
      {
        ghost var x := if y < n then y else y + 1;
        assert c'[y] == c[x] && old(c[x].next) == NextIn(c, x);
        assert y + 1 < |c'| ==> c'[y + 1] == if y + 1 < n then c[y + 1] else c[y + 2];
        assert x != n - 1 && n > 0 ==> c[x] != c[n - 1];
      }
    }

    /** Unlinks the buckets of one chain whose total does not exceed the cutoff. */
    static method PruneChain(t: array<Bucket?<K>>, i: nat, cutoff: nat, ghost c: seq<Bucket<K>>, ghost p: Bucket<K> -> bool)
        returns (removed: nat)
      requires i < t.Length && t[i] == Head(c) && Links(c) && NoDup(c)
      requires Decides(Elems(c), cutoff, p)
      modifies t, c`next
      ensures t[i] == Head(Filter(c, p)) && Links(Filter(c, p))
      ensures forall x :: 0 <= x < t.Length && x != i ==> t[x] == old(t[x])
      ensures removed == |c| - |Filter(c, p)|
    {
      hide Links, NoDup, Head, Filter;
      var last: Bucket?<K>, b := null, t[i];
      ghost var kept: seq<Bucket<K>>, rest: seq<Bucket<K>> := [], c;
      removed := 0;
      assert kept + rest == c;
      while b != null
        invariant kept + Filter(rest, p) == Filter(c, p) && b == Head(rest)
        invariant last == if |kept| > 0 then kept[|kept| - 1] else null
        invariant last != null ==> last in c
        invariant forall x :: x in rest ==> x in c
        invariant t[i] == Head(kept + rest) && Links(kept + rest) && NoDup(kept + rest)
        invariant forall x :: 0 <= x < t.Length && x != i ==> t[x] == old(t[x])
        invariant removed == |c| - |kept| - |rest|
        decreases |rest|
      {
        HeadOf(rest);
        NextAfter(kept, rest);
        FilterNext(kept, rest, p);
        assert rest[0] in Elems(c);
        var next := b.next;
        if b.total <= cutoff {
          Unlink(t, i, last, next, kept, rest);
          NoDupWithout(kept, rest);
          removed := removed + 1;
        } else {
          kept, last := kept + [b], b;
        }
        b, rest := next, rest[1..];
      }
      HeadOf(rest);
      FilterNone(kept, rest, p);
    }

    static method PruneSlot(t: array<Bucket?<K>>, i: nat, cutoff: nat, ghost cs: seq<seq<Bucket<K>>>,
                            ghost slot: K -> nat, ghost p: Bucket<K> -> bool)
        returns (removed: nat)
      requires i < |cs| && Laid(t, cs) && Chained(cs, slot)
      requires Decides(Elems(cs[i]), cutoff, p)
      modifies t, cs[i]`next
      ensures Laid(t, cs[i := Filter(cs[i], p)])
      ensures removed == |cs[i]| - |Filter(cs[i], p)|
    {
      ghost var others, rest := cs[i := []], Filter(cs[i], p);
      OthersApart(cs, i, slot);
      assert AllLinked(others) && Links(cs[i]) && NoDup(cs[i]);
      hide AllLinked, Links, Members, Chained, Filter, Elems, NoDup;
      removed := PruneChain(t, i, cutoff, cs[i], p);
      LinkedUpdate(others, i, rest);
      assert cs[i := rest] == others[i := rest];
    }

    /** Unlinks every bucket whose total does not exceed the cutoff. */
    static method PruneAll(t: array<Bucket?<K>>, cutoff: nat, ghost cs: seq<seq<Bucket<K>>>,
                           ghost slot: K -> nat, ghost p: Bucket<K> -> bool)
        returns (removed: nat)
      requires Laid(t, cs) && Chained(cs, slot)
      requires Decides(Members(cs), cutoff, p)
      modifies t, Members(cs)`next
      ensures Laid(t, FilterUpTo(cs, |cs|, p))
      ensures removed == ChainLength(cs) - ChainLength(FilterUpTo(cs, |cs|, p))
    {
      var i := 0;
      removed := 0;
      ghost var cs' := cs;
      assert FilterUpTo(cs, 0, p) == cs && t.Length == |cs|;
      hide Laid, Chained, ChainLength, Members, Filter, FilterUpTo;
      while i < t.Length
        invariant i <= t.Length == |cs| && cs' == FilterUpTo(cs, i, p)
        invariant Laid(t, cs') && Chained(cs', slot) && Decides(Members(cs), cutoff, p)
        invariant removed == ChainLength(cs) - ChainLength(cs')
      {
        assert cs'[i] == cs[i] && Elems(cs[i]) <= Members(cs);
        FilterOneChained(cs', i, slot, p);
        var n := PruneSlot(t, i, cutoff, cs', slot, p);
        removed := removed + n;
        FilterStep(cs, i, p);
        cs', i := cs'[i := Filter(cs[i], p)], i + 1;
      }
    }

    /** The total that at most `countKeep` buckets exceed, found by a partial sort. */
    method FindCutoff() returns (cutoff: nat)
      requires Valid() && countKeep < count < 0x8000_0000
      ensures IsCutoff(buckets, countKeep, cutoff)
    {
      hide Chained, Keyed, Members, ChainLength, Laid, Pow2, NoDup, Flat, IsCutoff;
      var list := ListBuckets();
      FlatLists(chains, SlotOf(hash, coeff, size));
      var a := new Bucket<K>[|list|](i requires 0 <= i < |list| => list[i]);
      assert a[..] == list;
      HostsSort.Sort(a, 0, countKeep, Total);
      NoDupPerm(list, a[..]);
      cutoff := a[countKeep].total;
      SortedCutoff(a[..], countKeep);
    }

    /**
     Reduces the table to the buckets whose total exceeds the cutoff. The survivors keep their
     identity and their counters, and lookups find exactly them.
     */
    method Reduce() returns (cutoff: nat)
      requires Valid() && countKeep < count < 0x8000_0000
      modifies this, table, buckets`next
      ensures Valid() && fresh(table) && bits == old(bits)
      ensures old(IsCutoff(buckets, countKeep, cutoff))
      ensures buckets == old(Above(buckets, cutoff)) && m == old(Kept(m, cutoff))
      ensures count <= countKeep
    {
      hide Chained, Members, ChainLength, Laid, Keyed, Pow2, Above, AtLeast, Kept;
      cutoff := FindCutoff();
      Prune(cutoff);
      SurvivorCount(bits, size, coeff, count, SlotOf(hash, coeff, size), chains, buckets, m);
      Rehash(bits);
    }

    /** Removes the buckets whose total does not exceed the cutoff. */
    method Prune(cutoff: nat)
      requires Valid()
      modifies this, table, buckets`next
      ensures Valid() && table == old(table) && bits == old(bits)
      ensures buckets == old(Above(buckets, cutoff)) && m == old(Kept(m, cutoff))
    {
      hide Chained, Members, ChainLength, Laid, Filter, FilterUpTo, Keyed, Pow2, Above, Kept, Decides, Passes;
      ghost var p := Passes(buckets, cutoff);
      ghost var slot := SlotOf(hash, coeff, size);
      ShapedFilter(bits, size, coeff, count, slot, chains, buckets, m, cutoff, p);
      ghost var buckets', m' := Above(buckets, cutoff), Kept(m, cutoff);
      var removed := PruneAll(table, cutoff, chains, slot, p);
      chains, buckets, m := FilterUpTo(chains, |chains|, p), buckets', m';
      count := count - removed;
    }

    /**
     Finds the bucket of a key, or makes one, reducing a full table first if that is allowed.
     Without a reduction every bucket that was there stays.
     */
    method FindOrInsert(key: K, allowReduce: bool) returns (b: Bucket<K>)
      requires Valid() && count < 0x8000_0000
      modifies this, table, buckets`next
      ensures Valid() && (table == old(table) || fresh(table))
      ensures key in m && m[key] == b && (b in old(buckets) || fresh(b))
      ensures key in old(m) ==> m == old(m) && b == old(m)[key]
      ensures key !in old(m) ==> fresh(b) && b.total == b.bytesIn == b.bytesOut == 0
      ensures key !in old(m) && !(allowReduce && old(count) >= countMax) ==>
                m == old(m)[key := b] && count == old(count) + 1
      ensures key !in old(m) && allowReduce && old(count) >= countMax ==>
                (exists cutoff :: old(IsCutoff(buckets, countKeep, cutoff)) && m == old(Kept(m, cutoff))[key := b])
      ensures allowReduce && old(count) <= countMax ==> count <= countMax
    {
      hide Chained, Keyed, Members, ChainLength, Laid, Pow2, IsCutoff;
      var found := Search(key);
      if found != null {
        b := found;
        return;
      }
      if allowReduce && count >= countMax {
        ghost var cutoff := Reduce();
      }
      b := new Bucket<K>(key);
      Insert(b);
    }

    /** Reduces the table when it has reached its maximum (hosts_db_reduce). */
    method ReduceIfFull()
      requires Valid() && count < 0x8000_0000
      modifies this, table, buckets`next
      ensures Valid() && (table == old(table) || fresh(table))
      ensures old(count) < countMax ==> m == old(m) && count == old(count)
      ensures old(count) >= countMax ==>
                (exists cutoff :: old(IsCutoff(buckets, countKeep, cutoff)) && m == old(Kept(m, cutoff)))
      ensures count < countMax
    {
      if count >= countMax {
        hide Chained, Keyed, Members, ChainLength, Laid, Pow2, IsCutoff;
        ghost var cutoff := Reduce();
      }
    }

    /** Empties the table but keeps its size. */
    method Reset()
      requires Valid()
      modifies this, table
      ensures Valid() && m == map[] && count == 0 && bits == old(bits)
    {
      var i := 0;
      while i < size
        invariant i <= size == table.Length
        invariant forall x :: 0 <= x < i ==> table[x] == null
        modifies table
      {
        table[i] := null;
        i := i + 1;
      }
      count := 0;
      m, buckets, chains := map[], {}, seq(size, _ => []);
      LengthEmpty(chains);
    }
  }

  ghost function Above<K>(s: set<Bucket<K>>, cutoff: nat): (r: set<Bucket<K>>)
    reads s`total
    ensures r <= s
  {
    set b | b in s && b.total > cutoff
  }

  ghost function AtLeast<K>(s: set<Bucket<K>>, cutoff: nat): set<Bucket<K>>
    reads s`total
  {
    set b | b in s && b.total >= cutoff
  }

  ghost function Kept<K>(m: map<K, Bucket<K>>, cutoff: nat): map<K, Bucket<K>>
    reads m.Values`total
  {
    map k | k in m && m[k].total > cutoff :: m[k]
  }

  /** At most `keep` buckets have a total above the cutoff, and more than `keep` reach it. */
  ghost predicate IsCutoff<K>(s: set<Bucket<K>>, keep: nat, cutoff: nat)
    reads s`total
  {
    |Above(s, cutoff)| <= keep < |AtLeast(s, cutoff)|
  }

  lemma ShapedFilter<K>(bits: nat, size: nat, coeff: nat, count: nat, slot: K -> nat, chains: seq<seq<Bucket<K>>>,
                        buckets: set<Bucket<K>>, m: map<K, Bucket<K>>, cutoff: nat, p: Bucket<K> -> bool)
    requires Shaped(bits, size, coeff, count, slot, chains, buckets, m)
    requires Decides(buckets, cutoff, p)
    ensures var cs := FilterUpTo(chains, |chains|, p);
            Shaped(bits, size, coeff, ChainLength(cs), slot, cs, Above(buckets, cutoff), Kept(m, cutoff))
  {
    FilterChained(chains, slot, p);
    LengthFiltered(chains, |chains|, p);
    assert (set b | b in Members(chains) && p(b)) == Above(buckets, cutoff);
  }

  lemma {:induction false} LengthFiltered<T>(cs: seq<seq<T>>, n: nat, p: T -> bool)
    requires n <= |cs|
    ensures ChainLength(FilterUpTo(cs, n, p)) <= ChainLength(cs)
  {
    if n == 0 {
      assert FilterUpTo(cs, 0, p) == cs;
    } else {
      LengthFiltered(cs, n - 1, p);
      FilterStep(cs, n - 1, p);
      LengthUpdate(FilterUpTo(cs, n - 1, p), n - 1, Filter(cs[n - 1], p));
    }
  }

  lemma SurvivorCount<K>(bits: nat, size: nat, coeff: nat, count: nat, slot: K -> nat,
                         chains: seq<seq<Bucket<K>>>, buckets: set<Bucket<K>>, m: map<K, Bucket<K>>)
    requires Shaped(bits, size, coeff, count, slot, chains, buckets, m)
    ensures count == |buckets| == |m|
  {
    CountKeys(chains, slot, m);
  }

  lemma SortedCutoff<K>(s: seq<Bucket<K>>, keep: nat)
    requires NoDup(s) && keep < |s|
    requires forall i :: 0 <= i < keep ==> s[i].total >= s[keep].total
    requires forall j :: keep < j < |s| ==> s[keep].total >= s[j].total
    ensures IsCutoff(Elems(s), keep, s[keep].total)
  {
    var all, cutoff := Elems(s), s[keep].total;
    DistinctElems(s[..keep]);
    DistinctElems(s[..keep + 1]);
    forall b | b in Above(all, cutoff)
      ensures b in Elems(s[..keep])
    {
      var i :| 0 <= i < |s| && s[i] == b;
      assert s[..keep][i] == b;
    }
    SubsetSize(Above(all, cutoff), Elems(s[..keep]));
    SubsetSize(Elems(s[..keep + 1]), AtLeast(all, cutoff));
  }

  lemma {:induction false} NoDupCount<T>(s: seq<T>, x: T)
    requires NoDup(s)
    ensures multiset(s)[x] <= 1
  {
    if |s| > 0 {
      var n := |s| - 1;
      NoDupCount(s[..n], x);
      assert s == s[..n] + [s[n]];
    }
  }

  lemma NoDupPerm<T>(s: seq<T>, t: seq<T>)
    requires NoDup(s) && multiset(s) == multiset(t)
    ensures NoDup(t) && Elems(t) == Elems(s)
  {
    forall i, j | 0 <= i < j < |t|
      ensures t[i] != t[j]
    {
      NoDupCount(s, t[i]);
      assert t == t[..j] + [t[j]] + t[j + 1..];
      assert t[i] in t[..j];
    }
    forall x: T
      ensures x in Elems(s) <==> x in Elems(t)
    {
      assert x in s <==> x in multiset(s);
      assert x in t <==> x in multiset(t);
    }
  }

  /** `p` tells which of the buckets have a total above the cutoff. */
  ghost predicate Decides<K>(s: set<Bucket<K>>, cutoff: nat, p: Bucket<K> -> bool)
    reads s`total
  {
    forall b :: b in s ==> (p(b) <==> b.total > cutoff)
  }

  ghost function Passes<K>(s: set<Bucket<K>>, cutoff: nat): (p: Bucket<K> -> bool)
    reads s`total
    ensures Decides(s, cutoff, p)
  {
    var totals := map b | b in s :: b.total;
    (b: Bucket<K>) => b in totals && totals[b] > cutoff
  }

  lemma LaidLength<K>(t: array<Bucket?<K>>, cs: seq<seq<Bucket<K>>>)
    requires Laid(t, cs)
    ensures t.Length == |cs|
  {
  }

  lemma LinkedUpdate<K>(cs: seq<seq<Bucket<K>>>, i: nat, c: seq<Bucket<K>>)
    requires i < |cs| && AllLinked(cs) && Links(c)
    ensures AllLinked(cs[i := c])
  {
  }

  lemma FilterNext<T>(kept: seq<T>, rest: seq<T>, p: T -> bool)
    requires |rest| > 0
    ensures kept + [rest[0]] + rest[1..] == kept + rest
    ensures p(rest[0]) ==> kept + Filter(rest, p) == kept + [rest[0]] + Filter(rest[1..], p)
    ensures !p(rest[0]) ==> Filter(rest, p) == Filter(rest[1..], p)
  {
    Regroup(kept, rest[0], rest[1..]);
    Regroup(kept, rest[0], Filter(rest[1..], p));
    assert [rest[0]] + rest[1..] == rest;
  }

  lemma Regroup<T>(s: seq<T>, x: T, t: seq<T>)
    ensures s + [x] + t == s + ([x] + t)
  {
  }

  lemma FilterNone<T>(kept: seq<T>, rest: seq<T>, p: T -> bool)
    requires rest == []
    ensures kept + rest == kept == kept + Filter(rest, p)
  {
  }

  lemma HeadOf<K>(c: seq<Bucket<K>>)
    ensures Head(c) == null <==> c == []
    ensures Head(c) != null ==> Head(c) == c[0]
  {
  }

  lemma NextAfter<K>(kept: seq<Bucket<K>>, rest: seq<Bucket<K>>)
    requires Links(kept + rest) && |rest| > 0
    ensures rest[0].next == Head(rest[1..])
  {
    var c := kept + rest;
    assert c[|kept|] == rest[0] && (|rest| > 1 ==> c[|kept| + 1] == rest[1]);
  }

  lemma NoDupWithout<T>(s: seq<T>, t: seq<T>)
    requires NoDup(s + t) && |t| > 0
    ensures NoDup(s + t[1..])
  {
    var c, c' := s + t, s + t[1..];
    forall i, j | 0 <= i < j < |c'|
      ensures c'[i] != c'[j]
    {
      assert c'[i] == c[if i < |s| then i else i + 1] && c'[j] == c[if j < |s| then j else j + 1];
    }
  }

  lemma ShapedPush<K>(bits: nat, size: nat, coeff: nat, count: nat, slot: K -> nat,
                      chains: seq<seq<Bucket<K>>>, buckets: set<Bucket<K>>, m: map<K, Bucket<K>>, b: Bucket<K>)
    requires Shaped(bits, size, coeff, count, slot, chains, buckets, m)
    requires b.key !in m && slot(b.key) < size && !Crowded(count, size)
    ensures b !in buckets
    ensures Shaped(bits, size, coeff, count + 1, slot, Push(chains, slot(b.key), b), buckets + {b}, m[b.key := b])
  {
    var i := slot(b.key);
    PushChained(chains, slot, b);
    MembersPush(chains, i, b);
    LengthUpdate(chains, i, [b] + chains[i]);
  }

  lemma ChainedSeparate<K>(empty: seq<seq<Bucket<K>>>, from: seq<seq<Bucket<K>>>, slot: K -> nat)
    requires Chained(from, slot) && forall i :: 0 <= i < |empty| ==> empty[i] == []
    ensures Separate(empty, from) && Members(empty) == {}
  {
  }
}
