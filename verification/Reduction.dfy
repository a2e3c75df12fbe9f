/** The reduction of a chained table, seen from the finite map it refines. */
module Reduction {
  import opened Buckets
  import Chains
  import HashTable
  import opened Collections
  import opened HostsDb

  ghost function Totals<K>(m: map<K, Bucket<K>>): map<K, nat>
    reads m.Values`total
  {
    map k | k in m :: m[k].total
  }

  function Same(n: nat): nat {
    n
  }

  lemma {:induction false} DistinctKeys<K>(s: set<Bucket<K>>, keys: set<K>)
    requires forall a, b :: a in s && b in s && a.key == b.key ==> a == b
    requires keys == set b | b in s :: b.key
    ensures |keys| == |s|
  {
    if s != {} {
      var b :| b in s;
      DistinctKeys(s - {b}, keys - {b.key});
      assert keys == (keys - {b.key}) + {b.key};
    }
  }

  /** As many keys as buckets reach a total. */
  lemma RivalsCount<K(!new)>(s: set<Bucket<K>>, m: map<K, Bucket<K>>, k: K)
    requires Chains.Keyed(s, m) && k in m
    ensures |Rivals(Totals(m), Same, k)| == |HashTable.AtLeast(s, m[k].total)|
  {
    var t := HashTable.AtLeast(s, m[k].total);
    var keys := set b | b in t :: b.key;
    forall j
      ensures j in Rivals(Totals(m), Same, k) <==> j in keys
    {
      if j in m && m[j].total >= m[k].total {
        assert m[j] in t;
      }
    }
    assert Rivals(Totals(m), Same, k) == keys;
    DistinctKeys(t, keys);
  }

  /** What the sort and the cutoff leave of a table is what reducing the map means: the cutoff does not show. */
  lemma CutoffIsTrim<K(!new)>(s: set<Bucket<K>>, m: map<K, Bucket<K>>, keep: nat, cutoff: nat)
    requires Chains.Keyed(s, m) && HashTable.IsCutoff(s, keep, cutoff)
    ensures HashTable.Kept(m, cutoff).Keys == Trim(Totals(m), Same, keep).Keys
  {
    forall k | k in m
      ensures m[k].total > cutoff <==> |Rivals(Totals(m), Same, k)| <= keep
    {
      RivalsCount(s, m, k);
      var t := HashTable.AtLeast(s, m[k].total);
      if m[k].total > cutoff {
        SubsetSize(t, HashTable.Above(s, cutoff));
      } else {
        SubsetSize(HashTable.AtLeast(s, cutoff), t);
      }
    }
  }
}
