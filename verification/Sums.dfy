/** Sums over the values of a map, and arithmetic that wraps round at 64 bits. */
module Sums {
  import opened Bytes

  ghost function Sum<K(!new), V>(m: map<K, V>, f: V -> nat): nat
    decreases |m|
  {
    if m == map[] then 0
    else
      var k :| k in m;
      f(m[k]) + Sum(m - {k}, f)
  }

  /** Any key may be taken out first. */
  lemma {:induction false} SumRemove<K(!new), V>(m: map<K, V>, f: V -> nat, k: K)
    requires k in m
    ensures Sum(m, f) == f(m[k]) + Sum(m - {k}, f)
    decreases |m|
  {
    var j :| j in m && Sum(m, f) == f(m[j]) + Sum(m - {j}, f);
    if j != k {
      SumRemove(m - {j}, f, k);
      SumRemove(m - {k}, f, j);
      assert (m - {j}) - {k} == (m - {k}) - {j};
    }
  }

  lemma SumUpdate<K(!new), V>(m: map<K, V>, f: V -> nat, k: K, v: V)
    ensures Sum(m[k := v], f) + (if k in m then f(m[k]) else 0) == Sum(m, f) + f(v)
  {
    SumRemove(m[k := v], f, k);
    if k in m {
      SumRemove(m, f, k);
      assert m[k := v] - {k} == m - {k};
    } else {
      assert m[k := v] - {k} == m;
    }
  }

  ghost predicate Within<K(!new), V>(a: map<K, V>, m: map<K, V>) {
    a.Keys <= m.Keys && forall k :: k in a ==> a[k] == m[k]
  }

  lemma WithinLess<K(!new), V>(a: map<K, V>, m: map<K, V>, k: K)
    requires Within(a, m) && k in a
    ensures k in m && Within(a - {k}, m - {k}) && (m - {k}) - (a - {k}).Keys == m - a.Keys && m[k] == a[k]
    ensures |a - {k}| < |a|
  {
    assert (a - {k}).Keys == a.Keys - {k};
  }

  lemma SumNone<K(!new), V>(m: map<K, V>, f: V -> nat)
    requires m == map[]
    ensures Sum(m, f) == 0
  {
  }

  /** A map falls into two parts, and so does its sum. */
  lemma {:induction false} SumSplit<K(!new), V>(m: map<K, V>, f: V -> nat, a: map<K, V>)
    requires Within(a, m)
    ensures Sum(m, f) == Sum(a, f) + Sum(m - a.Keys, f)
    decreases |a|
  {
    hide Sum, Within;
    if a == map[] {
      SumNone(a, f);
      assert m - a.Keys == m;
    } else {
      var k :| k in a;
      WithinLess(a, m, k);
      SumRemove(m, f, k);
      SumRemove(a, f, k);
      SumSplit(m - {k}, f, a - {k});
    }
  }

  /** Equal but for multiples of 2^64. */
  predicate Same64(x: int, y: int) {
    x % U64 == y % U64
  }

  lemma Same64Add(x: int, y: int, c: int)
    requires Same64(x, y)
    ensures Same64(x + c, y + c)
  {
  }
}
