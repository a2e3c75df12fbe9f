/** The compound IPv4/IPv6 address (addr.h, addr.c) and the order that the DNS tree keeps them in. */
module Addrs {
  import opened Bytes

  datatype Family = IPv4 | IPv6

  datatype RawAddr = Addr(family: Family, bytes: seq<bv8>)

  function Width(f: Family): nat {
    match f
    case IPv4 => 4
    case IPv6 => 16
  }

  /** An address in network order: four bytes for IPv4, sixteen for IPv6. */
  type Addr = a: RawAddr | |a.bytes| == Width(a.family) witness Addr(IPv4, [0, 0, 0, 0])

  /** The first differing byte decides, as with memcmp. */
  function MemCmp(a: seq<bv8>, b: seq<bv8>): int
    requires |a| == |b|
  {
    if |a| == 0 then 0 else if a[0] < b[0] then -1 else if a[0] > b[0] then 1 else MemCmp(a[1..], b[1..])
  }

  /** IPv4 sorts to the left of IPv6; within a family the bytes decide. */
  function TreeCmp(a: Addr, b: Addr): int {
    if a.family != b.family then (if a.family == IPv4 then -1 else 1) else MemCmp(a.bytes, b.bytes)
  }

  /** A number for every address, in the order of the tree. */
  function Code(a: Addr): nat {
    match a.family
    case IPv4 => Value(a.bytes)
    case IPv6 => Pow256(4) + Value(a.bytes)
  }

  lemma {:induction false} MemCmpLast(a: seq<bv8>, b: seq<bv8>, x: bv8, y: bv8)
    requires |a| == |b|
    ensures MemCmp(a + [x], b + [y]) ==
            if MemCmp(a, b) != 0 then MemCmp(a, b) else if x < y then -1 else if x > y then 1 else 0
  {
    if |a| == 0 {
      assert (a + [x])[0] == x && (b + [y])[0] == y && MemCmp((a + [x])[1..], (b + [y])[1..]) == 0;
    } else {
      MemCmpLast(a[1..], b[1..], x, y);
      assert (a + [x])[0] == a[0] && (b + [y])[0] == b[0];
      assert (a + [x])[1..] == a[1..] + [x] && (b + [y])[1..] == b[1..] + [y];
    }
  }

  lemma ByteOrder(a: bv8, b: bv8)
    ensures a < b <==> (a as int) < (b as int)
  {
  }

  /** Comparing bytes one by one is comparing the numbers they make. */
  lemma {:induction false} MemCmpValue(a: seq<bv8>, b: seq<bv8>)
    requires |a| == |b|
    ensures MemCmp(a, b) < 0 <==> Value(a) < Value(b)
    ensures MemCmp(a, b) > 0 <==> Value(a) > Value(b)
    ensures MemCmp(a, b) == 0 <==> a == b
  {
    if |a| > 0 {
      var n := |a| - 1;
      assert a == a[..n] + [a[n]] && b == b[..n] + [b[n]];
      MemCmpLast(a[..n], b[..n], a[n], b[n]);
      MemCmpValue(a[..n], b[..n]);
      ByteOrder(a[n], b[n]);
      ByteOrder(b[n], a[n]);
    }
  }

  /** The comparison of the tree is the order of the codes, and different addresses have different codes. */
  lemma TreeCmpIsCodeOrder(a: Addr, b: Addr)
    ensures TreeCmp(a, b) < 0 <==> Code(a) < Code(b)
    ensures TreeCmp(a, b) > 0 <==> Code(a) > Code(b)
    ensures Code(a) == Code(b) <==> a == b
  {
    ValueBound(a.bytes);
    ValueBound(b.bytes);
    if a.family == b.family {
      MemCmpValue(a.bytes, b.bytes);
    }
  }
}
