/** Which addresses are local (acct.c, addr.c, localip.c): network masks and the registered networks. */
module LocalNets {
  import opened Addrs

  /** Bit `k` of a byte, the most significant first. */
  predicate ByteBit(b: bv8, k: nat)
    requires k < 8
  {
    if k == 0 then b & 0x80 != 0 else if k == 1 then b & 0x40 != 0
    else if k == 2 then b & 0x20 != 0 else if k == 3 then b & 0x10 != 0
    else if k == 4 then b & 0x08 != 0 else if k == 5 then b & 0x04 != 0
    else if k == 6 then b & 0x02 != 0 else b & 0x01 != 0
  }

  predicate Bit(s: seq<bv8>, i: nat)
    requires i < 8 * |s|
  {
    ByteBit(s[i / 8], i % 8)
  }

  /** The first `p` bits of two addresses agree. */
  ghost predicate SamePrefix(a: seq<bv8>, b: seq<bv8>, p: nat)
    requires |a| == |b| && p <= 8 * |a|
  {
    forall i :: 0 <= i < p ==> Bit(a, i) == Bit(b, i)
  }

  /** The byte that a shift leaves for the last `r` bits of a prefix. */
  function Frac(r: nat): bv8
    requires r < 8
  {
    ((0xff as bv16 << (8 - r)) & 0xff) as bv8
  }

  lemma FracValues()
    ensures Frac(0) == 0 && Frac(1) == 0x80 && Frac(2) == 0xC0 && Frac(3) == 0xE0
    ensures Frac(4) == 0xF0 && Frac(5) == 0xF8 && Frac(6) == 0xFC && Frac(7) == 0xFE
  {
  }

  /** The part of the byte at `j` that a prefix of `p` bits covers. */
  function MaskByte(p: nat, j: nat): bv8 {
    if j < p / 8 then 0xff else if j == p / 8 then Frac(p % 8) else 0
  }

  function Mask(n: nat, p: nat): (m: seq<bv8>)
    ensures |m| == n
  {
    seq(n, j requires 0 <= j < n => MaskByte(p, j))
  }

  function And(a: seq<bv8>, m: seq<bv8>): (r: seq<bv8>)
    requires |a| == |m|
    ensures |r| == |a|
  {
    seq(|a|, j requires 0 <= j < |a| => a[j] & m[j])
  }

  /** Two bytes are the same where the mask looks. */
  predicate Matched(a: bv8, b: bv8, m: bv8) {
    a & m == b & m
  }

  lemma ByteAgrees(a: bv8, b: bv8)
    ensures Matched(a, b, 0)
    ensures Matched(a, b, 0x80) <==> ByteBit(a, 0) == ByteBit(b, 0)
    ensures Matched(a, b, 0xC0) <==> Matched(a, b, 0x80) && ByteBit(a, 1) == ByteBit(b, 1)
    ensures Matched(a, b, 0xE0) <==> Matched(a, b, 0xC0) && ByteBit(a, 2) == ByteBit(b, 2)
    ensures Matched(a, b, 0xF0) <==> Matched(a, b, 0xE0) && ByteBit(a, 3) == ByteBit(b, 3)
    ensures Matched(a, b, 0xF8) <==> Matched(a, b, 0xF0) && ByteBit(a, 4) == ByteBit(b, 4)
    ensures Matched(a, b, 0xFC) <==> Matched(a, b, 0xF8) && ByteBit(a, 5) == ByteBit(b, 5)
    ensures Matched(a, b, 0xFE) <==> Matched(a, b, 0xFC) && ByteBit(a, 6) == ByteBit(b, 6)
    ensures Matched(a, b, 0xFF) <==> Matched(a, b, 0xFE) && ByteBit(a, 7) == ByteBit(b, 7)
  {
    MaskBits(a, b);
  }

  /** Bit by bit from the left. */
  lemma MaskBits(a: bv8, b: bv8)
    ensures a & 0x80 == b & 0x80 <==> ((a & 0x80 != 0) == (b & 0x80 != 0))
    ensures a & 0xC0 == b & 0xC0 <==> a & 0x80 == b & 0x80 && ((a & 0x40 != 0) == (b & 0x40 != 0))
    ensures a & 0xE0 == b & 0xE0 <==> a & 0xC0 == b & 0xC0 && ((a & 0x20 != 0) == (b & 0x20 != 0))
    ensures a & 0xF0 == b & 0xF0 <==> a & 0xE0 == b & 0xE0 && ((a & 0x10 != 0) == (b & 0x10 != 0))
    ensures a & 0xF8 == b & 0xF8 <==> a & 0xF0 == b & 0xF0 && ((a & 0x08 != 0) == (b & 0x08 != 0))
    ensures a & 0xFC == b & 0xFC <==> a & 0xF8 == b & 0xF8 && ((a & 0x04 != 0) == (b & 0x04 != 0))
    ensures a & 0xFE == b & 0xFE <==> a & 0xFC == b & 0xFC && ((a & 0x02 != 0) == (b & 0x02 != 0))
    ensures a & 0xFF == b & 0xFF <==> a & 0xFE == b & 0xFE && ((a & 0x01 != 0) == (b & 0x01 != 0))
  {
  }

  /** One more bit of the prefix is one more bit that has to agree. */
  lemma FracStep(a: bv8, b: bv8, r: nat)
    requires r < 8
    ensures Matched(a, b, if r == 7 then 0xFF else Frac(r + 1))
            <==> Matched(a, b, Frac(r)) && ByteBit(a, r) == ByteBit(b, r)
  {
    hide Frac, ByteBit, Matched;
    FracValues();
    ByteAgrees(a, b);
  }

  ghost predicate AllMatched(a: seq<bv8>, b: seq<bv8>, m: seq<bv8>)
    requires |a| == |b| == |m|
  {
    forall j :: 0 <= j < |a| ==> Matched(a[j], b[j], m[j])
  }

  lemma MatchedAnd(a: seq<bv8>, b: seq<bv8>, m: seq<bv8>)
    requires |a| == |b| == |m|
    ensures And(a, m) == And(b, m) <==> AllMatched(a, b, m)
  {
    var x, y := And(a, m), And(b, m);
    if x == y {
      forall j | 0 <= j < |a|
        ensures Matched(a[j], b[j], m[j])
      {
        assert x[j] == y[j];
      }
    }
  }

  lemma MaskNone(a: seq<bv8>, b: seq<bv8>)
    requires |a| == |b|
    ensures AllMatched(a, b, Mask(|a|, 0))
  {
    hide Frac, ByteBit, Matched;
    FracValues();
    forall j | 0 <= j < |a|
      ensures Matched(a[j], b[j], Mask(|a|, 0)[j])
    {
      ByteAgrees(a[j], b[j]);
    }
  }

  /** Only one byte of the mask changes when the prefix grows by one bit. */
  lemma MaskStep(p: nat, j: nat)
    ensures MaskByte(p + 1, j) ==
            if j != p / 8 then MaskByte(p, j) else if p % 8 == 7 then 0xff else Frac(p % 8 + 1)
  {
    hide Frac;
    FracValues();
  }

  lemma MaskHere(p: nat)
    ensures MaskByte(p, p / 8) == Frac(p % 8)
  {
    hide Frac;
  }

  lemma MaskGrows(a: seq<bv8>, b: seq<bv8>, p: nat)
    requires |a| == |b| && p < 8 * |a|
    ensures AllMatched(a, b, Mask(|a|, p + 1)) <==> AllMatched(a, b, Mask(|a|, p)) && Bit(a, p) == Bit(b, p)
  {
    hide Frac, ByteBit, MaskByte, Matched;
    var n, d := |a|, p / 8;
    var m0, m1 := Mask(n, p), Mask(n, p + 1);
    forall j | 0 <= j < n && j != d
      ensures m1[j] == m0[j]
    {
      MaskStep(p, j);
    }
    MaskStep(p, d);
    MaskHere(p);
    FracStep(a[d], b[d], p % 8);
  }

  /** The mask of `p` bits makes two addresses equal exactly when their first `p` bits agree. */
  lemma {:induction false} MaskIsPrefix(a: seq<bv8>, b: seq<bv8>, p: nat)
    requires |a| == |b| && p <= 8 * |a|
    ensures And(a, Mask(|a|, p)) == And(b, Mask(|a|, p)) <==> SamePrefix(a, b, p)
  {
    hide Mask, And, AllMatched, Bit;
    MatchedAnd(a, b, Mask(|a|, p));
    if p == 0 {
      MaskNone(a, b);
    } else {
      MaskIsPrefix(a, b, p - 1);
      MatchedAnd(a, b, Mask(|a|, p - 1));
      MaskGrows(a, b, p - 1);
      assert SamePrefix(a, b, p) <==> SamePrefix(a, b, p - 1) && Bit(a, p - 1) == Bit(b, p - 1);
    }
  }

  // ----- The code -----

  /** The loop that fills in the mask of a network given as a prefix length. */
  method BuildMask(n: nat, pfxlen: nat) returns (p: array<bv8>)
    requires pfxlen <= 8 * n
    ensures fresh(p) && p[..] == Mask(n, pfxlen)
  {
    hide Frac;
    FracValues();
    var octets, remainder := pfxlen / 8, pfxlen % 8;
    p := new bv8[n](_ => 0);
    var j := 0;
    while j < octets
      invariant j <= octets
      invariant forall k :: 0 <= k < n ==> p[k] == if k < j then 0xff else 0
    {
      p[j] := 0xff;
      j := j + 1;
    }
    var frac := Frac(remainder);
    if frac != 0 {
      p[j] := frac;
    }
    assert forall k :: 0 <= k < n ==> p[k] == MaskByte(pfxlen, k);
  }

  /** addr_mask(), in place */
  method AddrMask(a: array<bv8>, mask: seq<bv8>)
    requires a.Length == |mask|
    modifies a
    ensures a[..] == And(old(a[..]), mask)
  {
    for i := 0 to a.Length
      invariant forall k :: 0 <= k < a.Length ==> a[k] == if k < i then old(a[k]) & mask[k] else old(a[k])
    {
      a[i] := a[i] & mask[i];
    }
  }

  /** addr_inside(), which works on a copy */
  method AddrInside(a: Addr, net: Addr, mask: seq<bv8>) returns (r: bool)
    requires a.family == net.family && |mask| == |a.bytes|
    ensures r <==> And(a.bytes, mask) == net.bytes
  {
    var masked := new bv8[|a.bytes|](i requires 0 <= i < |a.bytes| => a.bytes[i]);
    assert masked[..] == a.bytes;
    AddrMask(masked, mask);
    r := masked[..] == net.bytes;
  }

  /** A network as it was given on the command line: with the length of its prefix, or with a mask written as an address. */
  datatype Spec = Prefix(addr: Addr, length: int) | Netmask(addr: Addr, mask: Addr)

  /** What the code accepts; it exits on anything else. */
  predicate Acceptable(w: Spec) {
    match w
    case Prefix(addr, length) => 0 <= length <= 8 * Width(addr.family)
    case Netmask(addr, mask) => addr.family == mask.family
  }

  function MaskOf(w: Spec): (m: seq<bv8>)
    requires Acceptable(w)
    ensures |m| == Width(w.addr.family)
  {
    match w
    case Prefix(addr, length) => Mask(Width(addr.family), length)
    case Netmask(_, mask) => mask.bytes
  }

  /** An address belongs to a network if it is of the same family and agrees with it where the mask looks. */
  ghost predicate Belongs(a: Addr, w: Spec)
    requires Acceptable(w)
  {
    a.family == w.addr.family && AllMatched(a.bytes, w.addr.bytes, MaskOf(w))
  }

  /** With a prefix length that means that the first bits agree. */
  lemma PrefixBelongs(a: Addr, w: Spec)
    requires w.Prefix? && Acceptable(w)
    ensures Belongs(a, w) <==> a.family == w.addr.family && SamePrefix(a.bytes, w.addr.bytes, w.length)
  {
    hide Mask, And, AllMatched, SamePrefix;
    if a.family == w.addr.family {
      MatchedAnd(a.bytes, w.addr.bytes, MaskOf(w));
      MaskIsPrefix(a.bytes, w.addr.bytes, w.length);
    }
  }

  class Locals {
    var nets4: seq<Addr>
    var masks4: seq<seq<bv8>>
    var nets6: seq<Addr>
    var masks6: seq<seq<bv8>>
    /** The networks behind the entries of either list. */
    ghost var given4: seq<Spec>
    ghost var given6: seq<Spec>

    static ghost predicate Registered(f: Family, nets: seq<Addr>, masks: seq<seq<bv8>>, given: seq<Spec>) {
      && |nets| == |masks| == |given|
      && forall i :: 0 <= i < |given| ==>
           && Acceptable(given[i]) && given[i].addr.family == f && nets[i].family == f
           && masks[i] == MaskOf(given[i]) && nets[i].bytes == And(given[i].addr.bytes, masks[i])
    }

    ghost predicate Valid()
      reads this
    {
      Registered(IPv4, nets4, masks4, given4) && Registered(IPv6, nets6, masks6, given6)
    }

    constructor ()
      ensures Valid() && given4 == [] && given6 == []
    {
      nets4, masks4, nets6, masks6, given4, given6 := [], [], [], [], [], [];
    }

    /** acct_init_localnet(), after parsing; refuses what the code exits on. */
    method InitLocalnet(w: Spec) returns (ok: bool)
      requires Valid()
      modifies this
      ensures Valid() && ok == Acceptable(w)
      ensures given4 == old(given4) + if ok && w.addr.family == IPv4 then [w] else []
      ensures given6 == old(given6) + if ok && w.addr.family == IPv6 then [w] else []
    {
      hide Mask, And;
      var mask;
      match w {
        case Netmask(addr, m) =>
          if m.family != addr.family {
            return false;
          }
          mask := m.bytes;
        case Prefix(addr, length) =>
          if length < 0 || (addr.family == IPv6 && length > 128) || (addr.family == IPv4 && length > 32) {
            return false;
          }
          var p := BuildMask(Width(addr.family), length);
          mask := p[..];
      }
      assert mask == MaskOf(w);
      var bytes := new bv8[|w.addr.bytes|](i requires 0 <= i < |w.addr.bytes| => w.addr.bytes[i]);
      assert bytes[..] == w.addr.bytes;
      AddrMask(bytes, mask);
      Register(w, Addr(w.addr.family, bytes[..]), mask);
      ok := true;
    }

    method Register(w: Spec, net: Addr, mask: seq<bv8>)
      requires Valid() && Acceptable(w) && mask == MaskOf(w)
      requires net.family == w.addr.family && net.bytes == And(w.addr.bytes, mask)
      modifies this
      ensures Valid()
      ensures given4 == old(given4) + if w.addr.family == IPv4 then [w] else []
      ensures given6 == old(given6) + if w.addr.family == IPv6 then [w] else []
    {
      hide Mask, And, MaskOf;
      if net.family == IPv6 {
        nets6, masks6, given6 := nets6 + [net], masks6 + [mask], given6 + [w];
      } else {
        nets4, masks4, given4 := nets4 + [net], masks4 + [mask], given4 + [w];
      }
    }

    static method InsideAny(a: Addr, nets: seq<Addr>, masks: seq<seq<bv8>>, ghost given: seq<Spec>) returns (r: bool)
      requires Registered(a.family, nets, masks, given)
      ensures r <==> exists i :: 0 <= i < |given| && Belongs(a, given[i])
    {
      hide Mask, MaskOf, And, AllMatched;
      for i := 0 to |nets|
        invariant forall k :: 0 <= k < i ==> !Belongs(a, given[k])
      {
        var inside := AddrInside(a, nets[i], masks[i]);
        MatchedAnd(a.bytes, given[i].addr.bytes, masks[i]);
        if inside {
          return true;
        }
      }
      r := false;
    }

    static method IsLocalip(a: Addr, ips: seq<Addr>) returns (r: bool)
      ensures r <==> a in ips
    {
      for i := 0 to |ips|
        invariant a !in ips[..i]
      {
        if a == ips[i] {
          return true;
        }
      }
      r := false;
    }

    /** addr_is_local(): an address of the interface, or one in a registered network of its family. */
    method AddrIsLocal(a: Addr, ips: seq<Addr>) returns (r: bool)
      requires Valid()
      ensures r <==> a in ips || (exists i :: 0 <= i < |given4| && Belongs(a, given4[i]))
                              || (exists i :: 0 <= i < |given6| && Belongs(a, given6[i]))
    {
      hide AllMatched, Mask, MaskOf, And;
      r := IsLocalip(a, ips);
      if r {
        return;
      }
      if a.family == IPv4 {
        r := InsideAny(a, nets4, masks4, given4);
      } else {
        r := InsideAny(a, nets6, masks6, given6);
      }
    }
  }
}
