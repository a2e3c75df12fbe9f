/** Packets written out from their headers, and what decoding makes of them. */
module Wire {
  import opened Bytes
  import opened Addrs
  import opened Decode

  /** What follows the IP header: a TCP or UDP header with the fields that matter named, or anything else. */
  datatype Transport =
    | TcpHeader(srcPort: nat, dstPort: nat, seqAckOffset: seq<bv8>, flags: bv8, rest: seq<bv8>)
    | UdpHeader(srcPort: nat, dstPort: nat, rest: seq<bv8>)
    | Data(bytes: seq<bv8>)

  /** An IP packet. The four low bits of the first byte and all fields that decoding does not read are arbitrary. */
  datatype Ip =
    | Ip4(src: Addr, dst: Addr, length: nat, low: bv8, tos: bv8, idFragTtl: seq<bv8>, proto: nat, checksum: seq<bv8>,
          payload: Transport)
    | Ip6(src: Addr, dst: Addr, length: nat, low: bv8, flow: seq<bv8>, proto: nat, hops: bv8, payload: Transport)

  predicate ValidTransport(proto: nat, t: Transport) {
    match t
    case TcpHeader(s, d, m, _, rest) => proto == 6 && s < 0x1_0000 && d < 0x1_0000 && |m| == 9 && |rest| >= 6
    case UdpHeader(s, d, rest) => proto == 17 && s < 0x1_0000 && d < 0x1_0000 && |rest| >= 4
    case Data(bytes) => (proto == 6 ==> |bytes| < 20) && (proto == 17 ==> |bytes| < 8)
  }

  predicate ValidIp(p: Ip) {
    && p.length < 0x1_0000 && p.low < 16 && p.proto < 256 && ValidTransport(p.proto, p.payload)
    && match p
       case Ip4(s, d, _, _, _, m, _, c, _) => s.family == IPv4 && d.family == IPv4 && |m| == 5 && |c| == 2
       case Ip6(s, d, _, _, f, _, _, _) => s.family == IPv6 && d.family == IPv6 && |f| == 3
  }

  /** A number of sixteen bits in network order. */
  function Two(n: nat): (s: seq<bv8>)
    requires n < 0x1_0000
    ensures |s| == 2
  {
    Powers();
    Be(2, n)
  }

  function TransportBytes(t: Transport): seq<bv8>
    requires exists p :: ValidTransport(p, t)
  {
    match t
    case TcpHeader(s, d, m, flags, rest) => Two(s) + Two(d) + m + [flags] + rest
    case UdpHeader(s, d, rest) => Two(s) + Two(d) + rest
    case Data(bytes) => bytes
  }

  function IpBytes(p: Ip): seq<bv8>
    requires ValidIp(p)
  {
    match p
    case Ip4(s, d, len, low, tos, m, proto, c, t) =>
      [0x40 | low, tos] + Two(len) + m + [ByteOf(proto)] + c + s.bytes + d.bytes + TransportBytes(t)
    case Ip6(s, d, len, low, f, proto, hops, t) =>
      [0x60 | low] + f + Two(len) + [ByteOf(proto), hops] + s.bytes + d.bytes + TransportBytes(t)
  }

  /** The summary of the packet: its ends, its length, its protocol, and for TCP and UDP its ports and flags. */
  function Summary(p: Ip, sm: Packet): Packet {
    var len := match p case Ip4(_, _, n, _, _, _, _, _, _) => n case Ip6(_, _, n, _, _, _, _, _) => (n + 40) % 0x1_0000;
    var s := sm.(src := p.src, dst := p.dst, len := len, proto := p.proto);
    match p.payload
    case TcpHeader(sp, dp, _, flags, _) => s.(srcPort := sp, dstPort := dp, tcpFlags := flags as nat % 64)
    case UdpHeader(sp, dp, _) => s.(srcPort := sp, dstPort := dp)
    case Data(_) => if p.proto == 6 || p.proto == 17 then s.(proto := 254) else s
  }

  lemma TwoAt(a: seq<bv8>, n: nat, b: seq<bv8>)
    requires n < 0x1_0000
    ensures Short(a + Two(n) + b, |a|) == n
  {
    var t := Two(n);
    assert Value(t) == n;
    assert t[..1] == [t[0]] && Value(t[..1]) == 256 * Value(t[..1][..0]) + t[0] as nat;
    var d := a + t + b;
    assert d[|a|] == t[0] && d[|a| + 1] == t[1];
  }

  lemma Flags(b: bv8)
    ensures (b & 0x3f) as nat == b as nat % 64
  {
  }

  lemma TransportDecoded(t: Transport, sm: Packet)
    requires ValidTransport(sm.proto, t)
    ensures Ports(TransportBytes(t), sm) ==
            match t
            case TcpHeader(sp, dp, _, flags, _) => sm.(srcPort := sp, dstPort := dp, tcpFlags := flags as nat % 64)
            case UdpHeader(sp, dp, _) => sm.(srcPort := sp, dstPort := dp)
            case Data(_) => if sm.proto == 6 || sm.proto == 17 then sm.(proto := 254) else sm
  {
    hide Short, Two;
    var d := TransportBytes(t);
    match t
    case TcpHeader(sp, dp, m, flags, rest) =>
      assert d == [] + Two(sp) + (Two(dp) + m + [flags] + rest) == Two(sp) + Two(dp) + (m + [flags] + rest);
      TwoAt([], sp, Two(dp) + m + [flags] + rest);
      TwoAt(Two(sp), dp, m + [flags] + rest);
      assert d[13] == flags;
      Flags(flags);
    case UdpHeader(sp, dp, rest) =>
      assert d == [] + Two(sp) + (Two(dp) + rest) == Two(sp) + Two(dp) + rest;
      TwoAt([], sp, Two(dp) + rest);
      TwoAt(Two(sp), dp, rest);
    case Data(_) =>
  }

  lemma Versions(low: bv8)
    requires low < 16
    ensures (0x40 | low) >> 4 == 4 && (0x60 | low) >> 4 == 6 && (0x60 | low) & 0xF0 == 0x60
  {
  }

  lemma Ip4Fields(p: Ip)
    requires p.Ip4? && ValidIp(p)
    ensures var d := IpBytes(p);
            && |d| >= 20 && d[0] == 0x40 | p.low && d[9] == ByteOf(p.proto) && Short(d, 2) == p.length
            && d[12..16] == p.src.bytes && d[16..20] == p.dst.bytes && d[20..] == TransportBytes(p.payload)
  {
    hide Short, Two, TransportBytes, ByteOf;
    var d, t := IpBytes(p), TransportBytes(p.payload);
    var head := [0x40 | p.low, p.tos];
    var mid := p.idFragTtl + [ByteOf(p.proto)] + p.checksum;
    var pre := head + Two(p.length) + mid;
    assert d == pre + p.src.bytes + p.dst.bytes + t;
    assert pre[0] == 0x40 | p.low && pre[9] == ByteOf(p.proto);
    Pieces(pre, p.src.bytes, p.dst.bytes, t);
    TwoAt(head, p.length, mid);
    SameShort(d, 2, pre, 2);
  }

  lemma Pieces(pre: seq<bv8>, a: seq<bv8>, b: seq<bv8>, t: seq<bv8>)
    ensures var d, i, j := pre + a + b + t, |pre| + |a|, |pre| + |a| + |b|;
            d[..|pre|] == pre && d[|pre|..i] == a && d[i..j] == b && d[j..] == t
    ensures forall k :: 0 <= k < |pre| ==> (pre + a + b + t)[k] == pre[k]
  {
  }

  lemma Ip4Decoded(p: Ip, sm: Packet)
    requires p.Ip4? && ValidIp(p)
    ensures HelperIp(IpBytes(p), sm) == Decoded(true, Summary(p, sm))
  {
    hide Short, Two, Ports, TransportBytes, ByteOf, IpBytes;
    Ip4Fields(p);
    Versions(p.low);
    TransportDecoded(p.payload, sm.(len := p.length, proto := p.proto, src := p.src, dst := p.dst));
  }

  lemma Ip6Fields(p: Ip)
    requires p.Ip6? && ValidIp(p)
    ensures var d := IpBytes(p);
            && |d| >= 40 && d[0] == 0x60 | p.low && d[6] == ByteOf(p.proto) && Short(d, 4) == p.length
            && d[8..24] == p.src.bytes && d[24..40] == p.dst.bytes && d[40..] == TransportBytes(p.payload)
  {
    hide Short, Two, TransportBytes, ByteOf;
    var d, t := IpBytes(p), TransportBytes(p.payload);
    var head := [0x60 | p.low] + p.flow;
    var mid := [ByteOf(p.proto), p.hops];
    var pre := head + Two(p.length) + mid;
    assert d == pre + p.src.bytes + p.dst.bytes + t;
    assert pre[0] == 0x60 | p.low && pre[6] == ByteOf(p.proto);
    Pieces(pre, p.src.bytes, p.dst.bytes, t);
    TwoAt(head, p.length, mid);
    SameShort(d, 4, pre, 4);
  }

  lemma Ip6Decoded(p: Ip, sm: Packet)
    requires p.Ip6? && ValidIp(p)
    ensures HelperIpv6(IpBytes(p), sm) == HelperIp(IpBytes(p), sm) == Decoded(true, Summary(p, sm))
  {
    hide Short, Two, Ports, TransportBytes, ByteOf, IpBytes;
    Ip6Fields(p);
    Versions(p.low);
    TransportDecoded(p.payload, sm.(len := (p.length + 40) % 0x1_0000, proto := p.proto, src := p.src, dst := p.dst));
  }

  lemma IpDecoded(p: Ip, sm: Packet)
    requires ValidIp(p)
    ensures HelperIp(IpBytes(p), sm) == Decoded(true, Summary(p, sm)) && |IpBytes(p)| >= 20
    ensures p.Ip6? ==> HelperIpv6(IpBytes(p), sm) == Decoded(true, Summary(p, sm))
  {
    hide HelperIp, HelperIpv6;
    if p.Ip4? {
      Ip4Decoded(p, sm);
    } else {
      Ip6Decoded(p, sm);
    }
  }

  // ----- Links -----

  /** What a link puts before the IP packet; what decoding does not read is arbitrary. */
  datatype Frame =
    | EtherFrame(dstMac: seq<bv8>, srcMac: seq<bv8>, etherType: nat)
    | EtherPppoe(dstMac: seq<bv8>, srcMac: seq<bv8>, verType: bv8, sessionLength: seq<bv8>)
    | Pppoe(verType: bv8, sessionLength: seq<bv8>)
    | PppFrame(addressControl: seq<bv8>)
    | Sll(before: seq<bv8>, etherType: nat)
    | FamilyFrame(six: bool)
    | NoFrame

  predicate IpType(t: nat) {
    t == 0x0800 || t == 0x86DD
  }

  /** The frames of each link type, in the mode that expects PPPoE on Ethernet or not. */
  predicate ValidFrame(l: Link, pppoe: bool, f: Frame, p: Ip) {
    match l
    case Ethernet =>
      if pppoe then f.EtherPppoe? && |f.dstMac| == 6 && |f.srcMac| == 6 && |f.sessionLength| == 4
      else f.EtherFrame? && |f.dstMac| == 6 && |f.srcMac| == 6 && IpType(f.etherType)
    case Loop => f.FamilyFrame? && (f.six ==> p.Ip6?)
    case NullLink => f.FamilyFrame? && (f.six ==> p.Ip6?)
    case Ppp => f.PppFrame? && |f.addressControl| == 2
    case PppEther => f.Pppoe? && |f.sessionLength| == 4
    case LinuxSll => f.Sll? && |f.before| == 14 && IpType(f.etherType)
    case Raw => f.NoFrame?
  }

  function FrameBytes(pf: Platform, l: Link, f: Frame): seq<bv8>
    requires exists pppoe, p :: ValidFrame(l, pppoe, f, p)
  {
    match f
    case EtherFrame(d, s, t) => d + s + Two(t)
    case EtherPppoe(d, s, v, m) => d + s + [0x88, 0x64] + ([v, 0] + m + [0x00, 0x21])
    case Pppoe(v, m) => [v, 0] + m + [0x00, 0x21]
    case PppFrame(ac) => ac + [0x00, 0x21]
    case Sll(b, t) => b + Two(t)
    case FamilyFrame(six) =>
      if l == Loop then (if six then pf.loopInet6 else pf.loopInet) else (if six then pf.inet6 else pf.inet)
    case NoFrame => []
  }

  /** Ethernet frames tell the MAC addresses. */
  function WithMacs(f: Frame, sm: Packet): Packet {
    if f.EtherFrame? || f.EtherPppoe? then sm.(srcMac := f.srcMac, dstMac := f.dstMac) else sm
  }

  lemma PppoeDecoded(v: bv8, m: seq<bv8>, d: seq<bv8>, sm: Packet)
    requires |m| == 4
    ensures HelperPppoe([v, 0] + m + [0x00, 0x21] + d, sm) == HelperIp(d, sm)
  {
    hide HelperIp;
    var e := [v, 0] + m + [0x00, 0x21] + d;
    assert e[1] == 0 && e[6] == 0x00 && e[7] == 0x21 && e[8..] == d;
  }

  lemma FamilyDecoded(inet: seq<bv8>, inet6: seq<bv8>, six: bool, d: seq<bv8>, sm: Packet)
    requires |inet| == 4 && |inet6| == 4 && inet != inet6
    ensures DecodeFamily((if six then inet6 else inet) + d, inet, inet6, sm)
            == if six then HelperIpv6(d, sm) else HelperIp(d, sm)
  {
    hide HelperIp, HelperIpv6;
    var e := (if six then inet6 else inet) + d;
    assert e[..4] == (if six then inet6 else inet) && e[4..] == d;
  }

  lemma EtherDecoded(pf: Platform, pppoe: bool, d: seq<bv8>, s: seq<bv8>, t: seq<bv8>, rest: seq<bv8>, sm: Packet)
    requires |d| == 6 && |s| == 6 && |t| == 2
    ensures var sm', n := sm.(srcMac := s, dstMac := d), Short(t, 0);
            DecodeLink(pf, Ethernet, pppoe, d + s + t + rest, sm)
            == if IpType(n) && !pppoe then HelperIp(rest, sm')
               else if n == 0x8864 && pppoe then HelperPppoe(rest, sm')
               else Decoded(false, sm')
  {
    hide HelperIp, HelperPppoe, Short;
    var e := d + s + t + rest;
    assert e[0..6] == d && e[6..12] == s && e[14..] == rest;
    SameShort(e, 12, t, 0);
  }

  lemma SameShort(d: seq<bv8>, i: nat, e: seq<bv8>, j: nat)
    requires i + 1 < |d| && j + 1 < |e| && d[i] == e[j] && d[i + 1] == e[j + 1]
    ensures Short(d, i) == Short(e, j)
  {
  }

  /**
   A packet of any link type and mode, written out from its headers, is decoded to exactly their fields: ends, length,
   protocol, ports, flags and MAC addresses; nothing else of the summary changes.
   */
  lemma HeadersDecoded(pf: Platform, l: Link, pppoe: bool, f: Frame, p: Ip, sm: Packet)
    requires ValidPlatform(pf) && ValidIp(p) && ValidFrame(l, pppoe, f, p)
    ensures DecodeLink(pf, l, pppoe, FrameBytes(pf, l, f) + IpBytes(p), sm) == Decoded(true, Summary(p, WithMacs(f, sm)))
  {
    hide HelperIp, HelperIpv6, HelperPppoe, DecodeFamily, IpBytes, Summary, Two;
    var d := IpBytes(p);
    IpDecoded(p, WithMacs(f, sm));
    match f
    case EtherFrame(dm, s, t) =>
      EtherDecoded(pf, pppoe, dm, s, Two(t), d, sm);
      TwoAt([], t, []);
      assert [] + Two(t) + [] == Two(t);
    case EtherPppoe(dm, s, v, m) =>
      var h := [v, 0] + m + [0x00, 0x21];
      assert dm + s + [0x88, 0x64] + h + d == dm + s + [0x88, 0x64] + (h + d);
      EtherDecoded(pf, pppoe, dm, s, [0x88, 0x64], h + d, sm);
      PppoeDecoded(v, m, d, WithMacs(f, sm));
    case Pppoe(v, m) => PppoeDecoded(v, m, d, sm);
    case PppFrame(ac) =>
      var e := ac + [0x00, 0x21] + d;
      assert e[2] == 0x00 && e[3] == 0x21 && e[4..] == d;
    case Sll(b, t) =>
      var e := b + Two(t) + d;
      TwoAt(b, t, d);
      assert e[16..] == d;
    case FamilyFrame(six) =>
      if l == Loop {
        FamilyDecoded(pf.loopInet, pf.loopInet6, six, d, sm);
      } else {
        FamilyDecoded(pf.inet, pf.inet6, six, d, sm);
      }
    case NoFrame => assert [] + d == d;
  }

  // ----- What cannot be decoded -----

  /** The IP version in the upper half of a byte. */
  function Version(b: bv8): nat {
    b as nat / 16
  }

  lemma VersionBits(b: bv8)
    ensures b >> 4 == 4 <==> Version(b) == 4
    ensures b >> 4 == 6 <==> Version(b) == 6
    ensures b & 0xF0 == 0x60 <==> Version(b) == 6
  {
  }

  /** There is a whole IP header at position `k`; only of version 6 where the link says so. */
  predicate HeaderAt(d: seq<bv8>, k: nat, six: bool) {
    || (!six && |d| >= k + 20 && Version(d[k]) == 4)
    || (|d| >= k + 40 && Version(d[k]) == 6)
  }

  /** Two bytes in network order. */
  predicate TypeAt(d: seq<bv8>, k: nat, hi: bv8, lo: bv8) {
    k + 1 < |d| && d[k] == hi && d[k + 1] == lo
  }

  predicate PppoeAt(d: seq<bv8>, k: nat) {
    |d| >= k + 8 && d[k + 1] == 0 && TypeAt(d, k + 6, 0x00, 0x21) && HeaderAt(d, k + 8, false)
  }

  predicate EtherIpAt(d: seq<bv8>, k: nat) {
    TypeAt(d, k, 0x08, 0x00) || TypeAt(d, k, 0x86, 0xDD)
  }

  predicate FamilyAt(d: seq<bv8>, inet: seq<bv8>, inet6: seq<bv8>) {
    |d| >= 4 && ((d[..4] == inet && HeaderAt(d, 4, false)) || (d[..4] == inet6 && HeaderAt(d, 4, true)))
  }

  /** By position: the packet is framed as its link and mode ask, and has a whole IP header. */
  predicate Decodable(pf: Platform, l: Link, pppoe: bool, d: seq<bv8>) {
    match l
    case Ethernet => if pppoe then TypeAt(d, 12, 0x88, 0x64) && PppoeAt(d, 14) else EtherIpAt(d, 12) && HeaderAt(d, 14, false)
    case Loop => FamilyAt(d, pf.loopInet, pf.loopInet6)
    case NullLink => FamilyAt(d, pf.inet, pf.inet6)
    case Ppp => TypeAt(d, 2, 0x00, 0x21) && HeaderAt(d, 4, false)
    case PppEther => PppoeAt(d, 0)
    case LinuxSll => EtherIpAt(d, 14) && HeaderAt(d, 16, false)
    case Raw => HeaderAt(d, 0, false)
  }

  lemma HelperIpOk(d: seq<bv8>, k: nat, sm: Packet)
    requires k <= |d|
    ensures HelperIp(d[k..], sm).ok <==> HeaderAt(d, k, false)
    ensures HelperIpv6(d[k..], sm).ok <==> HeaderAt(d, k, true)
  {
    hide Short, Ports, Version;
    if |d| > k {
      assert d[k..][0] == d[k];
      VersionBits(d[k]);
    }
  }

  lemma PppoeOk(d: seq<bv8>, k: nat, sm: Packet)
    requires k <= |d|
    ensures HelperPppoe(d[k..], sm).ok <==> PppoeAt(d, k)
  {
    hide HelperIp, HeaderAt;
    if |d| >= k + 8 {
      assert d[k..][8..] == d[k + 8..];
      HelperIpOk(d, k + 8, sm);
    }
  }

  lemma FamilyOk(d: seq<bv8>, inet: seq<bv8>, inet6: seq<bv8>, sm: Packet)
    requires inet != inet6
    ensures DecodeFamily(d, inet, inet6, sm).ok <==> FamilyAt(d, inet, inet6)
  {
    hide HelperIp, HelperIpv6, HeaderAt;
    if |d| >= 4 {
      HelperIpOk(d, 4, sm);
    }
  }

  lemma ShortIs(d: seq<bv8>, k: nat)
    requires k + 1 < |d|
    ensures Short(d, k) == 0x0800 <==> TypeAt(d, k, 0x08, 0x00)
    ensures Short(d, k) == 0x86DD <==> TypeAt(d, k, 0x86, 0xDD)
    ensures Short(d, k) == 0x8864 <==> TypeAt(d, k, 0x88, 0x64)
  {
    ByteIs(d[k]);
    ByteIs(d[k + 1]);
  }

  lemma ByteIs(b: bv8)
    ensures b as nat < 256
    ensures (b as nat == 0x08 <==> b == 0x08) && (b as nat == 0x86 <==> b == 0x86) && (b as nat == 0x88 <==> b == 0x88)
    ensures (b as nat == 0x00 <==> b == 0x00) && (b as nat == 0xDD <==> b == 0xDD) && (b as nat == 0x64 <==> b == 0x64)
  {
  }

  lemma EtherOk(pf: Platform, pppoe: bool, d: seq<bv8>, sm: Packet)
    ensures DecodeLink(pf, Ethernet, pppoe, d, sm).ok <==> Decodable(pf, Ethernet, pppoe, d)
  {
    hide HelperIp, HelperPppoe, Short, HeaderAt, PppoeAt;
    if |d| >= 14 {
      var sm' := sm.(srcMac := d[6..12], dstMac := d[0..6]);
      ShortIs(d, 12);
      HelperIpOk(d, 14, sm');
      PppoeOk(d, 14, sm');
    } else {
      TooShort(d, 14);
    }
  }

  lemma TooShort(d: seq<bv8>, k: nat)
    requires |d| < k
    ensures !HeaderAt(d, k, false) && !PppoeAt(d, k)
  {
  }

  /** Decoding succeeds exactly if the packet is decodable by position. */
  lemma OkExactly(pf: Platform, l: Link, pppoe: bool, d: seq<bv8>, sm: Packet)
    requires ValidPlatform(pf)
    ensures DecodeLink(pf, l, pppoe, d, sm).ok <==> Decodable(pf, l, pppoe, d)
  {
    hide HelperIp, HelperPppoe, DecodeFamily, Short, HeaderAt, PppoeAt, FamilyAt;
    match l
    case Ethernet => EtherOk(pf, pppoe, d, sm);
    case Loop => FamilyOk(d, pf.loopInet, pf.loopInet6, sm);
    case NullLink => FamilyOk(d, pf.inet, pf.inet6, sm);
    case Ppp =>
      if |d| >= 8 {
        HelperIpOk(d, 4, sm);
      } else {
        HeaderLong(d, 4);
      }
    case PppEther =>
      assert d[0..] == d;
      PppoeOk(d, 0, sm);
    case LinuxSll =>
      if |d| >= 16 {
        ShortIs(d, 14);
        HelperIpOk(d, 16, sm);
      } else {
        TooShort(d, 16);
      }
    case Raw =>
      assert d[0..] == d;
      HelperIpOk(d, 0, sm);
  }

  lemma HeaderLong(d: seq<bv8>, k: nat)
    ensures HeaderAt(d, k, false) ==> |d| >= k + 20
  {
  }
}
