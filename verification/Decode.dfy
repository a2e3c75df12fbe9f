/** Decoding captured packets down to their ports (decode.c), and how much of a packet that takes. */
module Decode {
  import opened Addrs

  const PROTO_TCP: nat := 6
  const PROTO_UDP: nat := 17
  /** Stands for a protocol that could not be decoded. */
  const PROTO_INVALID: nat := 254
  const TH_SYN: nat := 0x02

  /** The summary of a packet that accounting is given. */
  datatype Packet = Packet(src: Addr, dst: Addr, len: nat, proto: nat, tcpFlags: nat, srcPort: nat, dstPort: nat,
                           srcMac: seq<bv8>, dstMac: seq<bv8>)

  predicate ValidPacket(p: Packet) {
    p.len < 0x1_0000 && p.proto < 256 && p.srcPort < 0x1_0000 && p.dstPort < 0x1_0000
    && |p.srcMac| == 6 && |p.dstMac| == 6
  }

  /** Whether to account for the packet, and the summary as far as it was filled in. */
  datatype Decoded = Decoded(ok: bool, sm: Packet)

  datatype Link = Ethernet | Loop | NullLink | Ppp | PppEther | LinuxSll | Raw

  /** The four bytes that stand for AF_INET and AF_INET6 at the start of loopback packets on some platform. */
  datatype Platform = Platform(inet: seq<bv8>, inet6: seq<bv8>, loopInet: seq<bv8>, loopInet6: seq<bv8>)

  predicate ValidPlatform(pf: Platform) {
    |pf.inet| == 4 && |pf.inet6| == 4 && pf.inet != pf.inet6
    && |pf.loopInet| == 4 && |pf.loopInet6| == 4 && pf.loopInet != pf.loopInet6
  }

  const IP_HDR_LEN: nat := 20
  const IPV6_HDR_LEN: nat := 40
  const TCP_HDR_LEN: nat := 20
  const UDP_HDR_LEN: nat := 8
  const PPPOE_HDR_LEN: nat := 8

  function HdrLen(l: Link): nat {
    match l
    case Ethernet => 14
    case Loop => 4
    case NullLink => 4
    case Ppp => 4
    case PppEther => PPPOE_HDR_LEN
    case LinuxSll => 16
    case Raw => 0
  }

  /** The length that is asked of the capture library: PPPoE on Ethernet takes its own header on top. */
  function SnapLen(l: Link, pppoe: bool): nat {
    HdrLen(l) + IPV6_HDR_LEN + TCP_HDR_LEN + if pppoe then PPPOE_HDR_LEN else 0
  }

  function Short(d: seq<bv8>, i: nat): (n: nat)
    requires i + 1 < |d|
    ensures n < 0x1_0000
  {
    256 * d[i] as nat + d[i + 1] as nat
  }

  function Ports(d: seq<bv8>, sm: Packet): Packet {
    if sm.proto == PROTO_TCP then
      if |d| < TCP_HDR_LEN then sm.(proto := PROTO_INVALID)
      else sm.(srcPort := Short(d, 0), dstPort := Short(d, 2), tcpFlags := (d[13] & 0x3f) as nat)
    else if sm.proto == PROTO_UDP then
      if |d| < UDP_HDR_LEN then sm.(proto := PROTO_INVALID)
      else sm.(srcPort := Short(d, 0), dstPort := Short(d, 2))
    else sm
  }

  function HelperIpv6(d: seq<bv8>, sm: Packet): Decoded {
    if |d| < IPV6_HDR_LEN || d[0] & 0xF0 != 0x60 then Decoded(false, sm)
    else
      var src: Addr, dst: Addr := Addr(IPv6, d[8..24]), Addr(IPv6, d[24..40]);
      // The sum is stored in sixteen bits.
      var len := (Short(d, 4) + IPV6_HDR_LEN) % 0x1_0000;
      Decoded(true, Ports(d[IPV6_HDR_LEN..], sm.(len := len, proto := d[6] as nat, src := src, dst := dst)))
  }

  function HelperIp(d: seq<bv8>, sm: Packet): Decoded {
    if |d| < IP_HDR_LEN then Decoded(false, sm)
    else if d[0] >> 4 == 6 then HelperIpv6(d, sm)
    else if d[0] >> 4 != 4 then Decoded(false, sm)
    else
      var src: Addr, dst: Addr := Addr(IPv4, d[12..16]), Addr(IPv4, d[16..20]);
      Decoded(true, Ports(d[IP_HDR_LEN..], sm.(len := Short(d, 2), proto := d[9] as nat, src := src, dst := dst)))
  }

  function HelperPppoe(d: seq<bv8>, sm: Packet): Decoded {
    if |d| < PPPOE_HDR_LEN || d[1] != 0 then Decoded(false, sm)
    else if d[6] == 0x00 && d[7] == 0x21 then HelperIp(d[PPPOE_HDR_LEN..], sm)
    else Decoded(false, sm)
  }

  /** The decoder of each link type. */
  function DecodeLink(pf: Platform, l: Link, pppoe: bool, d: seq<bv8>, sm: Packet): Decoded {
    match l
    case Ethernet =>
      if |d| < 14 then Decoded(false, sm)
      else
        var sm' := sm.(srcMac := d[6..12], dstMac := d[0..6]);
        var t := Short(d, 12);
        if (t == 0x0800 || t == 0x86DD) && !pppoe then HelperIp(d[14..], sm')
        else if t == 0x8864 && pppoe then HelperPppoe(d[14..], sm')
        else Decoded(false, sm')
    case Loop => DecodeFamily(d, pf.loopInet, pf.loopInet6, sm)
    case NullLink => DecodeFamily(d, pf.inet, pf.inet6, sm)
    case Ppp =>
      if |d| < PPPOE_HDR_LEN || d[2] != 0x00 || d[3] != 0x21 then Decoded(false, sm) else HelperIp(d[4..], sm)
    case PppEther => HelperPppoe(d, sm)
    case LinuxSll =>
      if |d| < 16 then Decoded(false, sm)
      else
        var t := Short(d, 14);
        if t == 0x0800 || t == 0x86DD then HelperIp(d[16..], sm) else Decoded(false, sm)
    case Raw => HelperIp(d, sm)
  }

  /** decode_loop() and decode_null() */
  function DecodeFamily(d: seq<bv8>, inet: seq<bv8>, inet6: seq<bv8>, sm: Packet): Decoded {
    if |d| < 4 then Decoded(false, sm)
    else if d[..4] == inet then HelperIp(d[4..], sm)
    else if d[..4] == inet6 then HelperIpv6(d[4..], sm)
    else Decoded(false, sm)
  }

  // ----- Truncation -----

  lemma Cut(d: seq<bv8>, n: nat, k: nat)
    requires k <= n <= |d|
    ensures d[..n][k..] == d[k..][..n - k]
  {
  }

  lemma PortsCut(d: seq<bv8>, n: nat, sm: Packet)
    requires TCP_HDR_LEN <= n <= |d|
    ensures Ports(d[..n], sm) == Ports(d, sm)
  {
  }

  lemma Ipv6Cut(d: seq<bv8>, n: nat, sm: Packet)
    requires IPV6_HDR_LEN + TCP_HDR_LEN <= n <= |d|
    ensures HelperIpv6(d[..n], sm) == HelperIpv6(d, sm)
  {
    hide Ports;
    Cut(d, n, IPV6_HDR_LEN);
    assert d[..n][8..24] == d[8..24] && d[..n][24..40] == d[24..40];
    if d[0] & 0xF0 == 0x60 {
      var len := (Short(d, 4) + IPV6_HDR_LEN) % 0x1_0000;
      var src: Addr, dst: Addr := Addr(IPv6, d[8..24]), Addr(IPv6, d[24..40]);
      PortsCut(d[IPV6_HDR_LEN..], n - IPV6_HDR_LEN, sm.(len := len, proto := d[6] as nat, src := src, dst := dst));
    }
  }

  lemma IpCut(d: seq<bv8>, n: nat, sm: Packet)
    requires IPV6_HDR_LEN + TCP_HDR_LEN <= n <= |d|
    ensures HelperIp(d[..n], sm) == HelperIp(d, sm)
  {
    hide Ports, HelperIpv6;
    Cut(d, n, IP_HDR_LEN);
    Ipv6Cut(d, n, sm);
    assert d[..n][12..16] == d[12..16] && d[..n][16..20] == d[16..20];
    var src: Addr, dst: Addr := Addr(IPv4, d[12..16]), Addr(IPv4, d[16..20]);
    PortsCut(d[IP_HDR_LEN..], n - IP_HDR_LEN, sm.(len := Short(d, 2), proto := d[9] as nat, src := src, dst := dst));
  }

  lemma PppoeCut(d: seq<bv8>, n: nat, sm: Packet)
    requires PPPOE_HDR_LEN + IPV6_HDR_LEN + TCP_HDR_LEN <= n <= |d|
    ensures HelperPppoe(d[..n], sm) == HelperPppoe(d, sm)
  {
    hide HelperIp;
    Cut(d, n, PPPOE_HDR_LEN);
    IpCut(d[PPPOE_HDR_LEN..], n - PPPOE_HDR_LEN, sm);
  }

  lemma FamilyCut(d: seq<bv8>, n: nat, inet: seq<bv8>, inet6: seq<bv8>, sm: Packet)
    requires 4 + IPV6_HDR_LEN + TCP_HDR_LEN <= n <= |d|
    ensures DecodeFamily(d[..n], inet, inet6, sm) == DecodeFamily(d, inet, inet6, sm)
  {
    hide HelperIp, HelperIpv6;
    Cut(d, n, 4);
    assert d[..n][..4] == d[..4];
    IpCut(d[4..], n - 4, sm);
    Ipv6Cut(d[4..], n - 4, sm);
  }

  lemma ShortCut(d: seq<bv8>, n: nat, i: nat)
    requires i + 1 < n <= |d|
    ensures Short(d[..n], i) == Short(d, i)
  {
  }

  lemma EthernetCut(pf: Platform, pppoe: bool, d: seq<bv8>, n: nat, sm: Packet)
    requires SnapLen(Ethernet, pppoe) <= n <= |d|
    ensures DecodeLink(pf, Ethernet, pppoe, d[..n], sm) == DecodeLink(pf, Ethernet, pppoe, d, sm)
  {
    hide HelperIp, HelperPppoe, Short;
    var sm' := sm.(srcMac := d[6..12], dstMac := d[0..6]);
    assert d[..n][6..12] == d[6..12] && d[..n][0..6] == d[0..6];
    ShortCut(d, n, 12);
    Cut(d, n, 14);
    if pppoe {
      PppoeCut(d[14..], n - 14, sm');
    } else {
      IpCut(d[14..], n - 14, sm');
    }
  }

  /** Cutting a packet off at the computed length or later changes nothing about its decoding. */
  lemma SnapLenSuffices(pf: Platform, l: Link, pppoe: bool, d: seq<bv8>, n: nat, sm: Packet)
    requires SnapLen(l, pppoe) <= n <= |d|
    ensures DecodeLink(pf, l, pppoe, d[..n], sm) == DecodeLink(pf, l, pppoe, d, sm)
  {
    hide HelperIp, HelperPppoe, DecodeFamily, Short;
    match l
    case Ethernet => EthernetCut(pf, pppoe, d, n, sm);
    case Loop => FamilyCut(d, n, pf.loopInet, pf.loopInet6, sm);
    case NullLink => FamilyCut(d, n, pf.inet, pf.inet6, sm);
    case Ppp =>
      Cut(d, n, 4);
      IpCut(d[4..], n - 4, sm);
    case PppEther => PppoeCut(d, n, sm);
    case LinuxSll =>
      ShortCut(d, n, 14);
      Cut(d, n, 16);
      IpCut(d[16..], n - 16, sm);
    case Raw => IpCut(d, n, sm);
  }

  // ----- One byte less -----

  function Zeros(n: nat): (s: seq<bv8>)
    ensures |s| == n && forall i :: 0 <= i < n ==> s[i] == 0
  {
    seq(n, _ => 0)
  }

  /** An IPv6 header that announces TCP, from :: to ::. */
  const IPV6_TCP: seq<bv8> := [0x60, 0, 0, 0, 0, 20, 6, 0] + Zeros(32)

  /** What comes before the IP header of such a packet. */
  function Lead(pf: Platform, l: Link, pppoe: bool): seq<bv8>
    requires ValidPlatform(pf)
  {
    match l
    case Ethernet => Zeros(12) + if pppoe then [0x88, 0x64] + PPPOE_IP else [0x86, 0xDD]
    case Loop => pf.loopInet6
    case NullLink => pf.inet6
    case Ppp => [0xff, 0x03, 0x00, 0x21]
    case PppEther => PPPOE_IP
    case LinuxSll => Zeros(14) + [0x86, 0xDD]
    case Raw => []
  }

  const PPPOE_IP: seq<bv8> := [0x11, 0, 0, 0, 0, 0, 0x00, 0x21]

  lemma SampleIpv6(n: nat, sm: Packet)
    ensures var r := HelperIpv6(IPV6_TCP + Zeros(n), sm);
            r.ok && r.sm.proto == if n < TCP_HDR_LEN then PROTO_INVALID else PROTO_TCP
  {
    var d := IPV6_TCP + Zeros(n);
    assert d[0] == 0x60 && d[6] == 6 && |d[IPV6_HDR_LEN..]| == n;
  }

  lemma SampleIp(n: nat, sm: Packet)
    ensures var r := HelperIp(IPV6_TCP + Zeros(n), sm);
            r.ok && r.sm.proto == if n < TCP_HDR_LEN then PROTO_INVALID else PROTO_TCP
  {
    hide HelperIpv6;
    SampleIpv6(n, sm);
    var d := IPV6_TCP + Zeros(n);
    assert d[0] == 0x60 && d[0] >> 4 == 6;
  }

  lemma SamplePppoe(n: nat, sm: Packet)
    ensures HelperPppoe(PPPOE_IP + (IPV6_TCP + Zeros(n)), sm) == HelperIp(IPV6_TCP + Zeros(n), sm)
  {
    hide HelperIp;
    var d := PPPOE_IP + (IPV6_TCP + Zeros(n));
    assert d[1] == 0 && d[6] == 0 && d[7] == 0x21;
    assert d[PPPOE_HDR_LEN..] == IPV6_TCP + Zeros(n);
  }

  lemma SampleFamily(h: seq<bv8>, n: nat, inet: seq<bv8>, sm: Packet)
    requires |h| == 4 && h != inet
    ensures DecodeFamily(h + (IPV6_TCP + Zeros(n)), inet, h, sm) == HelperIpv6(IPV6_TCP + Zeros(n), sm)
  {
    hide HelperIp, HelperIpv6;
    var d := h + (IPV6_TCP + Zeros(n));
    assert d[..4] == h && d[4..] == IPV6_TCP + Zeros(n);
  }

  lemma Sample(pf: Platform, l: Link, pppoe: bool, n: nat, sm: Packet)
    requires ValidPlatform(pf) && (pppoe ==> l == Ethernet)
    ensures |Lead(pf, l, pppoe)| == HdrLen(l) + if pppoe then PPPOE_HDR_LEN else 0
    ensures DecodeLink(pf, l, pppoe, Lead(pf, l, pppoe) + (IPV6_TCP + Zeros(n)), sm).ok
    ensures DecodeLink(pf, l, pppoe, Lead(pf, l, pppoe) + (IPV6_TCP + Zeros(n)), sm).sm.proto
            == if n < TCP_HDR_LEN then PROTO_INVALID else PROTO_TCP
  {
    hide HelperIp, HelperIpv6, HelperPppoe, DecodeFamily;
    var ip := IPV6_TCP + Zeros(n);
    var h := Lead(pf, l, pppoe);
    var d := h + ip;
    match l
    case Ethernet =>
      var sm' := sm.(srcMac := d[6..12], dstMac := d[0..6]);
      SampleIp(n, sm');
      if pppoe {
        assert d[12] == 0x88 && d[13] == 0x64;
        assert d[14..] == PPPOE_IP + ip;
        SamplePppoe(n, sm');
      } else {
        assert d[12] == 0x86 && d[13] == 0xDD;
        assert d[14..] == ip;
      }
    case Loop =>
      SampleFamily(h, n, pf.loopInet, sm);
      SampleIpv6(n, sm);
    case NullLink =>
      SampleFamily(h, n, pf.inet, sm);
      SampleIpv6(n, sm);
    case Ppp =>
      assert d[2] == 0 && d[3] == 0x21 && d[4..] == ip;
      SampleIp(n, sm);
    case PppEther =>
      SamplePppoe(n, sm);
      SampleIp(n, sm);
    case LinuxSll =>
      assert d[14] == 0x86 && d[15] == 0xDD && d[16..] == ip;
      SampleIp(n, sm);
    case Raw =>
      assert d == ip;
      SampleIp(n, sm);
  }

  /** With one byte less there is, for every link type, a packet that loses its ports. */
  lemma SnapLenExact(pf: Platform, l: Link, pppoe: bool, sm: Packet) returns (d: seq<bv8>)
    requires ValidPlatform(pf) && (pppoe ==> l == Ethernet)
    ensures |d| == SnapLen(l, pppoe)
    ensures DecodeLink(pf, l, pppoe, d, sm).sm.proto == PROTO_TCP
    ensures DecodeLink(pf, l, pppoe, d[..|d| - 1], sm).sm.proto == PROTO_INVALID
  {
    hide DecodeLink;
    d := Lead(pf, l, pppoe) + (IPV6_TCP + Zeros(TCP_HDR_LEN));
    Sample(pf, l, pppoe, TCP_HDR_LEN, sm);
    Sample(pf, l, pppoe, TCP_HDR_LEN - 1, sm);
    assert d[..|d| - 1] == Lead(pf, l, pppoe) + (IPV6_TCP + Zeros(TCP_HDR_LEN - 1));
  }

  // ----- Field widths -----

  lemma PortsValid(d: seq<bv8>, sm: Packet)
    requires ValidPacket(sm)
    ensures ValidPacket(Ports(d, sm))
  {
  }

  lemma Ipv6Valid(d: seq<bv8>, sm: Packet)
    requires ValidPacket(sm)
    ensures ValidPacket(HelperIpv6(d, sm).sm)
  {
    hide Ports, Short;
    if |d| >= IPV6_HDR_LEN && d[0] & 0xF0 == 0x60 {
      var src: Addr, dst: Addr := Addr(IPv6, d[8..24]), Addr(IPv6, d[24..40]);
      var len := (Short(d, 4) + IPV6_HDR_LEN) % 0x1_0000;
      PortsValid(d[IPV6_HDR_LEN..], sm.(len := len, proto := d[6] as nat, src := src, dst := dst));
    }
  }

  lemma IpValid(d: seq<bv8>, sm: Packet)
    requires ValidPacket(sm)
    ensures ValidPacket(HelperIp(d, sm).sm)
  {
    hide Ports, Short, HelperIpv6;
    Ipv6Valid(d, sm);
    if |d| >= IP_HDR_LEN {
      var src: Addr, dst: Addr := Addr(IPv4, d[12..16]), Addr(IPv4, d[16..20]);
      PortsValid(d[IP_HDR_LEN..], sm.(len := Short(d, 2), proto := d[9] as nat, src := src, dst := dst));
    }
  }

  lemma PppoeValid(d: seq<bv8>, sm: Packet)
    requires ValidPacket(sm)
    ensures ValidPacket(HelperPppoe(d, sm).sm)
  {
    hide HelperIp;
    if |d| >= PPPOE_HDR_LEN {
      IpValid(d[PPPOE_HDR_LEN..], sm);
    }
  }

  /** A summary keeps to the widths of its fields. */
  lemma DecodedValid(pf: Platform, l: Link, pppoe: bool, d: seq<bv8>, sm: Packet)
    requires ValidPacket(sm)
    ensures ValidPacket(DecodeLink(pf, l, pppoe, d, sm).sm)
  {
    hide Short, HelperIp, HelperIpv6, HelperPppoe;
    PppoeValid(d, sm);
    IpValid(d, sm);
    if |d| >= 4 {
      IpValid(d[4..], sm);
      Ipv6Valid(d[4..], sm);
    }
    if |d| >= 14 {
      var sm' := sm.(srcMac := d[6..12], dstMac := d[0..6]);
      IpValid(d[14..], sm');
      PppoeValid(d[14..], sm');
    }
    if |d| >= 16 {
      IpValid(d[16..], sm);
    }
  }
}
