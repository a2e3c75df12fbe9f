/** Accounting for packets (acct.c): what every run of packets does to the hosts database. */
module Acct {
  import opened Wrappers
  import opened Bytes
  import opened Addrs
  import opened Collections
  import opened HostsDb
  import opened GraphRing
  import GraphDb
  import opened Sums
  import opened Decode

  /** A packet, whether its ends are local, and the time. */
  datatype Arrival = Arrival(p: Packet, fromLocal: bool, toLocal: bool, now: int)

  datatype Options = Options(lim: Limits, highestPort: nat, localOnly: bool)

  /** What darkstat.c makes sure of: to keep less than the maximum, where there is one. */
  predicate ValidOptions(o: Options) {
    && (o.lim.hostsMax > 0 ==> o.lim.hostsKeep < o.lim.hostsMax)
    && (o.lim.portsMax > 0 ==> o.lim.portsKeep < o.lim.portsMax)
  }

  function Charged(f: Flow, dir: Dir, len: nat): Flow {
    match dir
    case In => f.(inn := Add64(f.inn, len), total := Add64(f.total, len))
    case Out => f.(out := Add64(f.out, len), total := Add64(f.total, len))
  }

  // ----- Hosts -----

  /** hosts_db_reduce() */
  function Reduced(db: Db, lim: Limits): Db {
    if |db| >= lim.hostsMax then Trim(db, HostTotal, lim.hostsKeep) else db
  }

  function HostGet(db: Db, a: Addr): Host {
    if a in db then db[a] else NEW_HOST
  }

  function LatestOf(p: Packet): Latest {
    Latest(p.proto, p.srcPort, p.dstPort)
  }

  /** The source of a packet: only that end is known to have been seen. */
  function SourceCharged(db: Db, v: Arrival): Db {
    var h := HostGet(db, v.p.src);
    db[v.p.src := h.(flow := Charged(h.flow, Out, v.p.len), mac := v.p.srcMac, lastSeen := v.now,
                       latest := Some(LatestOf(v.p)))]
  }

  function DestCharged(db: Db, v: Arrival): Db {
    var h := HostGet(db, v.p.dst);
    db[v.p.dst := h.(flow := Charged(h.flow, In, v.p.len), mac := v.p.dstMac, latest := Some(LatestOf(v.p)))]
  }

  predicate HasSource(v: Arrival, o: Options) {
    !o.localOnly || v.fromLocal
  }

  predicate HasDest(v: Arrival, o: Options) {
    !o.localOnly || v.toLocal
  }

  function HostsCharged(db: Db, v: Arrival, o: Options): Db {
    var d := if HasSource(v, o) then SourceCharged(db, v) else db;
    if HasDest(v, o) then DestCharged(d, v) else d
  }

  // ----- Protocols and ports -----

  /** One entry of one table of one host that a packet is charged to. */
  datatype Charge = Charge(addr: Addr, table: TableId, key: nat, dir: Dir, syn: bool)

  function WithCharge(m: map<nat, Entry>, c: Charge, len: nat, lim: Limits): map<nat, Entry> {
    var n := FindOrInsert(m, Max(c.table, lim), Keep(c.table, lim), c.key);
    var e := n[c.key];
    n[c.key := Entry(Charged(e.flow, c.dir, len), if c.syn then Add64(e.syn, 1) else e.syn)]
  }

  function ApplyCharge(db: Db, c: Charge, len: nat, lim: Limits): (r: Db)
    requires c.addr in db
    ensures r.Keys == db.Keys
  {
    var h := db[c.addr];
    db[c.addr := h.(tables := WithTable(h.tables, c.table, WithCharge(Table(h.tables, c.table), c, len, lim)))]
  }

  ghost predicate Present(db: Db, cs: seq<Charge>) {
    forall i :: 0 <= i < |cs| ==> cs[i].addr in db
  }

  function ApplyAll(db: Db, cs: seq<Charge>, len: nat, lim: Limits): (r: Db)
    requires Present(db, cs)
    ensures r.Keys == db.Keys
    decreases |cs|
  {
    if cs == [] then db else ApplyAll(ApplyCharge(db, cs[0], len, lim), cs[1..], len, lim)
  }

  function If(b: bool, c: Charge): seq<Charge> {
    if b then [c] else []
  }

  function ProtoCharges(v: Arrival, o: Options): seq<Charge> {
    if v.p.proto == PROTO_INVALID then []
    else If(HasSource(v, o), Charge(v.p.src, Protos, v.p.proto, Out, false))
         + If(HasDest(v, o), Charge(v.p.dst, Protos, v.p.proto, In, false))
  }

  /** Each end is charged for its own port, and each for the other's port as a remote one. */
  function PortCharges(v: Arrival, o: Options, local: TableId, remote: TableId, syn: bool): seq<Charge> {
    var p := v.p;
    var from, to := p.srcPort <= o.highestPort, p.dstPort <= o.highestPort;
    If(from && HasSource(v, o), Charge(p.src, local, p.srcPort, Out, false))
    + If(to && HasDest(v, o), Charge(p.dst, local, p.dstPort, In, syn))
    + If(from && HasDest(v, o), Charge(p.dst, remote, p.srcPort, Out, false))
    + If(to && HasSource(v, o), Charge(p.src, remote, p.dstPort, In, syn))
  }

  function Charges(v: Arrival, o: Options): seq<Charge> {
    ProtoCharges(v, o) +
    if o.lim.portsMax == 0 then []
    else if v.p.proto == PROTO_TCP then PortCharges(v, o, Tcp, TcpRemote, v.p.tcpFlags == TH_SYN)
    else if v.p.proto == PROTO_UDP then PortCharges(v, o, Udp, UdpRemote, false)
    else []
  }

  predicate AtEnd(c: Charge, v: Arrival, o: Options) {
    (c.addr == v.p.src && HasSource(v, o)) || (c.addr == v.p.dst && HasDest(v, o))
  }

  /** Only ends that take part are charged. */
  ghost predicate Ends(cs: seq<Charge>, v: Arrival, o: Options) {
    forall i :: 0 <= i < |cs| ==> AtEnd(cs[i], v, o)
  }

  lemma EndsConcat(a: seq<Charge>, b: seq<Charge>, v: Arrival, o: Options)
    requires Ends(a, v, o) && Ends(b, v, o)
    ensures Ends(a + b, v, o)
  {
    hide AtEnd;
  }

  lemma ProtoEnds(v: Arrival, o: Options)
    ensures Ends(ProtoCharges(v, o), v, o)
  {
  }

  lemma PortEnds(v: Arrival, o: Options, local: TableId, remote: TableId, syn: bool)
    ensures Ends(PortCharges(v, o, local, remote, syn), v, o)
  {
  }

  /** The ends that are charged are in the table, the source too after the destination went in. */
  lemma ChargesPresent(db: Db, v: Arrival, o: Options)
    ensures Present(HostsCharged(db, v, o), Charges(v, o))
  {
    hide ProtoCharges, PortCharges;
    ProtoEnds(v, o);
    PortEnds(v, o, Tcp, TcpRemote, v.p.tcpFlags == TH_SYN);
    PortEnds(v, o, Udp, UdpRemote, false);
    var tcp, udp := PortCharges(v, o, Tcp, TcpRemote, v.p.tcpFlags == TH_SYN), PortCharges(v, o, Udp, UdpRemote, false);
    EndsConcat(ProtoCharges(v, o), tcp, v, o);
    EndsConcat(ProtoCharges(v, o), udp, v, o);
    EndsConcat(ProtoCharges(v, o), [], v, o);
    assert HasSource(v, o) ==> v.p.src in HostsCharged(db, v, o);
    assert HasDest(v, o) ==> v.p.dst in HostsCharged(db, v, o);
  }

  // ----- One packet -----

  /** The totals, the hosts, and what the model remembers of hosts that have been evicted. */
  datatype State = State(db: Db, gone: seq<Db>, bytes: u64, packets: u64)

  const RESET: State := State(map[], [], 0, 0)

  function PacketCharged(db: Db, v: Arrival, o: Options): Db {
    var d := HostsCharged(db, v, o);
    ChargesPresent(db, v, o);
    ApplyAll(d, Charges(v, o), v.p.len, o.lim)
  }

  function Step(s: State, v: Arrival, o: Options): State {
    var t := s.(bytes := Add64(s.bytes, v.p.len), packets := Add64(s.packets, 1));
    if o.lim.hostsMax == 0 then t
    else
      var d := Reduced(s.db, o.lim);
      t.(db := PacketCharged(d, v, o), gone := s.gone + [s.db - d.Keys])
  }

  function Run(s: State, vs: seq<Arrival>, o: Options): State {
    if vs == [] then s else Step(Run(s, vs[..|vs| - 1], o), vs[|vs| - 1], o)
  }

  // ----- Meters -----

  /** What is counted of an entry: bytes in one direction, or SYN packets. */
  datatype Gauge = Volume(dir: Dir) | Syns

  /** A figure that can be read off every host: its own traffic, or that of one of its tables. */
  datatype Meter = Own(dir: Dir) | Of(table: TableId, gauge: Gauge)

  function Side(f: Flow, dir: Dir): nat {
    if dir == In then f.inn else f.out
  }

  function EntryReading(g: Gauge, e: Entry): nat {
    match g
    case Volume(dir) => Side(e.flow, dir)
    case Syns => e.syn
  }

  ghost function EntryReader(g: Gauge): (f: Entry -> nat)
    ensures forall e :: f(e) == EntryReading(g, e)
  {
    (e: Entry) => EntryReading(g, e)
  }

  ghost function Reading(m: Meter, h: Host): nat {
    match m
    case Own(dir) => Side(h.flow, dir)
    case Of(t, g) => Sum(Table(h.tables, t), EntryReader(g))
  }

  ghost function HostReader(m: Meter): (f: Host -> nat)
    ensures forall h :: f(h) == Reading(m, h)
  {
    (h: Host) => Reading(m, h)
  }

  ghost function Total(db: Db, m: Meter): nat {
    Sum(db, HostReader(m))
  }

  ghost function GoneTotal(gone: seq<Db>, m: Meter): nat {
    if gone == [] then 0 else GoneTotal(gone[..|gone| - 1], m) + Total(gone[|gone| - 1], m)
  }

  /** Live hosts and evicted ones together. */
  ghost function Everything(s: State, m: Meter): nat {
    Total(s.db, m) + GoneTotal(s.gone, m)
  }

  // ----- What a packet does to the meters -----

  lemma NewReading(m: Meter)
    ensures Reading(m, NEW_HOST) == 0
  {
  }

  /** Replacing a host moves a meter by the difference of its readings. */
  lemma TotalUpdate(db: Db, m: Meter, a: Addr, h: Host)
    ensures Total(db[a := h], m) + Reading(m, HostGet(db, a)) == Total(db, m) + Reading(m, h)
  {
    hide Sum;
    SumUpdate(db, HostReader(m), a, h);
    NewReading(m);
  }

  /** Reducing moves traffic from the live to the evicted. */
  lemma ReducedTotal(db: Db, lim: Limits, m: Meter)
    ensures Total(db, m) == Total(Reduced(db, lim), m) + Total(db - Reduced(db, lim).Keys, m)
  {
    hide Sum;
    var d := Reduced(db, lim);
    SumSplit(db, HostReader(m), d);
  }

  function Due(b: bool, len: nat): nat {
    if b then len else 0
  }

  lemma ChargedSide(f: Flow, dir: Dir, len: nat, d: Dir)
    ensures Same64(Side(Charged(f, dir, len), d), Side(f, d) + Due(d == dir, len))
  {
  }

  lemma Same64Move(x: int, y: int, r: int, q: int, c: int)
    requires x + r == y + q && Same64(q, r + c)
    ensures Same64(x, y + c)
  {
  }

  lemma SourceTotal(db: Db, v: Arrival, m: Meter)
    ensures Same64(Total(SourceCharged(db, v), m), Total(db, m) + Due(m == Own(Out), v.p.len))
  {
    hide Total, Same64;
    var h, a := HostGet(db, v.p.src), v.p.src;
    var h' := SourceCharged(db, v)[a];
    TotalUpdate(db, m, a, h');
    OwnCharged(h, h', Out, v.p.len, m);
    Same64Move(Total(SourceCharged(db, v), m), Total(db, m), Reading(m, h), Reading(m, h'), Due(m == Own(Out), v.p.len));
  }

  lemma DestTotal(db: Db, v: Arrival, m: Meter)
    ensures Same64(Total(DestCharged(db, v), m), Total(db, m) + Due(m == Own(In), v.p.len))
  {
    hide Total, Same64;
    var h, a := HostGet(db, v.p.dst), v.p.dst;
    var h' := DestCharged(db, v)[a];
    TotalUpdate(db, m, a, h');
    OwnCharged(h, h', In, v.p.len, m);
    Same64Move(Total(DestCharged(db, v), m), Total(db, m), Reading(m, h), Reading(m, h'), Due(m == Own(In), v.p.len));
  }

  lemma OwnCharged(h: Host, h': Host, dir: Dir, len: nat, m: Meter)
    requires h'.flow == Charged(h.flow, dir, len) && h'.tables == h.tables
    ensures Same64(Reading(m, h'), Reading(m, h) + Due(m == Own(dir), len))
  {
    if m.Own? {
      ChargedSide(h.flow, dir, len, m.dir);
    }
  }

  /** The charge finds its entry, or room for it. */
  predicate Fits(m: map<nat, Entry>, c: Charge, lim: Limits) {
    c.key in m || |m| < Max(c.table, lim)
  }

  /** What a charge adds to a figure of its entry. */
  function Amount(c: Charge, g: Gauge, len: nat): nat {
    match g
    case Volume(dir) => Due(dir == c.dir, len)
    case Syns => Due(c.syn, 1)
  }

  /** What a charge adds to a meter. */
  function Fee(c: Charge, m: Meter, len: nat): nat {
    if m.Of? && m.table == c.table then Amount(c, m.gauge, len) else 0
  }

  lemma ChargedEntry(e: Entry, e': Entry, c: Charge, len: nat, g: Gauge)
    requires e'.flow == Charged(e.flow, c.dir, len) && e'.syn == if c.syn then Add64(e.syn, 1) else e.syn
    ensures Same64(EntryReading(g, e'), EntryReading(g, e) + Amount(c, g, len))
  {
    if g.Volume? {
      ChargedSide(e.flow, c.dir, len, g.dir);
    }
  }

  lemma WithChargeSum(m: map<nat, Entry>, c: Charge, len: nat, lim: Limits, g: Gauge)
    requires Fits(m, c, lim)
    ensures Same64(Sum(WithCharge(m, c, len, lim), EntryReader(g)), Sum(m, EntryReader(g)) + Amount(c, g, len))
  {
    hide Same64, Sum;
    var e := if c.key in m then m[c.key] else NEW_ENTRY;
    var e' := WithCharge(m, c, len, lim)[c.key];
    assert WithCharge(m, c, len, lim) == m[c.key := e'];
    SumUpdate(m, EntryReader(g), c.key, e');
    ChargedEntry(e, e', c, len, g);
    Same64Move(Sum(WithCharge(m, c, len, lim), EntryReader(g)), Sum(m, EntryReader(g)),
               EntryReading(g, e), EntryReading(g, e'), Amount(c, g, len));
  }

  /** A charge only moves the meter of its own table, by the length of the packet unless the table is reduced. */
  lemma ApplyChargeTotal(db: Db, c: Charge, len: nat, lim: Limits, m: Meter)
    requires c.addr in db
    requires m.Own? || m.table != c.table || Fits(Table(db[c.addr].tables, c.table), c, lim)
    ensures Same64(Total(ApplyCharge(db, c, len, lim), m), Total(db, m) + Fee(c, m, len))
  {
    hide Total, Same64, Sum, WithCharge;
    var h := db[c.addr];
    var t := Table(h.tables, c.table);
    var h' := ApplyCharge(db, c, len, lim)[c.addr];
    TotalUpdate(db, m, c.addr, h');
    if m.Of? && m.table == c.table {
      WithChargeSum(t, c, len, lim, m.gauge);
    } else {
      assert Reading(m, h') == Reading(m, h);
      SameSelf(Reading(m, h));
    }
    Same64Move(Total(ApplyCharge(db, c, len, lim), m), Total(db, m), Reading(m, h), Reading(m, h'),
               Fee(c, m, len));
  }

  lemma SameSelf(x: int)
    ensures Same64(x, x + 0)
  {
  }

  /** What a list of charges adds to a meter. */
  ghost function Bill(cs: seq<Charge>, m: Meter, len: nat): nat {
    if cs == [] then 0 else Fee(cs[0], m, len) + Bill(cs[1..], m, len)
  }

  /** None of the charges reduces a table of kind `t`. */
  ghost predicate AllFit(db: Db, cs: seq<Charge>, len: nat, lim: Limits, t: TableId)
    requires Present(db, cs)
    decreases |cs|
  {
    cs == [] ||
    ((cs[0].table == t ==> Fits(Table(db[cs[0].addr].tables, t), cs[0], lim))
     && AllFit(ApplyCharge(db, cs[0], len, lim), cs[1..], len, lim, t))
  }

  lemma Same64Trans(x: int, y: int, z: int, c: nat, d: nat)
    requires Same64(x, y + c) && Same64(z, x + d)
    ensures Same64(z, y + (c + d))
  {
  }

  lemma {:induction false} ApplyAllTotal(db: Db, cs: seq<Charge>, len: nat, lim: Limits, m: Meter)
    requires Present(db, cs) && (m.Own? || AllFit(db, cs, len, lim, m.table))
    ensures Same64(Total(ApplyAll(db, cs, len, lim), m), Total(db, m) + Bill(cs, m, len))
    decreases |cs|
  {
    hide Total, Same64, ApplyCharge, Fits;
    if cs == [] {
      SameSelf(Total(db, m));
    } else {
      var d := ApplyCharge(db, cs[0], len, lim);
      ApplyChargeTotal(db, cs[0], len, lim, m);
      ApplyAllTotal(d, cs[1..], len, lim, m);
      Same64Trans(Total(d, m), Total(db, m), Total(ApplyAll(d, cs[1..], len, lim), m),
                  Fee(cs[0], m, len), Bill(cs[1..], m, len));
    }
  }

  lemma {:induction false} BillConcat(a: seq<Charge>, b: seq<Charge>, m: Meter, len: nat)
    ensures Bill(a + b, m, len) == Bill(a, m, len) + Bill(b, m, len)
  {
    if a == [] {
      assert a + b == b;
    } else {
      assert (a + b)[1..] == a[1..] + b;
      BillConcat(a[1..], b, m, len);
    }
  }

  lemma BillIf(b: bool, c: Charge, m: Meter, len: nat)
    ensures Bill(If(b, c), m, len) == if b then Fee(c, m, len) else 0
  {
  }

  lemma OwnBill(cs: seq<Charge>, dir: Dir, len: nat)
    ensures Bill(cs, Own(dir), len) == 0
  {
  }

  lemma ProtoBill(v: Arrival, o: Options, m: Meter)
    requires m.Of? && m.table != Protos
    ensures Bill(ProtoCharges(v, o), m, v.p.len) == 0
  {
    if v.p.proto != PROTO_INVALID {
      var a, b := Charge(v.p.src, Protos, v.p.proto, Out, false), Charge(v.p.dst, Protos, v.p.proto, In, false);
      BillConcat(If(HasSource(v, o), a), If(HasDest(v, o), b), m, v.p.len);
      BillIf(HasSource(v, o), a, m, v.p.len);
      BillIf(HasDest(v, o), b, m, v.p.len);
    }
  }

  /** What a packet adds to the ports of hosts, or to their remote ports. */
  function PortDue(v: Arrival, o: Options, syn: bool, g: Gauge): nat {
    match g
    case Volume(Out) => Due(v.p.srcPort <= o.highestPort, v.p.len)
    case Volume(In) => Due(v.p.dstPort <= o.highestPort, v.p.len)
    case Syns => Due(syn && v.p.dstPort <= o.highestPort, 1)
  }

  lemma PortBill(v: Arrival, o: Options, local: TableId, remote: TableId, syn: bool, m: Meter)
    requires !o.localOnly && local != remote && m.Of?
    ensures Bill(PortCharges(v, o, local, remote, syn), m, v.p.len)
            == if m.table != local && m.table != remote then 0 else PortDue(v, o, syn, m.gauge)
  {
    hide Bill, If;
    var p, len := v.p, v.p.len;
    var from, to := p.srcPort <= o.highestPort, p.dstPort <= o.highestPort;
    var c1, c2 := Charge(p.src, local, p.srcPort, Out, false), Charge(p.dst, local, p.dstPort, In, syn);
    var c3, c4 := Charge(p.dst, remote, p.srcPort, Out, false), Charge(p.src, remote, p.dstPort, In, syn);
    BillConcat(If(from, c1) + If(to, c2) + If(from, c3), If(to, c4), m, len);
    BillConcat(If(from, c1) + If(to, c2), If(from, c3), m, len);
    BillConcat(If(from, c1), If(to, c2), m, len);
    BillIf(from, c1, m, len);
    BillIf(to, c2, m, len);
    BillIf(from, c3, m, len);
    BillIf(to, c4, m, len);
  }

  /** A packet bills the ports of the hosts at its two ends and the remote ports alike. */
  lemma ChargesBalance(v: Arrival, o: Options, g: Gauge)
    requires !o.localOnly
    ensures Bill(Charges(v, o), Of(Tcp, g), v.p.len) == Bill(Charges(v, o), Of(TcpRemote, g), v.p.len)
    ensures Bill(Charges(v, o), Of(Udp, g), v.p.len) == Bill(Charges(v, o), Of(UdpRemote, g), v.p.len)
  {
    ChargesBill(v, o, Of(Tcp, g));
    ChargesBill(v, o, Of(TcpRemote, g));
    ChargesBill(v, o, Of(Udp, g));
    ChargesBill(v, o, Of(UdpRemote, g));
  }

  lemma ChargesBill(v: Arrival, o: Options, m: Meter)
    requires !o.localOnly && m.Of? && m.table != Protos
    ensures Bill(Charges(v, o), m, v.p.len)
            == if o.lim.portsMax == 0 then 0
               else if m.table == Tcp || m.table == TcpRemote then
                 (if v.p.proto == PROTO_TCP then PortDue(v, o, v.p.tcpFlags == TH_SYN, m.gauge) else 0)
               else if v.p.proto == PROTO_UDP then PortDue(v, o, false, m.gauge) else 0
  {
    hide ProtoCharges, PortCharges;
    var tcp, udp := PortCharges(v, o, Tcp, TcpRemote, v.p.tcpFlags == TH_SYN), PortCharges(v, o, Udp, UdpRemote, false);
    ProtoBill(v, o, m);
    PortBill(v, o, Tcp, TcpRemote, v.p.tcpFlags == TH_SYN, m);
    PortBill(v, o, Udp, UdpRemote, false, m);
    BillConcat(ProtoCharges(v, o), tcp, m, v.p.len);
    BillConcat(ProtoCharges(v, o), udp, m, v.p.len);
    BillConcat(ProtoCharges(v, o), [], m, v.p.len);
  }

  lemma HostsTotal(db: Db, v: Arrival, o: Options, m: Meter)
    requires !o.localOnly
    ensures Same64(Total(HostsCharged(db, v, o), m), Total(db, m) + Due(m.Own?, v.p.len))
  {
    hide Total, Same64, SourceCharged, DestCharged;
    var d := SourceCharged(db, v);
    SourceTotal(db, v, m);
    DestTotal(d, v, m);
    Same64Trans(Total(d, m), Total(db, m), Total(DestCharged(d, v), m), Due(m == Own(Out), v.p.len),
                Due(m == Own(In), v.p.len));
    if m.Own? {
      match m.dir
      case In => assert m == Own(In);
      case Out => assert m == Own(Out);
    }
  }

  /** No table of kind `t` is reduced by this packet. */
  ghost predicate NoEviction(s: State, v: Arrival, o: Options, t: TableId) {
    var d := HostsCharged(Reduced(s.db, o.lim), v, o);
    ChargesPresent(Reduced(s.db, o.lim), v, o);
    o.lim.hostsMax == 0 || AllFit(d, Charges(v, o), v.p.len, o.lim, t)
  }

  /** What one packet adds to a meter over live and evicted hosts. */
  lemma StepTotal(s: State, v: Arrival, o: Options, m: Meter)
    requires o.lim.hostsMax > 0 && !o.localOnly && (m.Own? || NoEviction(s, v, o, m.table))
    ensures Same64(Everything(Step(s, v, o), m),
                   Everything(s, m) + (Due(m.Own?, v.p.len) + Bill(Charges(v, o), m, v.p.len)))
  {
    hide Total, Same64, HostsCharged, Charges, ApplyAll, Bill, Reduced;
    var d0 := Reduced(s.db, o.lim);
    var d1 := HostsCharged(d0, v, o);
    var gone := s.gone + [s.db - d0.Keys];
    ChargesPresent(d0, v, o);
    ReducedTotal(s.db, o.lim, m);
    assert gone[..|gone| - 1] == s.gone;
    HostsTotal(d0, v, o, m);
    ApplyAllTotal(d1, Charges(v, o), v.p.len, o.lim, m);
    var d2 := ApplyAll(d1, Charges(v, o), v.p.len, o.lim);
    Same64Trans(Total(d1, m), Total(d0, m), Total(d2, m), Due(m.Own?, v.p.len), Bill(Charges(v, o), m, v.p.len));
    Same64Add(Total(d2, m), Total(d0, m) + (Due(m.Own?, v.p.len) + Bill(Charges(v, o), m, v.p.len)), GoneTotal(gone, m));
  }

  // ----- Whole runs -----

  lemma ResetTotal(m: Meter)
    ensures Everything(RESET, m) == 0
  {
    SumNone(RESET.db, HostReader(m));
  }

  lemma StepBytes(s: State, v: Arrival, o: Options)
    ensures Step(s, v, o).bytes == Add64(s.bytes, v.p.len)
  {
    hide Reduced, PacketCharged;
  }

  /** Every byte that came past is in some host's counters, live or evicted, once as sent and once as received. */
  lemma {:induction false} BytesConserved(vs: seq<Arrival>, o: Options, dir: Dir)
    requires o.lim.hostsMax > 0 && !o.localOnly
    ensures Same64(Everything(Run(RESET, vs, o), Own(dir)), Run(RESET, vs, o).bytes)
  {
    hide Everything, Same64, Bill, Charges, Step;
    if vs == [] {
      ResetTotal(Own(dir));
      SameSelf(0);
    } else {
      var n := |vs| - 1;
      var s, v := Run(RESET, vs[..n], o), vs[n];
      BytesConserved(vs[..n], o, dir);
      StepTotal(s, v, o, Own(dir));
      OwnBill(Charges(v, o), dir, v.p.len);
      StepBytes(s, v, o);
      Same64Wrap(Everything(Step(s, v, o), Own(dir)), Everything(s, Own(dir)), s.bytes, v.p.len);
    }
  }

  lemma Same64Wrap(x: int, y: int, b: nat, len: nat)
    requires Same64(x, y + (len + 0)) && Same64(y, b)
    ensures Same64(x, Add64(b, len))
  {
  }

  ghost predicate NeverEvicts(vs: seq<Arrival>, o: Options, t: TableId) {
    forall i :: 0 <= i < |vs| ==> NoEviction(Run(RESET, vs[..i], o), vs[i], o, t)
  }

  lemma NeverEvictsFront(vs: seq<Arrival>, o: Options, t: TableId)
    requires vs != [] && NeverEvicts(vs, o, t)
    ensures var n := |vs| - 1;
            NeverEvicts(vs[..n], o, t) && NoEviction(Run(RESET, vs[..n], o), vs[n], o, t)
  {
    hide NoEviction;
    var n := |vs| - 1;
    forall i | 0 <= i < n
      ensures NoEviction(Run(RESET, vs[..n][..i], o), vs[..n][i], o, t)
    {
      assert vs[..n][..i] == vs[..i];
    }
  }

  /** The ports of hosts and the ports they talk to. */
  predicate Opposite(local: TableId, remote: TableId) {
    (local == Tcp && remote == TcpRemote) || (local == Udp && remote == UdpRemote)
  }

  /** With no port evicted, all hosts together have as many bytes and SYN packets on their own ports as on remote ports. */
  lemma {:induction false} PortsBalance(vs: seq<Arrival>, o: Options, local: TableId, remote: TableId, g: Gauge)
    requires o.lim.hostsMax > 0 && !o.localOnly && Opposite(local, remote)
    requires NeverEvicts(vs, o, local) && NeverEvicts(vs, o, remote)
    ensures Same64(Everything(Run(RESET, vs, o), Of(local, g)), Everything(Run(RESET, vs, o), Of(remote, g)))
  {
    hide Everything, Same64, Bill, Charges, NeverEvicts, Step;
    if vs == [] {
      ResetTotal(Of(local, g));
      ResetTotal(Of(remote, g));
      SameSelf(0);
    } else {
      var n := |vs| - 1;
      NeverEvictsFront(vs, o, local);
      NeverEvictsFront(vs, o, remote);
      PortsBalance(vs[..n], o, local, remote, g);
      ChargesBalance(vs[n], o, g);
      StepBalance(Run(RESET, vs[..n], o), vs[n], o, Of(local, g), Of(remote, g));
    }
  }

  lemma StepBalance(s: State, v: Arrival, o: Options, m: Meter, k: Meter)
    requires o.lim.hostsMax > 0 && !o.localOnly && m.Of? && k.Of?
    requires NoEviction(s, v, o, m.table) && NoEviction(s, v, o, k.table)
    requires Same64(Everything(s, m), Everything(s, k)) && Bill(Charges(v, o), m, v.p.len) == Bill(Charges(v, o), k, v.p.len)
    ensures Same64(Everything(Step(s, v, o), m), Everything(Step(s, v, o), k))
  {
    hide Everything, Bill, Charges, NoEviction, Step;
    StepTotal(s, v, o, m);
    StepTotal(s, v, o, k);
    Same64Add(Everything(s, m), Everything(s, k), Bill(Charges(v, o), m, v.p.len));
  }

  /** The bytes of the packets whose protocol could be decoded. */
  function DecodedBytes(vs: seq<Arrival>): nat {
    if vs == [] then 0
    else DecodedBytes(vs[..|vs| - 1]) + Due(vs[|vs| - 1].p.proto != PROTO_INVALID, vs[|vs| - 1].p.len)
  }

  lemma ProtosBill(v: Arrival, o: Options, dir: Dir)
    requires !o.localOnly
    ensures Bill(Charges(v, o), Of(Protos, Volume(dir)), v.p.len) == Due(v.p.proto != PROTO_INVALID, v.p.len)
  {
    hide PortCharges, Bill;
    var m, len := Of(Protos, Volume(dir)), v.p.len;
    var a, b := Charge(v.p.src, Protos, v.p.proto, Out, false), Charge(v.p.dst, Protos, v.p.proto, In, false);
    var tcp, udp := PortCharges(v, o, Tcp, TcpRemote, v.p.tcpFlags == TH_SYN), PortCharges(v, o, Udp, UdpRemote, false);
    BillConcat(ProtoCharges(v, o), tcp, m, len);
    BillConcat(ProtoCharges(v, o), udp, m, len);
    BillConcat(ProtoCharges(v, o), [], m, len);
    PortBill(v, o, Tcp, TcpRemote, v.p.tcpFlags == TH_SYN, m);
    PortBill(v, o, Udp, UdpRemote, false, m);
    BillNone(m, len);
    BillConcat(If(true, a), If(true, b), m, len);
    BillIf(true, a, m, len);
    BillIf(true, b, m, len);
    match dir
    case In =>
    case Out =>
  }

  lemma BillNone(m: Meter, len: nat)
    ensures Bill([], m, len) == 0
  {
  }

  /** All decoded bytes are in some table of protocols, once as sent and once as received: those tables lose nothing. */
  lemma {:induction false} ProtosConserved(vs: seq<Arrival>, o: Options, dir: Dir)
    requires ValidOptions(o) && o.lim.hostsMax > 0 && !o.localOnly
    requires forall i :: 0 <= i < |vs| ==> ValidPacket(vs[i].p)
    ensures Same64(Everything(Run(RESET, vs, o), Of(Protos, Volume(dir))), DecodedBytes(vs))
  {
    WideNeverEvicts(vs, o, Protos);
    ProtosSummed(vs, o, dir);
  }

  lemma {:induction false} ProtosSummed(vs: seq<Arrival>, o: Options, dir: Dir)
    requires o.lim.hostsMax > 0 && !o.localOnly && NeverEvicts(vs, o, Protos)
    ensures Same64(Everything(Run(RESET, vs, o), Of(Protos, Volume(dir))), DecodedBytes(vs))
  {
    hide Everything, Same64, Due, NeverEvicts, NoEviction, Step;
    if vs == [] {
      ResetTotal(Of(Protos, Volume(dir)));
      SameSelf(0);
    } else {
      var n := |vs| - 1;
      NeverEvictsFront(vs, o, Protos);
      ProtosSummed(vs[..n], o, dir);
      ProtosStep(Run(RESET, vs[..n], o), vs[n], o, dir, DecodedBytes(vs[..n]));
    }
  }

  lemma ProtosStep(s: State, v: Arrival, o: Options, dir: Dir, sum: nat)
    requires o.lim.hostsMax > 0 && !o.localOnly && NoEviction(s, v, o, Protos)
    requires Same64(Everything(s, Of(Protos, Volume(dir))), sum)
    ensures Same64(Everything(Step(s, v, o), Of(Protos, Volume(dir))), sum + Due(v.p.proto != PROTO_INVALID, v.p.len))
  {
    hide Everything, Same64, Bill, Charges, NoEviction, Step;
    var m := Of(Protos, Volume(dir));
    StepTotal(s, v, o, m);
    ProtosBill(v, o, dir);
    var due := Due(v.p.proto != PROTO_INVALID, v.p.len);
    Same64Add(Everything(s, m), sum, due);
    Same64Chain(Everything(Step(s, v, o), m), Everything(s, m) + due, sum + due);
  }

  lemma Same64Chain(x: int, y: int, z: int)
    requires Same64(x, y) && Same64(y, z)
    ensures Same64(x, z)
  {
  }

  // ----- Who was seen -----

  lemma {:induction false} ApplyAllKeeps(db: Db, cs: seq<Charge>, len: nat, lim: Limits, a: Addr)
    requires Present(db, cs) && a in db
    ensures var r := ApplyAll(db, cs, len, lim);
            r[a] == db[a].(tables := r[a].tables)
    decreases |cs|
  {
    if cs != [] {
      hide WithCharge, WithTable;
      ApplyAllKeeps(ApplyCharge(db, cs[0], len, lim), cs[1..], len, lim, a);
    }
  }

  /**
   A packet shows that its source is there, but not its destination; both ends keep its MAC address and ports,
   and nothing is learnt about other hosts.
   */
  lemma LastSeenRule(s: State, v: Arrival, o: Options, a: Addr)
    requires o.lim.hostsMax > 0 && a in Step(s, v, o).db
    ensures var h, before := Step(s, v, o).db[a], HostGet(Reduced(s.db, o.lim), a);
            && h.lastSeen == (if a == v.p.src && HasSource(v, o) then v.now else before.lastSeen)
            && h.mac == (if a == v.p.dst && HasDest(v, o) then v.p.dstMac
                         else if a == v.p.src && HasSource(v, o) then v.p.srcMac else before.mac)
            && h.latest == (if (a == v.p.src && HasSource(v, o)) || (a == v.p.dst && HasDest(v, o))
                            then Some(Latest(v.p.proto, v.p.srcPort, v.p.dstPort)) else before.latest)
            && h.dns == before.dns
  {
    hide Reduced, Charges, ApplyAll;
    var d := Reduced(s.db, o.lim);
    ChargesPresent(d, v, o);
    ApplyAllKeeps(HostsCharged(d, v, o), Charges(v, o), v.p.len, o.lim, a);
  }

  // ----- Limits -----

  /** The keys that a table can come to hold. */
  predicate Allowed(t: TableId, key: nat, o: Options) {
    if t == Protos then key < 256 && key != PROTO_INVALID else key <= o.highestPort && key < 0x1_0000
  }

  ghost predicate SoundTable(t: TableId, m: map<nat, Entry>, o: Options) {
    && (forall k :: k in m ==> Allowed(t, k, o) && CleanFlow(m[k].flow))
    && (t != Protos ==> |m| <= o.lim.portsMax)
    && (t != Tcp && t != TcpRemote ==> forall k :: k in m ==> m[k].syn == 0)
  }

  ghost predicate SoundHost(h: Host, o: Options) {
    CleanFlow(h.flow) && |h.mac| == 6 && forall t :: SoundTable(t, Table(h.tables, t), o)
  }

  ghost predicate SoundHosts(db: Db, o: Options) {
    forall a :: a in db ==> SoundHost(db[a], o)
  }

  /**
   Every bucket adds up, every MAC address has its six bytes,
   every table keeps to its keys and its limit, and so does the table of hosts.
   */
  ghost predicate Sound(db: Db, o: Options) {
    SoundHosts(db, o) && |db| <= (if o.lim.hostsMax == 0 then 0 else o.lim.hostsMax + 1)
  }

  lemma ChargedClean(f: Flow, dir: Dir, len: nat)
    requires CleanFlow(f)
    ensures CleanFlow(Charged(f, dir, len))
  {
    AddTwice(f.inn, f.out, len);
    AddTwice(f.out, f.inn, len);
  }

  lemma AddTwice(x: u64, y: u64, len: nat)
    ensures Add64(Add64(x, len), y) == Add64(Add64(x, y), len)
  {
    var a, b := (x + len) / U64, (x + y) / U64;
    Multiples(x + len + y - a * U64, a);
    Multiples(x + y + len - b * U64, b);
  }

  lemma Multiples(x: int, k: int)
    ensures (x + k * U64) % U64 == x % U64
  {
  }

  ghost function Below(n: nat): (s: set<nat>)
    ensures forall k: nat :: k in s <==> k < n
    ensures |s| == n
  {
    if n == 0 then {} else Below(n - 1) + {n - 1}
  }

  /** A table of protocols has at most 255 entries: its count fits a byte, and it is never reduced. */
  lemma ProtosBound(m: map<nat, Entry>, o: Options)
    requires SoundTable(Protos, m, o)
    ensures |m| <= 255
  {
    SubsetSize(m.Keys, Below(256) - {PROTO_INVALID});
  }

  /** With a limit above the highest port accounted for, a table of ports is never reduced. */
  lemma PortsFit(t: TableId, m: map<nat, Entry>, o: Options, key: nat)
    requires SoundTable(t, m, o) && t != Protos && Allowed(t, key, o) && key !in m
    ensures |m| <= o.highestPort && |m| < 0x1_0000
  {
    var n := if o.highestPort < 0x1_0000 then o.highestPort + 1 else 0x1_0000;
    SubsetSize(m.Keys, Below(n) - {key});
  }

  predicate SoundCharge(c: Charge, o: Options) {
    && Allowed(c.table, c.key, o)
    && (c.table != Protos ==> o.lim.portsMax > 0)
    && (c.syn ==> c.table == Tcp || c.table == TcpRemote)
  }

  lemma FindOrInsertSound(t: TableId, m: map<nat, Entry>, o: Options, key: nat)
    requires ValidOptions(o) && SoundTable(t, m, o) && Allowed(t, key, o) && (t != Protos ==> o.lim.portsMax > 0)
    ensures SoundTable(t, FindOrInsert(m, Max(t, o.lim), Keep(t, o.lim), key), o)
  {
    hide Roomy, CleanFlow, Allowed;
    if t == Protos {
      ProtosBound(m, o);
    }
    if key !in m {
      InsertSound(t, m, Roomy(m, Max(t, o.lim), Keep(t, o.lim)), o, key);
    }
  }

  lemma InsertSound(t: TableId, m: map<nat, Entry>, n: map<nat, Entry>, o: Options, key: nat)
    requires SoundTable(t, m, o) && Within(n, m) && Allowed(t, key, o) && key !in n
    requires t != Protos ==> |n| < o.lim.portsMax
    ensures SoundTable(t, n[key := NEW_ENTRY], o)
  {
    hide Allowed;
    assert n[key := NEW_ENTRY].Keys == n.Keys + {key};
  }

  lemma WithChargeSound(m: map<nat, Entry>, c: Charge, len: nat, o: Options)
    requires ValidOptions(o) && SoundTable(c.table, m, o) && SoundCharge(c, o)
    ensures SoundTable(c.table, WithCharge(m, c, len, o.lim), o)
  {
    hide FindOrInsert, CleanFlow, Charged, Allowed;
    FindOrInsertSound(c.table, m, o, c.key);
    var n := FindOrInsert(m, Max(c.table, o.lim), Keep(c.table, o.lim), c.key);
    ChargedClean(n[c.key].flow, c.dir, len);
    assert WithCharge(m, c, len, o.lim).Keys == n.Keys;
  }

  lemma ApplyChargeSound(db: Db, c: Charge, len: nat, o: Options)
    requires ValidOptions(o) && SoundHosts(db, o) && c.addr in db && SoundCharge(c, o)
    ensures SoundHosts(ApplyCharge(db, c, len, o.lim), o)
  {
    hide SoundTable, WithCharge, CleanFlow, Allowed;
    WithChargeSound(Table(db[c.addr].tables, c.table), c, len, o);
  }

  ghost predicate SoundCharges(cs: seq<Charge>, o: Options) {
    forall i :: 0 <= i < |cs| ==> SoundCharge(cs[i], o)
  }

  lemma {:induction false} ApplyAllSound(db: Db, cs: seq<Charge>, len: nat, o: Options)
    requires ValidOptions(o) && SoundHosts(db, o) && Present(db, cs) && SoundCharges(cs, o)
    ensures SoundHosts(ApplyAll(db, cs, len, o.lim), o)
    decreases |cs|
  {
    hide SoundHosts, SoundCharge, ApplyCharge;
    if cs != [] {
      ApplyChargeSound(db, cs[0], len, o);
      ApplyAllSound(ApplyCharge(db, cs[0], len, o.lim), cs[1..], len, o);
    }
  }

  lemma ProtoSound(v: Arrival, o: Options)
    requires ValidPacket(v.p)
    ensures SoundCharges(ProtoCharges(v, o), o)
  {
  }

  lemma PortSound(v: Arrival, o: Options, local: TableId, remote: TableId, syn: bool)
    requires ValidPacket(v.p) && o.lim.portsMax > 0 && local != Protos && remote != Protos
    requires syn ==> (local == Tcp || local == TcpRemote) && (remote == Tcp || remote == TcpRemote)
    ensures SoundCharges(PortCharges(v, o, local, remote, syn), o)
  {
  }

  lemma ChargesSound(v: Arrival, o: Options)
    requires ValidPacket(v.p)
    ensures SoundCharges(Charges(v, o), o)
  {
    hide ProtoCharges, PortCharges, SoundCharge;
    ProtoSound(v, o);
    if o.lim.portsMax > 0 {
      PortSound(v, o, Tcp, TcpRemote, v.p.tcpFlags == TH_SYN);
      PortSound(v, o, Udp, UdpRemote, false);
    }
  }

  lemma NewHostSound(o: Options)
    ensures SoundHost(NEW_HOST, o)
  {
  }

  lemma HostsChargedSound(db: Db, v: Arrival, o: Options)
    requires SoundHosts(db, o) && ValidPacket(v.p)
    ensures SoundHosts(HostsCharged(db, v, o), o) && |HostsCharged(db, v, o)| <= |db| + 2
  {
    hide SoundHost;
    NewHostSound(o);
    var d := if HasSource(v, o) then SourceCharged(db, v) else db;
    ChargedHostSound(HostGet(db, v.p.src), SourceCharged(db, v)[v.p.src], Out, v.p.len, o);
    ChargedHostSound(HostGet(d, v.p.dst), DestCharged(d, v)[v.p.dst], In, v.p.len, o);
    UpdateSize(db, v.p.src, SourceCharged(db, v)[v.p.src]);
    UpdateSize(d, v.p.dst, DestCharged(d, v)[v.p.dst]);
  }

  lemma UpdateSize(db: Db, a: Addr, h: Host)
    ensures |db[a := h]| <= |db| + 1
  {
    assert db[a := h].Keys == db.Keys + {a};
  }

  lemma ChargedHostSound(h: Host, h': Host, dir: Dir, len: nat, o: Options)
    requires SoundHost(h, o) && h'.flow == Charged(h.flow, dir, len) && h'.tables == h.tables && |h'.mac| == 6
    ensures SoundHost(h', o)
  {
    ChargedClean(h.flow, dir, len);
  }

  /** When hosts are to be reduced there are more than will be kept, and there is room for two afterwards. */
  lemma ReducedRoom(db: Db, o: Options)
    requires ValidOptions(o) && o.lim.hostsMax > 0
    ensures |db| >= o.lim.hostsMax ==> |db| > o.lim.hostsKeep
    ensures |Reduced(db, o.lim)| < o.lim.hostsMax
  {
    TrimKeeps(db, HostTotal, o.lim.hostsKeep);
  }

  lemma StepSound(s: State, v: Arrival, o: Options)
    requires ValidOptions(o) && ValidPacket(v.p) && Sound(s.db, o)
    ensures Sound(Step(s, v, o).db, o)
  {
    if o.lim.hostsMax > 0 {
      hide SoundHost, HostsCharged, Charges, ApplyAll, Reduced, SoundCharges;
      var d := Reduced(s.db, o.lim);
      ReducedRoom(s.db, o);
      ReducedWithin(s.db, o);
      HostsChargedSound(d, v, o);
      ChargesPresent(d, v, o);
      ChargesSound(v, o);
      var e := HostsCharged(d, v, o);
      ApplyAllSound(e, Charges(v, o), v.p.len, o);
      var f := ApplyAll(e, Charges(v, o), v.p.len, o.lim);
      assert |f| == |f.Keys| == |e.Keys| == |e|;
    }
  }

  lemma ReducedWithin(db: Db, o: Options)
    requires SoundHosts(db, o)
    ensures SoundHosts(Reduced(db, o.lim), o)
  {
  }

  /** So it is after every run of packets. */
  lemma {:induction false} AlwaysSound(vs: seq<Arrival>, o: Options)
    requires ValidOptions(o) && forall i :: 0 <= i < |vs| ==> ValidPacket(vs[i].p)
    ensures Sound(Run(RESET, vs, o).db, o)
  {
    hide Sound, Step;
    if vs == [] {
      ResetSound(o);
    } else {
      var n := |vs| - 1;
      AlwaysSound(vs[..n], o);
      StepSound(Run(RESET, vs[..n], o), vs[n], o);
    }
  }

  lemma ResetSound(o: Options)
    ensures Sound(RESET.db, o)
  {
  }

  /** Tables of protocols are never reduced, nor are tables of ports with a limit above the highest port accounted for. */
  predicate Ample(t: TableId, o: Options) {
    t == Protos || o.lim.portsMax > o.highestPort || o.lim.portsMax >= 0x1_0000
  }

  lemma {:induction false} AllFitWide(db: Db, cs: seq<Charge>, len: nat, o: Options, t: TableId)
    requires ValidOptions(o) && SoundHosts(db, o) && Present(db, cs) && SoundCharges(cs, o) && Ample(t, o)
    ensures AllFit(db, cs, len, o.lim, t)
    decreases |cs|
  {
    if cs != [] {
      hide ApplyCharge, SoundTable;
      var c := cs[0];
      var m := Table(db[c.addr].tables, c.table);
      assert SoundHost(db[c.addr], o);
      if c.table == Protos {
        ProtosBound(m, o);
      } else if c.key !in m {
        PortsFit(c.table, m, o, c.key);
      }
      ApplyChargeSound(db, c, len, o);
      AllFitWide(ApplyCharge(db, c, len, o.lim), cs[1..], len, o, t);
    }
  }

  lemma WideNeverEvicts(vs: seq<Arrival>, o: Options, t: TableId)
    requires ValidOptions(o) && Ample(t, o) && forall i :: 0 <= i < |vs| ==> ValidPacket(vs[i].p)
    ensures NeverEvicts(vs, o, t)
  {
    hide HostsCharged, Charges, Reduced, SoundHosts, SoundCharges, Present, AllFit;
    forall i | 0 <= i < |vs|
      ensures NoEviction(Run(RESET, vs[..i], o), vs[i], o, t)
    {
      var d := Reduced(Run(RESET, vs[..i], o).db, o.lim);
      AlwaysSound(vs[..i], o);
      ReducedWithin(Run(RESET, vs[..i], o).db, o);
      HostsChargedSound(d, vs[i], o);
      ChargesPresent(d, vs[i], o);
      ChargesSound(vs[i], o);
      AllFitWide(HostsCharged(d, vs[i], o), Charges(vs[i], o), vs[i].p.len, o, t);
    }
  }

  // ----- Counts in exports -----

  /** The keys that some charges give a table of a host. */
  ghost function KeysOf(cs: seq<Charge>, a: Addr, t: TableId): set<nat> {
    if cs == [] then {} else (if cs[0].addr == a && cs[0].table == t then {cs[0].key} else {}) + KeysOf(cs[1..], a, t)
  }

  /** When nothing is reduced, a table gains the keys of its charges. */
  lemma {:induction false} ApplyAllKeys(db: Db, cs: seq<Charge>, len: nat, lim: Limits, a: Addr, t: TableId)
    requires Present(db, cs) && a in db && AllFit(db, cs, len, lim, t)
    ensures Table(ApplyAll(db, cs, len, lim)[a].tables, t).Keys == Table(db[a].tables, t).Keys + KeysOf(cs, a, t)
    decreases |cs|
  {
    hide ApplyCharge, Table, Fits;
    if cs != [] {
      ApplyChargeKeys(db, cs[0], len, lim, a, t);
      ApplyAllKeys(ApplyCharge(db, cs[0], len, lim), cs[1..], len, lim, a, t);
    }
  }

  lemma ApplyChargeKeys(db: Db, c: Charge, len: nat, lim: Limits, a: Addr, t: TableId)
    requires c.addr in db && a in db && (c.table == t ==> Fits(Table(db[c.addr].tables, c.table), c, lim))
    ensures Table(ApplyCharge(db, c, len, lim)[a].tables, t).Keys
            == Table(db[a].tables, t).Keys + if c.addr == a && c.table == t then {c.key} else {}
  {
    hide WithTable, Table, WithCharge;
    if c.table == t {
      WithChargeKeys(Table(db[c.addr].tables, c.table), c, len, lim);
    }
  }

  lemma WithChargeKeys(m: map<nat, Entry>, c: Charge, len: nat, lim: Limits)
    requires Fits(m, c, lim)
    ensures WithCharge(m, c, len, lim).Keys == m.Keys + {c.key}
  {
  }

  const NO_MAC: seq<bv8> := [0, 0, 0, 0, 0, 0]

  /** A TCP packet that a host sends to itself, from and to port `i`. */
  function Loopback(a: Addr, i: nat): Arrival {
    Arrival(Packet(a, a, 0, PROTO_TCP, 0, i, i, NO_MAC, NO_MAC), true, true, 1)
  }

  function Loopbacks(a: Addr, n: nat): seq<Arrival> {
    if n == 0 then [] else Loopbacks(a, n - 1) + [Loopback(a, n - 1)]
  }

  lemma LoopbackKeys(a: Addr, i: nat, o: Options)
    requires o.lim.portsMax > 0 && i <= o.highestPort
    ensures KeysOf(Charges(Loopback(a, i), o), a, Tcp) == {i}
  {
    var c1, c2 := Charge(a, Protos, PROTO_TCP, Out, false), Charge(a, Protos, PROTO_TCP, In, false);
    var c3, c4 := Charge(a, Tcp, i, Out, false), Charge(a, Tcp, i, In, false);
    var c5, c6 := Charge(a, TcpRemote, i, Out, false), Charge(a, TcpRemote, i, In, false);
    assert Charges(Loopback(a, i), o) == [c1, c2, c3, c4, c5, c6];
    var k6, k5, k4 := [c6], [c5, c6], [c4, c5, c6];
    assert k6[1..] == [] && k5[1..] == k6 && k4[1..] == k5;
    assert KeysOf(k6, a, Tcp) == {} && KeysOf(k5, a, Tcp) == {};
    assert KeysOf(k4, a, Tcp) == {i};
    var k3, k2, k1 := [c3, c4, c5, c6], [c2, c3, c4, c5, c6], [c1, c2, c3, c4, c5, c6];
    assert k3[1..] == k4 && k2[1..] == k3 && k1[1..] == k2;
    assert KeysOf(k3, a, Tcp) == {i} && KeysOf(k2, a, Tcp) == {i};
  }

  lemma {:induction false} LoopbacksValid(a: Addr, n: nat)
    requires n <= 0x1_0000
    ensures |Loopbacks(a, n)| == n && forall i :: 0 <= i < n ==> ValidPacket(Loopbacks(a, n)[i].p)
  {
    if n > 0 {
      LoopbacksValid(a, n - 1);
    }
  }

  /** The database after `n` such packets. */
  ghost predicate Filled(db: Db, a: Addr, n: nat) {
    if n == 0 then db == map[] else db.Keys == {a} && Table(db[a].tables, Tcp).Keys == Below(n)
  }

  lemma FilledStep(s: State, a: Addr, n: nat, o: Options)
    requires o.lim.hostsMax >= 2 && o.lim.portsMax > 0 && n <= o.highestPort && Filled(s.db, a, n)
    requires NoEviction(s, Loopback(a, n), o, Tcp)
    ensures Filled(Step(s, Loopback(a, n), o).db, a, n + 1)
  {
    hide Step, NoEviction;
    LoopbackStep(s, a, n, o);
    assert Below(n + 1) == Below(n) + {n};
  }

  /** A host that talks to itself on one port after the other fills its table of ports. */
  lemma {:induction false} LoopbacksFill(a: Addr, n: nat, o: Options)
    requires ValidOptions(o) && o.lim.hostsMax >= 2 && o.lim.portsMax >= 0x1_0000
    requires n <= 0x1_0000 && n <= o.highestPort + 1
    ensures Filled(Run(RESET, Loopbacks(a, n), o).db, a, n)
  {
    if n == 0 {
      assert Loopbacks(a, 0) == [];
    } else {
      hide Run, Step, NoEviction, NeverEvicts, Filled, Loopbacks, Loopback, ValidPacket;
      var all, vs := Loopbacks(a, n), Loopbacks(a, n - 1);
      LoopbacksLast(a, n);
      LoopbacksFill(a, n - 1, o);
      LoopbacksValid(a, n);
      WideNeverEvicts(all, o, Tcp);
      NeverEvictsFront(all, o, Tcp);
      FilledStep(Run(RESET, vs, o), a, n - 1, o);
      RunLast(RESET, all, o);
    }
  }

  lemma RunLast(s: State, vs: seq<Arrival>, o: Options)
    requires vs != []
    ensures Run(s, vs, o) == Step(Run(s, vs[..|vs| - 1], o), vs[|vs| - 1], o)
  {
    hide Step;
  }

  lemma LoopbacksLast(a: Addr, n: nat)
    requires 0 < n <= 0x1_0000
    ensures var all := Loopbacks(a, n); |all| == n && all[..n - 1] == Loopbacks(a, n - 1) && all[n - 1] == Loopback(a, n - 1)
  {
    LoopbacksValid(a, n - 1);
  }

  lemma LoopbackStep(s: State, a: Addr, i: nat, o: Options)
    requires o.lim.hostsMax >= 2 && o.lim.portsMax > 0 && i <= o.highestPort && s.db.Keys <= {a}
    requires NoEviction(s, Loopback(a, i), o, Tcp)
    ensures var db := Step(s, Loopback(a, i), o).db;
            db.Keys == {a} && Table(db[a].tables, Tcp).Keys == Table(HostGet(s.db, a).tables, Tcp).Keys + {i}
  {
    hide Charges, HostsCharged, ApplyAll, AllFit, Reduced, Table;
    var v := Loopback(a, i);
    NotReduced(s.db, a, o.lim);
    LoopbackHosts(s.db, a, i, o);
    ChargesPresent(s.db, v, o);
    ApplyAllKeys(HostsCharged(s.db, v, o), Charges(v, o), 0, o.lim, a, Tcp);
    LoopbackKeys(a, i, o);
  }

  lemma NotReduced(db: Db, a: Addr, lim: Limits)
    requires db.Keys <= {a} && lim.hostsMax >= 2
    ensures Reduced(db, lim) == db
  {
    SubsetSize(db.Keys, {a});
  }

  lemma LoopbackHosts(db: Db, a: Addr, i: nat, o: Options)
    requires db.Keys <= {a}
    ensures var d := HostsCharged(db, Loopback(a, i), o);
            d.Keys == {a} && d[a].tables == HostGet(db, a).tables
  {
  }

  /** Every table of ports in the database fits the two bytes that an export has for its count. */
  ghost predicate CountsFit(db: Db) {
    forall a, t :: a in db && t != Protos ==> |Table(db[a].tables, t)| < 0x1_0000
  }

  lemma {:induction false} CountsFitAlways(vs: seq<Arrival>, o: Options)
    requires ValidOptions(o) && forall i :: 0 <= i < |vs| ==> ValidPacket(vs[i].p)
    requires o.lim.portsMax < 0x1_0000 || o.highestPort < 0xFFFF
    ensures CountsFit(Run(RESET, vs, o).db)
  {
    var db := Run(RESET, vs, o).db;
    AlwaysSound(vs, o);
    forall a, t | a in db && t != Protos
      ensures |Table(db[a].tables, t)| < 0x1_0000
    {
      var m := Table(db[a].tables, t);
      assert SoundHost(db[a], o) && SoundTable(t, m, o);
      if o.highestPort < 0xFFFF {
        SubsetSize(m.Keys, Below(0xFFFF));
      }
    }
  }

  lemma WithChargeGrows(m: map<nat, Entry>, c: Charge, len: nat, lim: Limits)
    ensures |WithCharge(m, c, len, lim)| <= |m| + 1
  {
    SubsetSize(WithCharge(m, c, len, lim).Keys, m.Keys + {c.key});
  }

  /** A charge adds at most one entry to any table. */
  lemma {:induction false} ApplyAllGrows(db: Db, cs: seq<Charge>, len: nat, lim: Limits, a: Addr, t: TableId)
    requires Present(db, cs) && a in db
    ensures |Table(ApplyAll(db, cs, len, lim)[a].tables, t)| <= |Table(db[a].tables, t)| + |cs|
    decreases |cs|
  {
    if cs != [] {
      hide WithTable, Table, WithCharge;
      var c := cs[0];
      WithChargeGrows(Table(db[c.addr].tables, c.table), c, len, lim);
      ApplyAllGrows(ApplyCharge(db, c, len, lim), cs[1..], len, lim, a, t);
    }
  }

  lemma ChargesFew(v: Arrival, o: Options)
    ensures |Charges(v, o)| <= 6
  {
  }

  /** With room for one host, every packet starts from an empty table of hosts. */
  lemma OneHostStep(s: State, v: Arrival, o: Options)
    requires ValidOptions(o) && o.lim.hostsMax == 1
    ensures CountsFit(Step(s, v, o).db)
  {
    hide Reduced, HostsCharged, Charges, ApplyAll, Table;
    var d := Reduced(s.db, o.lim);
    ReducedRoom(s.db, o);
    assert d == map[];
    ChargesPresent(d, v, o);
    ChargesFew(v, o);
    var e := HostsCharged(d, v, o);
    forall a, t | a in e
      ensures |Table(ApplyAll(e, Charges(v, o), v.p.len, o.lim)[a].tables, t)| <= 6
    {
      FreshTables(v, o, a, t);
      ApplyAllGrows(e, Charges(v, o), v.p.len, o.lim, a, t);
    }
  }

  lemma FreshTables(v: Arrival, o: Options, a: Addr, t: TableId)
    requires a in HostsCharged(map[], v, o)
    ensures Table(HostsCharged(map[], v, o)[a].tables, t) == map[]
  {
  }

  lemma {:induction false} FewHostsFit(vs: seq<Arrival>, o: Options)
    requires ValidOptions(o) && o.lim.hostsMax <= 1
    ensures CountsFit(Run(RESET, vs, o).db)
  {
    hide CountsFit;
    if vs == [] {
      NoHostsFit(RESET.db);
    } else if o.lim.hostsMax == 0 {
      FewHostsFit(vs[..|vs| - 1], o);
    } else {
      OneHostStep(Run(RESET, vs[..|vs| - 1], o), vs[|vs| - 1], o);
    }
  }

  lemma NoHostsFit(db: Db)
    requires db == map[]
    ensures CountsFit(db)
  {
  }

  /**
   The counts fit after every run if and only if the options leave out at least one port or one entry, or
   leave no host time to fill a table: otherwise the assertion of the exporter can fail.
   */
  lemma CountsFitExactly(o: Options)
    requires ValidOptions(o)
    ensures (forall vs: seq<Arrival> :: (forall i :: 0 <= i < |vs| ==> ValidPacket(vs[i].p)) ==>
               CountsFit(Run(RESET, vs, o).db))
            <==> o.lim.portsMax < 0x1_0000 || o.highestPort < 0xFFFF || o.lim.hostsMax <= 1
  {
    hide Run, CountsFit;
    if o.lim.portsMax < 0x1_0000 || o.highestPort < 0xFFFF || o.lim.hostsMax <= 1 {
      forall vs: seq<Arrival> | forall i :: 0 <= i < |vs| ==> ValidPacket(vs[i].p)
        ensures CountsFit(Run(RESET, vs, o).db)
      {
        if o.lim.hostsMax <= 1 {
          FewHostsFit(vs, o);
        } else {
          CountsFitAlways(vs, o);
        }
      }
    } else {
      var a: Addr := Addr(IPv4, [127, 0, 0, 1]);
      LoopbacksValid(a, 0x1_0000);
      LoopbacksOverflow(a, o);
    }
  }

  lemma LoopbacksOverflow(a: Addr, o: Options)
    requires ValidOptions(o) && o.lim.hostsMax >= 2 && o.lim.portsMax >= 0x1_0000 && o.highestPort >= 0xFFFF
    ensures !CountsFit(Run(RESET, Loopbacks(a, 0x1_0000), o).db)
  {
    hide Run, Loopbacks;
    LoopbacksFill(a, 0x1_0000, o);
    var db := Run(RESET, Loopbacks(a, 0x1_0000), o).db;
    assert a in db && |Table(db[a].tables, Tcp)| == |Table(db[a].tables, Tcp).Keys| == 0x1_0000;
  }

  // ----- The accounting code -----

  ghost function GraphsCharged(rs: seq<Ring>, v: Arrival): (qs: seq<Ring>)
    requires ValidRings(rs)
    ensures ValidRings(qs)
  {
    if v.fromLocal && !v.toLocal then GraphDb.AccountedAll(rs, v.p.len, Out)
    else if v.toLocal && !v.fromLocal then GraphDb.AccountedAll(rs, v.p.len, In)
    else rs
  }

  class Accounting {
    const o: Options
    const graphs: GraphDb.Graphs
    var db: Db
    var bytes: u64
    var packets: u64
    /** Hosts that reductions have evicted so far. */
    ghost var gone: seq<Db>

    constructor (o: Options, graphs: GraphDb.Graphs)
      ensures this.o == o && this.graphs == graphs && S() == RESET
    {
      this.o, this.graphs := o, graphs;
      db, bytes, packets, gone := map[], 0, 0, [];
    }

    ghost function S(): State
      reads this
    {
      State(db, gone, bytes, packets)
    }

    /** hosts_db_reset() and graph_reset() */
    method Reset(mono: int, wall: int)
      requires graphs.Valid()
      modifies this, graphs, graphs.Arrays()
      ensures S() == RESET
      ensures graphs.Valid() && graphs.startMono == mono && graphs.startReal == wall && graphs.lastReal == 0
      ensures graphs.Rings() == GraphDb.ZeroedThose(old(graphs.Rings()), [true, true, true, true])
    {
      hide GraphDb.ZeroedThose;
      graphs.Reset(mono, wall);
      db, bytes, packets, gone := map[], 0, 0, [];
    }

    /** Finds or makes the entry of a table of a host that is in the database, and adds to it. */
    method Bump(a: Addr, t: TableId, key: nat, dir: Dir, len: nat, syn: bool)
      requires a in db
      modifies this`db
      ensures db == ApplyCharge(old(db), Charge(a, t, key, dir, syn), len, o.lim)
    {
      var h := db[a];
      var m := FindOrInsert(Table(h.tables, t), Max(t, o.lim), Keep(t, o.lim), key);
      var e := m[key];
      e := e.(flow := Charged(e.flow, dir, len));
      if syn {
        e := e.(syn := Add64(e.syn, 1));
      }
      db := db[a := h.(tables := WithTable(h.tables, t, m[key := e]))];
    }

    /** The branch for TCP or for UDP. */
    method AcctPorts(v: Arrival, local: TableId, remote: TableId, syn: bool)
      requires Present(db, PortCharges(v, o, local, remote, syn))
      modifies this`db
      ensures db == ApplyAll(old(db), PortCharges(v, o, local, remote, syn), v.p.len, o.lim)
    {
      hide ApplyCharge;
      var p := v.p;
      var hs, hd := HasSource(v, o), HasDest(v, o);
      var from, to := p.srcPort <= o.highestPort, p.dstPort <= o.highestPort;
      ghost var c1, c2 := Charge(p.src, local, p.srcPort, Out, false), Charge(p.dst, local, p.dstPort, In, syn);
      ghost var c3, c4 := Charge(p.dst, remote, p.srcPort, Out, false), Charge(p.src, remote, p.dstPort, In, syn);
      Ladder(db, from && hs, c1, to && hd, c2, from && hd, c3, to && hs, c4, p.len, o.lim);
      if from && hs {
        Bump(p.src, local, p.srcPort, Out, p.len, false);
      }
      if to && hd {
        Bump(p.dst, local, p.dstPort, In, p.len, syn);
      }
      if from && hd {
        Bump(p.dst, remote, p.srcPort, Out, p.len, false);
      }
      if to && hs {
        Bump(p.src, remote, p.dstPort, In, p.len, syn);
      }
    }

    method AcctProtos(v: Arrival)
      requires Present(db, ProtoCharges(v, o))
      modifies this`db
      ensures db == ApplyAll(old(db), ProtoCharges(v, o), v.p.len, o.lim)
    {
      hide ApplyCharge;
      if v.p.proto == PROTO_INVALID {
        return;
      }
      var hs, hd := HasSource(v, o), HasDest(v, o);
      ghost var c1, c2 := Charge(v.p.src, Protos, v.p.proto, Out, false), Charge(v.p.dst, Protos, v.p.proto, In, false);
      ApplyConcat(db, If(hs, c1), If(hd, c2), v.p.len, o.lim);
      ApplyIf(db, hs, c1, v.p.len, o.lim);
      ApplyIf(Maybe(db, hs, c1, v.p.len, o.lim), hd, c2, v.p.len, o.lim);
      if hs {
        Bump(v.p.src, Protos, v.p.proto, Out, v.p.len, false);
      }
      if hd {
        Bump(v.p.dst, Protos, v.p.proto, In, v.p.len, false);
      }
    }

    method AcctCharges(v: Arrival)
      requires Present(db, Charges(v, o))
      modifies this`db
      ensures db == ApplyAll(old(db), Charges(v, o), v.p.len, o.lim)
    {
      hide ApplyAll, ProtoCharges, PortCharges, Present;
      ghost var more := Charges(v, o)[|ProtoCharges(v, o)|..];
      assert Charges(v, o) == ProtoCharges(v, o) + more;
      ApplyConcat(db, ProtoCharges(v, o), more, v.p.len, o.lim);
      AcctProtos(v);
      if o.lim.portsMax == 0 {
        assert more == [];
        ApplyNone(db, v.p.len, o.lim);
        return;
      }
      if v.p.proto == PROTO_TCP {
        assert more == PortCharges(v, o, Tcp, TcpRemote, v.p.tcpFlags == TH_SYN);
        AcctPorts(v, Tcp, TcpRemote, v.p.tcpFlags == TH_SYN);
      } else if v.p.proto == PROTO_UDP {
        assert more == PortCharges(v, o, Udp, UdpRemote, false);
        AcctPorts(v, Udp, UdpRemote, false);
      } else {
        assert more == [];
        ApplyNone(db, v.p.len, o.lim);
      }
    }

    /** The graphs only see traffic that crosses the border of the local networks. */
    method AcctGraphs(v: Arrival)
      requires graphs.Valid()
      modifies graphs.Arrays()
      ensures graphs.Valid() && graphs.Rings() == GraphsCharged(old(graphs.Rings()), v)
    {
      hide GraphDb.AccountedAll;
      if v.fromLocal && !v.toLocal {
        graphs.Acct(v.p.len, Out);
      }
      if v.toLocal && !v.fromLocal {
        graphs.Acct(v.p.len, In);
      }
    }

    /** acct_for() */
    method AcctFor(v: Arrival)
      requires graphs.Valid()
      modifies this, graphs.Arrays()
      ensures S() == Step(old(S()), v, o)
      ensures graphs.Valid() && graphs.Rings() == GraphsCharged(old(graphs.Rings()), v)
    {
      hide HostsCharged, Charges, ApplyAll, Reduced, GraphsCharged;
      packets := Add64(packets, 1);
      bytes := Add64(bytes, v.p.len);
      AcctGraphs(v);
      if o.lim.hostsMax == 0 {
        return;
      }
      gone := gone + [db - Reduced(db, o.lim).Keys];
      db := Reduced(db, o.lim);
      ChargesPresent(db, v, o);
      db := HostsCharged(db, v, o);
      AcctCharges(v);
    }
  }

  lemma ApplyNone(db: Db, len: nat, lim: Limits)
    ensures ApplyAll(db, [], len, lim) == db
  {
  }

  ghost function Maybe(db: Db, b: bool, c: Charge, len: nat, lim: Limits): (r: Db)
    requires b ==> c.addr in db
    ensures r.Keys == db.Keys
  {
    if b then ApplyCharge(db, c, len, lim) else db
  }

  lemma {:induction false} ApplyConcat(db: Db, a: seq<Charge>, b: seq<Charge>, len: nat, lim: Limits)
    requires Present(db, a + b)
    ensures Present(db, a) && Present(ApplyAll(db, a, len, lim), b)
    ensures ApplyAll(db, a + b, len, lim) == ApplyAll(ApplyAll(db, a, len, lim), b, len, lim)
    decreases |a|
  {
    hide ApplyCharge;
    assert forall i :: 0 <= i < |a| ==> a[i] == (a + b)[i];
    assert forall i :: 0 <= i < |b| ==> b[i] == (a + b)[|a| + i];
    if a == [] {
      assert a + b == b;
    } else {
      assert (a + b)[1..] == a[1..] + b;
      ApplyConcat(ApplyCharge(db, a[0], len, lim), a[1..], b, len, lim);
    }
  }

  lemma ApplyIf(db: Db, b: bool, c: Charge, len: nat, lim: Limits)
    requires Present(db, If(b, c))
    ensures b ==> c.addr in db
    ensures ApplyAll(db, If(b, c), len, lim) == Maybe(db, b, c, len, lim)
  {
    hide ApplyCharge;
    assert b ==> If(b, c)[0] == c && If(b, c)[1..] == [];
    if b {
      assert ApplyAll(ApplyCharge(db, c, len, lim), [], len, lim) == ApplyCharge(db, c, len, lim);
    }
  }

  /** Four conditional charges one after the other. */
  lemma Ladder(db: Db, b1: bool, c1: Charge, b2: bool, c2: Charge, b3: bool, c3: Charge, b4: bool, c4: Charge,
               len: nat, lim: Limits)
    requires Present(db, If(b1, c1) + If(b2, c2) + If(b3, c3) + If(b4, c4))
    ensures (b1 ==> c1.addr in db) && (b2 ==> c2.addr in db) && (b3 ==> c3.addr in db) && (b4 ==> c4.addr in db)
    ensures ApplyAll(db, If(b1, c1) + If(b2, c2) + If(b3, c3) + If(b4, c4), len, lim)
            == Maybe(Maybe(Maybe(Maybe(db, b1, c1, len, lim), b2, c2, len, lim), b3, c3, len, lim), b4, c4, len, lim)
  {
    hide ApplyCharge, ApplyAll, If, Present;
    var l1, l2, l3, l4 := If(b1, c1), If(b2, c2), If(b3, c3), If(b4, c4);
    ApplyConcat(db, l1 + l2 + l3, l4, len, lim);
    ApplyConcat(db, l1 + l2, l3, len, lim);
    ApplyConcat(db, l1, l2, len, lim);
    ApplyIf(db, b1, c1, len, lim);
    var d1 := ApplyAll(db, l1, len, lim);
    ApplyIf(d1, b2, c2, len, lim);
    var d2 := ApplyAll(d1, l2, len, lim);
    ApplyIf(d2, b3, c3, len, lim);
    ApplyIf(ApplyAll(d2, l3, len, lim), b4, c4, len, lim);
  }
}
