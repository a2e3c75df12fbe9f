/** What one packet does to every counter of every host, said in terms of the packet alone. */
module AcctEffect {
  import opened Wrappers
  import opened Bytes
  import opened Addrs
  import opened Collections
  import opened HostsDb
  import opened GraphRing
  import opened Decode
  import opened Acct

  /** The ends that take part: both, or only local ones. */
  predicate SourceIn(v: Arrival, o: Options) {
    o.localOnly ==> v.fromLocal
  }

  predicate DestIn(v: Arrival, o: Options) {
    o.localOnly ==> v.toLocal
  }

  /** Ports are accounted for under this protocol. */
  predicate PortsOf(v: Arrival, o: Options, proto: nat) {
    o.lim.portsMax > 0 && v.p.proto == proto
  }

  /**
   The packet counts as outgoing for entry `key` of table `t` of host `a`: the source sent it by its protocol and from
   its own port; the destination got it out of a remote port.
   */
  predicate CountsOut(v: Arrival, o: Options, a: Addr, t: TableId, key: nat) {
    var p := v.p;
    match t
    case Protos => SourceIn(v, o) && a == p.src && p.proto != 254 && key == p.proto
    case Tcp => SourceIn(v, o) && a == p.src && PortsOf(v, o, 6) && key == p.srcPort <= o.highestPort
    case Udp => SourceIn(v, o) && a == p.src && PortsOf(v, o, 17) && key == p.srcPort <= o.highestPort
    case TcpRemote => DestIn(v, o) && a == p.dst && PortsOf(v, o, 6) && key == p.srcPort <= o.highestPort
    case UdpRemote => DestIn(v, o) && a == p.dst && PortsOf(v, o, 17) && key == p.srcPort <= o.highestPort
  }

  /** It counts as incoming: the destination got it by its protocol and on its port; the source sent it to a remote port. */
  predicate CountsIn(v: Arrival, o: Options, a: Addr, t: TableId, key: nat) {
    var p := v.p;
    match t
    case Protos => DestIn(v, o) && a == p.dst && p.proto != 254 && key == p.proto
    case Tcp => DestIn(v, o) && a == p.dst && PortsOf(v, o, 6) && key == p.dstPort <= o.highestPort
    case Udp => DestIn(v, o) && a == p.dst && PortsOf(v, o, 17) && key == p.dstPort <= o.highestPort
    case TcpRemote => SourceIn(v, o) && a == p.src && PortsOf(v, o, 6) && key == p.dstPort <= o.highestPort
    case UdpRemote => SourceIn(v, o) && a == p.src && PortsOf(v, o, 17) && key == p.dstPort <= o.highestPort
  }

  /** Only a TCP packet with no flag but SYN is one that opens a connection to the port it goes to. */
  predicate Opens(v: Arrival, t: TableId) {
    (t == Tcp || t == TcpRemote) && v.p.tcpFlags == 2
  }

  function Amt(b: bool, n: nat): nat {
    if b then n else 0
  }

  /** An entry after the packet has counted as incoming or outgoing or both, or neither. */
  function Raised(e: Entry, inn: bool, out: bool, syn: bool, len: nat): Entry {
    Entry(Flow(Add64(e.flow.inn, Amt(inn, len)), Add64(e.flow.out, Amt(out, len)),
               Add64(e.flow.total, Amt(inn, len) + Amt(out, len))),
          Add64(e.syn, Amt(inn && syn, 1)))
  }

  function EntryOr(m: map<nat, Entry>, key: nat): Entry {
    if key in m then m[key] else NEW_ENTRY
  }

  /** The entries of a table that the packet counts for. */
  ghost function Touched(v: Arrival, o: Options, a: Addr, t: TableId): set<nat> {
    set key | key in {v.p.srcPort, v.p.dstPort, v.p.proto} && (CountsIn(v, o, a, t, key) || CountsOut(v, o, a, t, key))
  }

  // ----- The charges to one table -----

  function Mine(cs: seq<Charge>, a: Addr, t: TableId): seq<Charge> {
    if cs == [] then [] else If(cs[0].addr == a && cs[0].table == t, cs[0]) + Mine(cs[1..], a, t)
  }

  function Fold(m: map<nat, Entry>, cs: seq<Charge>, len: nat, lim: Limits): map<nat, Entry>
    decreases |cs|
  {
    if cs == [] then m else Fold(WithCharge(m, cs[0], len, lim), cs[1..], len, lim)
  }

  lemma {:induction false} MineConcat(x: seq<Charge>, y: seq<Charge>, a: Addr, t: TableId)
    ensures Mine(x + y, a, t) == Mine(x, a, t) + Mine(y, a, t)
  {
    if x == [] {
      assert x + y == y;
    } else {
      assert (x + y)[1..] == x[1..] + y;
      MineConcat(x[1..], y, a, t);
    }
  }

  lemma MineIf(b: bool, c: Charge, a: Addr, t: TableId)
    ensures Mine(If(b, c), a, t) == If(b && c.addr == a && c.table == t, c)
  {
    if b {
      assert If(b, c)[1..] == [] && Mine([], a, t) == [];
    }
  }

  /** A table of a host only sees its own charges, in order. */
  lemma {:induction false} ApplyAllMine(db: Db, cs: seq<Charge>, len: nat, lim: Limits, a: Addr, t: TableId)
    requires Present(db, cs) && a in db
    ensures Table(ApplyAll(db, cs, len, lim)[a].tables, t) == Fold(Table(db[a].tables, t), Mine(cs, a, t), len, lim)
    decreases |cs|
  {
    hide WithCharge, Table, WithTable;
    if cs != [] {
      var c := cs[0];
      ApplyAllMine(ApplyCharge(db, c, len, lim), cs[1..], len, lim, a, t);
      if c.addr == a && c.table == t {
        assert ([c] + Mine(cs[1..], a, t))[1..] == Mine(cs[1..], a, t);
      } else {
        assert If(false, c) + Mine(cs[1..], a, t) == Mine(cs[1..], a, t);
      }
    }
  }

  function OutKey(v: Arrival, t: TableId): nat {
    if t == Protos then v.p.proto else v.p.srcPort
  }

  function InKey(v: Arrival, t: TableId): nat {
    if t == Protos then v.p.proto else v.p.dstPort
  }

  /** The charge to a table for what counts as outgoing, and for what counts as incoming. */
  function OutCharge(v: Arrival, a: Addr, t: TableId): Charge {
    Charge(a, t, OutKey(v, t), Out, false)
  }

  function InCharge(v: Arrival, a: Addr, t: TableId): Charge {
    Charge(a, t, InKey(v, t), In, Opens(v, t))
  }

  function Both(v: Arrival, o: Options, a: Addr, t: TableId): seq<Charge> {
    If(CountsOut(v, o, a, t, OutKey(v, t)), OutCharge(v, a, t)) + If(CountsIn(v, o, a, t, InKey(v, t)), InCharge(v, a, t))
  }

  lemma MineProtos(v: Arrival, o: Options, a: Addr, t: TableId)
    ensures Mine(ProtoCharges(v, o), a, t) == if t == Protos then Both(v, o, a, Protos) else []
  {
    var c1, c2 := Charge(v.p.src, Protos, v.p.proto, Out, false), Charge(v.p.dst, Protos, v.p.proto, In, false);
    MineConcat(If(HasSource(v, o), c1), If(HasDest(v, o), c2), a, t);
    MineIf(HasSource(v, o), c1, a, t);
    MineIf(HasDest(v, o), c2, a, t);
  }

  lemma MinePorts(v: Arrival, o: Options, local: TableId, remote: TableId, syn: bool, a: Addr, t: TableId)
    requires o.lim.portsMax > 0
    requires (local == Tcp && remote == TcpRemote && v.p.proto == 6 && syn == (v.p.tcpFlags == 2))
             || (local == Udp && remote == UdpRemote && v.p.proto == 17 && !syn)
    ensures Mine(PortCharges(v, o, local, remote, syn), a, t)
            == if t == local || t == remote then Both(v, o, a, t) else []
  {
    hide Mine, If;
    var p := v.p;
    var from, to := p.srcPort <= o.highestPort, p.dstPort <= o.highestPort;
    var c1, c2 := Charge(p.src, local, p.srcPort, Out, false), Charge(p.dst, local, p.dstPort, In, syn);
    var c3, c4 := Charge(p.dst, remote, p.srcPort, Out, false), Charge(p.src, remote, p.dstPort, In, syn);
    var b1, b2, b3, b4 := from && HasSource(v, o), to && HasDest(v, o), from && HasDest(v, o), to && HasSource(v, o);
    MineConcat(If(b1, c1) + If(b2, c2) + If(b3, c3), If(b4, c4), a, t);
    MineConcat(If(b1, c1) + If(b2, c2), If(b3, c3), a, t);
    MineConcat(If(b1, c1), If(b2, c2), a, t);
    MineIf(b1, c1, a, t);
    MineIf(b2, c2, a, t);
    MineIf(b3, c3, a, t);
    MineIf(b4, c4, a, t);
    IfNone(c1);
    IfNone(c2);
    IfNone(c3);
    IfNone(c4);
    IfNone(OutCharge(v, a, t));
    IfNone(InCharge(v, a, t));
  }

  lemma IfNone(c: Charge)
    ensures If(false, c) == [] && If(true, c) == [c]
  {
  }

  /** Of all charges, those to a table of a host are the two that the packet says. */
  lemma MineCharges(v: Arrival, o: Options, a: Addr, t: TableId)
    ensures Mine(Charges(v, o), a, t) == Both(v, o, a, t)
  {
    hide ProtoCharges, PortCharges, Mine;
    var tcp, udp := PortCharges(v, o, Tcp, TcpRemote, v.p.tcpFlags == TH_SYN), PortCharges(v, o, Udp, UdpRemote, false);
    MineProtos(v, o, a, t);
    MineConcat(ProtoCharges(v, o), tcp, a, t);
    MineConcat(ProtoCharges(v, o), udp, a, t);
    MineConcat(ProtoCharges(v, o), [], a, t);
    MineNone(a, t);
    if o.lim.portsMax > 0 && v.p.proto == 6 {
      MinePorts(v, o, Tcp, TcpRemote, v.p.tcpFlags == TH_SYN, a, t);
    } else if o.lim.portsMax > 0 && v.p.proto == 17 {
      MinePorts(v, o, Udp, UdpRemote, false, a, t);
    }
    BothNone(v, o, a, t);
  }

  lemma MineNone(a: Addr, t: TableId)
    ensures Mine([], a, t) == []
  {
  }

  lemma BothNone(v: Arrival, o: Options, a: Addr, t: TableId)
    ensures t != Protos && (o.lim.portsMax == 0 || v.p.proto != if t == Tcp || t == TcpRemote then 6 else 17)
            ==> Both(v, o, a, t) == []
  {
  }

  // ----- What two charges do to a table -----

  lemma Add64Sum(x: u64, a: nat, b: nat)
    ensures Add64(Add64(x, a), b) == Add64(x, a + b) && Add64(x, 0) == x
  {
    var k := (x + a) / U64;
    Multiples(x + a + b - k * U64, k);
  }

  lemma RaisedFacts(e: Entry, syn: bool, len: nat)
    ensures Raised(e, false, false, syn, len) == e
    ensures Raised(e, true, false, syn, len) == Entry(Charged(e.flow, In, len), if syn then Add64(e.syn, 1) else e.syn)
    ensures Raised(e, false, true, syn, len) == Entry(Charged(e.flow, Out, len), e.syn)
    ensures Raised(Raised(e, false, true, false, len), true, false, syn, len) == Raised(e, true, true, syn, len)
  {
    Add64Sum(e.flow.inn, 0, len);
    Add64Sum(e.flow.out, len, 0);
    Add64Sum(e.flow.total, len, len);
    Add64Sum(e.syn, 0, 1);
  }

  lemma ChargeRaises(m: map<nat, Entry>, c: Charge, len: nat, lim: Limits)
    requires (c.key in m || |m| < Max(c.table, lim)) && (c.syn ==> c.dir == In)
    ensures WithCharge(m, c, len, lim)
            == m[c.key := Raised(EntryOr(m, c.key), c.dir == In, c.dir == Out, c.syn, len)]
  {
    RaisedFacts(EntryOr(m, c.key), c.syn, len);
    hide Raised;
  }

  /** The keys of the charges that are made. */
  function KeysIf(bo: bool, ko: nat, bi: bool, ki: nat): set<nat> {
    (if bo then {ko} else {}) + (if bi then {ki} else {})
  }

  lemma FoldTwo(m: map<nat, Entry>, bo: bool, co: Charge, bi: bool, ci: Charge, len: nat, lim: Limits)
    requires co.table == ci.table && co.dir == Out && !co.syn && ci.dir == In
    requires |m.Keys + KeysIf(bo, co.key, bi, ci.key)| <= Max(co.table, lim)
    ensures Fold(m, If(bo, co) + If(bi, ci), len, lim)
            == var m1 := if bo then m[co.key := Raised(EntryOr(m, co.key), false, true, false, len)] else m;
               if bi then m1[ci.key := Raised(EntryOr(m1, ci.key), true, false, ci.syn, len)] else m1
  {
    hide WithCharge, Raised;
    var m1 := if bo then m[co.key := Raised(EntryOr(m, co.key), false, true, false, len)] else m;
    var all := m.Keys + KeysIf(bo, co.key, bi, ci.key);
    if bo {
      RoomFor(m, co.key, all, Max(co.table, lim));
      ChargeRaises(m, co, len, lim);
    }
    if bi {
      assert m1.Keys <= all;
      RoomFor(m1, ci.key, all, Max(ci.table, lim));
      ChargeRaises(m1, ci, len, lim);
    }
    FoldSteps(m, bo, co, bi, ci, len, lim);
  }

  lemma RoomFor(m: map<nat, Entry>, key: nat, all: set<nat>, max: nat)
    requires m.Keys + {key} <= all && |all| <= max
    ensures key in m || |m| < max
  {
    if key !in m {
      SubsetSize(m.Keys + {key}, all);
    }
  }

  lemma FoldSteps(m: map<nat, Entry>, bo: bool, co: Charge, bi: bool, ci: Charge, len: nat, lim: Limits)
    ensures var m1 := if bo then WithCharge(m, co, len, lim) else m;
            Fold(m, If(bo, co) + If(bi, ci), len, lim) == if bi then WithCharge(m1, ci, len, lim) else m1
  {
    hide WithCharge;
    var cs := If(bo, co) + If(bi, ci);
    assert Fold(m, [], len, lim) == m;
    if bo {
      assert cs[0] == co && cs[1..] == If(bi, ci);
      var m1 := WithCharge(m, co, len, lim);
      assert bi ==> If(bi, ci)[0] == ci && If(bi, ci)[1..] == [];
      assert Fold(m1, If(bi, ci), len, lim) == if bi then WithCharge(m1, ci, len, lim) else m1 by {
        assert Fold(m1, [], len, lim) == m1;
      }
    } else {
      assert cs == If(bi, ci);
      assert bi ==> cs[0] == ci && cs[1..] == [];
    }
  }

  /** A table after the packet: its keys and those touched, and every entry raised by what counts for it. */
  ghost predicate TableEffect(before: map<nat, Entry>, after: map<nat, Entry>, v: Arrival, o: Options, a: Addr, t: TableId) {
    && after.Keys == before.Keys + Touched(v, o, a, t)
    && forall key :: key in after ==>
         after[key] == Raised(EntryOr(before, key), CountsIn(v, o, a, t, key), CountsOut(v, o, a, t, key), Opens(v, t), v.p.len)
  }

  lemma KeysTouched(v: Arrival, o: Options, a: Addr, t: TableId)
    ensures Touched(v, o, a, t)
            == KeysIf(CountsOut(v, o, a, t, OutKey(v, t)), OutKey(v, t), CountsIn(v, o, a, t, InKey(v, t)), InKey(v, t))
    ensures forall key :: CountsOut(v, o, a, t, key) ==> key == OutKey(v, t)
    ensures forall key :: CountsIn(v, o, a, t, key) ==> key == InKey(v, t)
  {
  }

  /** Raising one entry and then one, which may be the same. */
  ghost function RaiseTwo(m: map<nat, Entry>, bo: bool, ko: nat, bi: bool, ki: nat, syn: bool, len: nat): map<nat, Entry> {
    var m1 := if bo then m[ko := Raised(EntryOr(m, ko), false, true, false, len)] else m;
    if bi then m1[ki := Raised(EntryOr(m1, ki), true, false, syn, len)] else m1
  }

  lemma RaisedTwo(m: map<nat, Entry>, bo: bool, ko: nat, bi: bool, ki: nat, syn: bool, len: nat, key: nat)
    requires key in RaiseTwo(m, bo, ko, bi, ki, syn, len)
    ensures RaiseTwo(m, bo, ko, bi, ki, syn, len)[key]
            == Raised(EntryOr(m, key), bi && key == ki, bo && key == ko, syn, len)
  {
    hide Raised;
    RaisedFacts(EntryOr(m, key), syn, len);
    RaisedOut(EntryOr(m, key), syn, len);
  }

  lemma FoldEffect(m: map<nat, Entry>, v: Arrival, o: Options, a: Addr, t: TableId)
    requires |m.Keys + Touched(v, o, a, t)| <= Max(t, o.lim)
    ensures TableEffect(m, Fold(m, Both(v, o, a, t), v.p.len, o.lim), v, o, a, t)
  {
    hide Raised, CountsIn, CountsOut, Touched, Fold, RaiseTwo, EntryOr;
    var ko, ki := OutKey(v, t), InKey(v, t);
    var bo, bi := CountsOut(v, o, a, t, ko), CountsIn(v, o, a, t, ki);
    KeysTouched(v, o, a, t);
    FoldTwo(m, bo, OutCharge(v, a, t), bi, InCharge(v, a, t), v.p.len, o.lim);
    var after := Fold(m, Both(v, o, a, t), v.p.len, o.lim);
    RaiseTwoIs(m, bo, ko, bi, ki, Opens(v, t), v.p.len);
    forall key | key in after
      ensures after[key] == Raised(EntryOr(m, key), CountsIn(v, o, a, t, key), CountsOut(v, o, a, t, key), Opens(v, t), v.p.len)
    {
      RaisedTwo(m, bo, ko, bi, ki, Opens(v, t), v.p.len, key);
    }
  }

  lemma RaiseTwoIs(m: map<nat, Entry>, bo: bool, ko: nat, bi: bool, ki: nat, syn: bool, len: nat)
    ensures RaiseTwo(m, bo, ko, bi, ki, syn, len)
            == var m1 := if bo then m[ko := Raised(EntryOr(m, ko), false, true, false, len)] else m;
               if bi then m1[ki := Raised(EntryOr(m1, ki), true, false, syn, len)] else m1
    ensures RaiseTwo(m, bo, ko, bi, ki, syn, len).Keys == m.Keys + KeysIf(bo, ko, bi, ki)
  {
    hide Raised, EntryOr;
  }

  lemma RaisedOut(e: Entry, syn: bool, len: nat)
    ensures Raised(e, false, true, syn, len) == Raised(e, false, true, false, len)
  {
  }

  // ----- One packet -----

  /** The host as it is when the packet comes: as the reduction leaves it, or new. */
  ghost function HostBefore(s: State, o: Options, a: Addr): Host {
    HostGet(Reduced(s.db, o.lim), a)
  }

  /**
   Hosts are only reduced when their number has reached the maximum; then those stay whose total no more than
   hosts_keep hosts reach, themselves included.
   */
  lemma ReducedExactly(db: Db, lim: Limits)
    ensures |db| < lim.hostsMax ==> Reduced(db, lim) == db
    ensures |db| >= lim.hostsMax ==>
              forall a :: a in Reduced(db, lim) <==>
                a in db && |set b | b in db && db[b].flow.total >= db[a].flow.total| <= lim.hostsKeep
    ensures forall a :: a in Reduced(db, lim) ==> Reduced(db, lim)[a] == db[a]
  {
    forall a | a in db
      ensures (set b | b in db && db[b].flow.total >= db[a].flow.total) == Rivals(db, HostTotal, a)
    {
    }
  }

  lemma RivalsAre(m: map<nat, Entry>, k: nat)
    requires k in m
    ensures (set j | j in m && m[j].flow.total >= m[k].flow.total) == Rivals(m, EntryTotal, k)
  {
  }

  lemma RoomyWhole(m: map<nat, Entry>, max: nat, keep: nat)
    requires |m| < max
    ensures Roomy(m, max, keep) == m
  {
  }

  /** The same for a table that has to take in a new key. */
  lemma InsertedExactly(m: map<nat, Entry>, max: nat, keep: nat, key: nat)
    requires key !in m
    ensures |m| < max ==> FindOrInsert(m, max, keep, key) == m[key := NEW_ENTRY]
    ensures |m| >= max ==>
              forall k :: k in FindOrInsert(m, max, keep, key) <==>
                k == key || (k in m && |set j | j in m && m[j].flow.total >= m[k].flow.total| <= keep)
  {
    hide Roomy, Rivals;
    forall k | k in m
      ensures (set j | j in m && m[j].flow.total >= m[k].flow.total) == Rivals(m, EntryTotal, k)
    {
      RivalsAre(m, k);
    }
    RoomyExactly(m, max, keep);
    if |m| < max {
      RoomyWhole(m, max, keep);
    }
  }

  /**
   Where there is room for what the packet touches, every table of every host gains exactly the touched keys, and
   every entry exactly what the packet counts for it: a source its protocol and port and the remote port it sends to,
   a destination its protocol and port and the remote port that it gets something out of. A packet from a host to
   itself is both.
   */
  lemma PacketEffect(s: State, v: Arrival, o: Options, a: Addr, t: TableId)
    requires o.lim.hostsMax > 0 && a in Step(s, v, o).db
    requires |Table(HostBefore(s, o, a).tables, t).Keys + Touched(v, o, a, t)| <= Max(t, o.lim)
    ensures TableEffect(Table(HostBefore(s, o, a).tables, t), Table(Step(s, v, o).db[a].tables, t), v, o, a, t)
  {
    hide Reduced, Charges, ApplyAll, Table, TableEffect, Touched, Fold, Mine;
    var d := Reduced(s.db, o.lim);
    ChargesPresent(d, v, o);
    var e := HostsCharged(d, v, o);
    SameTables(d, v, o, a);
    ApplyAllMine(e, Charges(v, o), v.p.len, o.lim, a, t);
    MineCharges(v, o, a, t);
    FoldEffect(Table(HostGet(d, a).tables, t), v, o, a, t);
  }

  lemma SameTables(db: Db, v: Arrival, o: Options, a: Addr)
    requires a in HostsCharged(db, v, o)
    ensures HostsCharged(db, v, o)[a].tables == HostGet(db, a).tables
  {
    hide Charged;
  }

  /**
   The hosts after the packet are those that the reduction leaves and the ends that take part. Its source has sent
   its length, its destination received it; and the totals count it.
   */
  lemma HostEffect(s: State, v: Arrival, o: Options)
    requires o.lim.hostsMax > 0
    ensures var d, r := Reduced(s.db, o.lim), Step(s, v, o);
            && r.db.Keys == d.Keys + (if SourceIn(v, o) then {v.p.src} else {}) + (if DestIn(v, o) then {v.p.dst} else {})
            && r.bytes == Add64(s.bytes, v.p.len) && r.packets == Add64(s.packets, 1)
            && forall a :: a in r.db ==>
                 var f := HostBefore(s, o, a).flow;
                 var inn, out := DestIn(v, o) && a == v.p.dst, SourceIn(v, o) && a == v.p.src;
                 r.db[a].flow == Flow(Add64(f.inn, Amt(inn, v.p.len)), Add64(f.out, Amt(out, v.p.len)),
                                      Add64(f.total, Amt(inn, v.p.len) + Amt(out, v.p.len)))
  {
    hide Reduced, Charges, ApplyAll, Add64;
    var d, r := Reduced(s.db, o.lim), Step(s, v, o);
    ChargesPresent(d, v, o);
    var e := HostsCharged(d, v, o);
    forall a | a in r.db
      ensures var f := HostBefore(s, o, a).flow;
              var inn, out := DestIn(v, o) && a == v.p.dst, SourceIn(v, o) && a == v.p.src;
              r.db[a].flow == Flow(Add64(f.inn, Amt(inn, v.p.len)), Add64(f.out, Amt(out, v.p.len)),
                                   Add64(f.total, Amt(inn, v.p.len) + Amt(out, v.p.len)))
    {
      ApplyAllKeeps(e, Charges(v, o), v.p.len, o.lim, a);
      FlowCharged(d, v, o, a);
    }
  }

  lemma FlowCharged(db: Db, v: Arrival, o: Options, a: Addr)
    requires a in HostsCharged(db, v, o)
    ensures var f := HostGet(db, a).flow;
            var inn, out := DestIn(v, o) && a == v.p.dst, SourceIn(v, o) && a == v.p.src;
            HostsCharged(db, v, o)[a].flow
            == Flow(Add64(f.inn, Amt(inn, v.p.len)), Add64(f.out, Amt(out, v.p.len)),
                    Add64(f.total, Amt(inn, v.p.len) + Amt(out, v.p.len)))
  {
    hide Add64;
    var f := HostGet(db, a).flow;
    Add64Sum(f.inn, 0, v.p.len);
    Add64Sum(f.out, v.p.len, 0);
    Add64Sum(f.total, v.p.len, v.p.len);
  }

  // ----- The graphs -----

  /** Of every graph, only the current bar changes: out by what leaves the local networks, in by what enters them. */
  lemma GraphEffect(rs: seq<Ring>, v: Arrival, i: nat)
    requires ValidRings(rs) && i < 4
    ensures var r, q := rs[i], GraphsCharged(rs, v)[i];
            && q.pos == r.pos && |q.bars| == |r.bars|
            && (forall k :: 0 <= k < |r.bars| && k != r.pos ==> q.bars[k] == r.bars[k])
            && q.bars[r.pos].inn == (if v.toLocal && !v.fromLocal then Add64(r.bars[r.pos].inn, v.p.len) else r.bars[r.pos].inn)
            && q.bars[r.pos].out == (if v.fromLocal && !v.toLocal then Add64(r.bars[r.pos].out, v.p.len) else r.bars[r.pos].out)
  {
  }
}
