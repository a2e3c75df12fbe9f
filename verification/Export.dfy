/**
 The export format: what the exporter writes, what the importer reads, and that the importer gets
 back what was written (db.c, hosts_db.c, graph_db.c, export-format.txt).
 */
module Export {
  import opened Wrappers
  import opened Bytes
  import opened Addrs
  import opened HostsDb
  import opened GraphRing

  /** One entry of a table, and one host, in the order in which the chains of the tables list them. */
  datatype Row = Row(key: nat, entry: Entry)

  datatype Record = Record(addr: Addr, flow: Flow, dns: Option<seq<bv8>>, mac: seq<bv8>, lastSeen: int,
                           protos: seq<Row>, tcp: seq<Row>, udp: seq<Row>, tcpRemote: seq<Row>, udpRemote: seq<Row>)

  /** The clocks that now_mono() and now_real() show. */
  datatype Clock = Clock(mono: int, wall: int)

  /** What a reader returns: a value and the bytes after it. */
  datatype Got<T> = Got(value: T, rest: seq<bv8>) | Fail {
    predicate IsFailure() {
      Fail?
    }
    function PropagateFailure<U>(): Got<U>
      requires Fail?
    {
      Fail
    }
    function Extract(): (T, seq<bv8>)
      requires Got?
    {
      (value, rest)
    }
  }

  // ----- Fixed-width values -----

  function Put64(x: u64): (s: seq<bv8>)
    ensures |s| == 8
  {
    Powers();
    Be(8, x)
  }

  /** readn() */
  function GetN(n: nat, s: seq<bv8>): (g: Got<seq<bv8>>)
    ensures g.Got? ==> |g.value| == n && s == g.value + g.rest
  {
    if |s| < n then Fail else Got(s[..n], s[n..])
  }

  /** read8(), read16(), read32() */
  function GetNum(n: nat, s: seq<bv8>): (g: Got<nat>)
    ensures g.Got? ==> g.value < Pow256(n) && |g.rest| + n == |s|
  {
    var (b, r) :- GetN(n, s);
    ValueBound(b);
    Got(Value(b), r)
  }

  function Get64(s: seq<bv8>): (g: Got<u64>)
    ensures g.Got? ==> |g.rest| + 8 == |s|
  {
    var (x, r) :- GetNum(8, s);
    Powers();
    Got(x, r)
  }

  function Signed(x: u64): int {
    if x < 0x8000_0000_0000_0000 then x else x - U64
  }

  function Unsigned(t: int): u64 {
    t % U64
  }

  predicate Int64(t: int) {
    -0x8000_0000_0000_0000 <= t < 0x8000_0000_0000_0000
  }

  lemma SignedUnsigned(t: int)
    ensures Signed(Unsigned(t)) == t <==> Int64(t)
  {
  }

  lemma GetNPut(s: seq<bv8>, rest: seq<bv8>)
    ensures GetN(|s|, s + rest) == Got(s, rest)
  {
  }

  lemma GetNumPut(n: nat, x: nat, rest: seq<bv8>)
    requires x < Pow256(n)
    ensures GetNum(n, Be(n, x) + rest) == Got(x, rest)
  {
    GetNPut(Be(n, x), rest);
  }

  lemma Get64Put(x: u64, rest: seq<bv8>)
    ensures Get64(Put64(x) + rest) == Got(x, rest)
  {
    Powers();
    GetNumPut(8, x, rest);
  }

  lemma Assoc(a: seq<bv8>, b: seq<bv8>, c: seq<bv8>)
    ensures (a + b) + c == a + (b + c)
  {
  }

  // ----- Addresses -----

  function PutAddr(a: Addr): seq<bv8> {
    [if a.family == IPv4 then 4 else 6] + a.bytes
  }

  function GetAddr(s: seq<bv8>): (g: Got<Addr>)
    ensures g.Got? ==> |g.rest| < |s|
  {
    var (f, r) :- GetN(1, s);
    if f[0] == 4 then GetAddrIpv4(r)
    else if f[0] == 6 then
      var (b, r') :- GetN(16, r);
      var a: Addr := Addr(IPv6, b);
      Got(a, r')
    else Fail
  }

  function GetAddrIpv4(s: seq<bv8>): (g: Got<Addr>)
    ensures g.Got? ==> |g.rest| < |s|
  {
    var (b, r) :- GetN(4, s);
    var a: Addr := Addr(IPv4, b);
    Got(a, r)
  }

  lemma GetAddrPut(a: Addr, rest: seq<bv8>)
    ensures GetAddr(PutAddr(a) + rest) == Got(a, rest)
  {
    var f := [if a.family == IPv4 then 4 else 6];
    Assoc(f, a.bytes, rest);
    GetNPut(f, a.bytes + rest);
    GetNPut(a.bytes, rest);
  }

  // ----- Tables -----

  function KeyWidth(t: TableId): nat {
    if t == Protos then 1 else 2
  }

  function Magic(t: TableId): bv8 {
    match t
    case Protos => 0x50
    case Tcp => 0x54
    case Udp => 0x55
    case TcpRemote => 0x74
    case UdpRemote => 0x75
  }

  predicate HasSyn(t: TableId) {
    t == Tcp || t == TcpRemote
  }

  function PutFlow(f: Flow): seq<bv8> {
    Put64(f.inn) + Put64(f.out)
  }

  /** Both ways of reading counters compute the total anew. */
  function Refigured(f: Flow): Flow {
    f.(total := Add64(f.inn, f.out))
  }

  function GetFlow(s: seq<bv8>): (g: Got<Flow>)
    ensures g.Got? ==> |g.rest| < |s|
  {
    var (inn, r) :- Get64(s);
    var (out, r') :- Get64(r);
    Got(Refigured(Flow(inn, out, 0)), r')
  }

  lemma GetFlowPut(f: Flow, rest: seq<bv8>)
    ensures GetFlow(PutFlow(f) + rest) == Got(Refigured(f), rest)
  {
    hide Put64, Get64;
    Assoc(Put64(f.inn), Put64(f.out), rest);
    Get64Put(f.inn, Put64(f.out) + rest);
    Get64Put(f.out, rest);
  }

  function PutSyn(t: TableId, e: Entry): seq<bv8> {
    if HasSyn(t) then Put64(e.syn) else []
  }

  function GetSyn(t: TableId, s: seq<bv8>): (g: Got<u64>)
    ensures g.Got? ==> |g.rest| <= |s|
  {
    if HasSyn(t) then Get64(s) else Got(0, s)
  }

  /** An entry as it comes back. */
  function Restored(t: TableId, e: Entry): Entry {
    Entry(Refigured(e.flow), if HasSyn(t) then e.syn else 0)
  }

  predicate ValidKey(t: TableId, key: nat) {
    key < Pow256(KeyWidth(t))
  }

  function PutRow(t: TableId, r: Row): seq<bv8>
    requires ValidKey(t, r.key)
  {
    Be(KeyWidth(t), r.key) + (PutSyn(t, r.entry) + PutFlow(r.entry.flow))
  }

  function GetRow(t: TableId, s: seq<bv8>): (g: Got<Row>)
    ensures g.Got? ==> ValidKey(t, g.value.key) && |g.rest| < |s|
  {
    var (key, r) :- GetNum(KeyWidth(t), s);
    var (syn, r') :- GetSyn(t, r);
    var (flow, r'') :- GetFlow(r');
    Got(Row(key, Entry(flow, syn)), r'')
  }

  lemma GetRowPut(t: TableId, r: Row, rest: seq<bv8>)
    requires ValidKey(t, r.key)
    ensures GetRow(t, PutRow(t, r) + rest) == Got(Row(r.key, Restored(t, r.entry)), rest)
  {
    hide Put64, Get64, PutFlow, GetFlow, Be, GetNum;
    var syn, flow := PutSyn(t, r.entry), PutFlow(r.entry.flow);
    Assoc(Be(KeyWidth(t), r.key), syn + flow, rest);
    Assoc(syn, flow, rest);
    GetNumPut(KeyWidth(t), r.key, syn + (flow + rest));
    if HasSyn(t) {
      Get64Put(r.entry.syn, flow + rest);
    } else {
      assert [] + (flow + rest) == flow + rest;
    }
    GetFlowPut(r.entry.flow, rest);
  }

  ghost predicate ValidRows(t: TableId, rows: seq<Row>) {
    forall i :: 0 <= i < |rows| ==> ValidKey(t, rows[i].key)
  }

  function PutRows(t: TableId, rows: seq<Row>): seq<bv8>
    requires ValidRows(t, rows)
  {
    if rows == [] then [] else PutRow(t, rows[0]) + PutRows(t, rows[1..])
  }

  /** Storing what was read: the bucket is found or made, and its counters are overwritten. */
  function Store(t: TableId, lim: Limits, m: map<nat, Entry>, r: Row): map<nat, Entry> {
    FindOrInsert(m, Max(t, lim), Keep(t, lim), r.key)[r.key := r.entry]
  }

  function GetRows(t: TableId, lim: Limits, n: nat, m: map<nat, Entry>, s: seq<bv8>): (g: Got<map<nat, Entry>>)
    ensures g.Got? ==> |g.rest| <= |s|
    decreases n
  {
    if n == 0 then Got(m, s)
    else
      var (r, s') :- GetRow(t, s);
      GetRows(t, lim, n - 1, Store(t, lim, m, r), s')
  }

  ghost function StoreAll(t: TableId, lim: Limits, m: map<nat, Entry>, rows: seq<Row>): map<nat, Entry>
    decreases |rows|
  {
    if rows == [] then m
    else StoreAll(t, lim, Store(t, lim, m, Row(rows[0].key, Restored(t, rows[0].entry))), rows[1..])
  }

  lemma {:induction false} GetRowsPut(t: TableId, lim: Limits, m: map<nat, Entry>, rows: seq<Row>, rest: seq<bv8>)
    requires ValidRows(t, rows)
    ensures GetRows(t, lim, |rows|, m, PutRows(t, rows) + rest) == Got(StoreAll(t, lim, m, rows), rest)
    decreases |rows|
  {
    hide Store, GetRow, PutRow;
    if rows == [] {
      assert [] + rest == rest;
    } else {
      var r := Row(rows[0].key, Restored(t, rows[0].entry));
      Assoc(PutRow(t, rows[0]), PutRows(t, rows[1..]), rest);
      GetRowPut(t, rows[0], PutRows(t, rows[1..]) + rest);
      GetRowsPut(t, lim, Store(t, lim, m, r), rows[1..], rest);
    }
  }

  /** The rows list the entries of a table, each once. */
  ghost predicate Lists(rows: seq<Row>, m: map<nat, Entry>) {
    && (forall i, j :: 0 <= i < j < |rows| ==> rows[i].key != rows[j].key)
    && (forall i :: 0 <= i < |rows| ==> rows[i].key in m && m[rows[i].key] == rows[i].entry)
    && (forall k :: k in m ==> exists i :: 0 <= i < |rows| && rows[i].key == k)
  }

  ghost function RestoredTable(t: TableId, m: map<nat, Entry>): map<nat, Entry> {
    map k | k in m :: Restored(t, m[k])
  }

  /** Storing a listing never reduces the table it is put into, and builds it up. */
  lemma {:induction false} StoreAllLists(t: TableId, lim: Limits, done: map<nat, Entry>, rows: seq<Row>, m: map<nat, Entry>)
    requires Lists(rows, m) && done.Keys !! m.Keys && |done| + |rows| <= Max(t, lim)
    ensures StoreAll(t, lim, done, rows) == done + RestoredTable(t, m)
    decreases |rows|
  {
    hide Restored, RestoredTable, Store, Lists;
    if rows == [] {
      ListsNone(m);
      RestoredNone(t, done);
    } else {
      var r := rows[0];
      ListsTail(rows, m);
      StoreNew(t, lim, done, Row(r.key, Restored(t, r.entry)));
      MergeStep(t, done, m, r.key);
      StoreAllLists(t, lim, done[r.key := Restored(t, r.entry)], rows[1..], m - {r.key});
    }
  }

  lemma MergeStep(t: TableId, done: map<nat, Entry>, m: map<nat, Entry>, k: nat)
    requires k in m && done.Keys !! m.Keys
    ensures done[k := Restored(t, m[k])] + RestoredTable(t, m - {k}) == done + RestoredTable(t, m)
    ensures done[k := Restored(t, m[k])].Keys !! (m - {k}).Keys
  {
    hide Restored;
  }

  lemma StoreNew(t: TableId, lim: Limits, m: map<nat, Entry>, r: Row)
    requires r.key !in m && |m| < Max(t, lim)
    ensures Store(t, lim, m, r) == m[r.key := r.entry] && |m[r.key := r.entry]| == |m| + 1
  {
    assert m[r.key := r.entry].Keys == m.Keys + {r.key};
  }

  lemma RestoredNone(t: TableId, done: map<nat, Entry>)
    ensures done + RestoredTable(t, map[]) == done
  {
  }

  lemma ListsNone(m: map<nat, Entry>)
    requires Lists([], m)
    ensures m == map[]
  {
  }

  lemma ListsTail(rows: seq<Row>, m: map<nat, Entry>)
    requires rows != [] && Lists(rows, m)
    ensures Lists(rows[1..], m - {rows[0].key}) && rows[0].key in m && m[rows[0].key] == rows[0].entry
  {
    var k, m' := rows[0].key, m - {rows[0].key};
    forall j | j in m'
      ensures exists i :: 0 <= i < |rows[1..]| && rows[1..][i].key == j
    {
      var i :| 0 <= i < |rows| && rows[i].key == j;
      assert rows[1..][i - 1].key == j;
    }
  }

  function PutTable(t: TableId, rows: seq<Row>): seq<bv8>
    requires |rows| < Pow256(KeyWidth(t)) && ValidRows(t, rows)
  {
    [Magic(t)] + (Be(KeyWidth(t), |rows|) + PutRows(t, rows))
  }

  function GetTable(t: TableId, lim: Limits, m: map<nat, Entry>, s: seq<bv8>): (g: Got<map<nat, Entry>>)
    ensures g.Got? ==> |g.rest| < |s|
  {
    var (b, r) :- GetN(1, s);
    if b[0] != Magic(t) then Fail
    else
      var (n, r') :- GetNum(KeyWidth(t), r);
      GetRows(t, lim, n, m, r')
  }

  /** A table as it can be exported. */
  ghost predicate Exportable(t: TableId, lim: Limits, rows: seq<Row>, m: map<nat, Entry>) {
    && Lists(rows, m) && |rows| <= Max(t, lim) && |rows| < Pow256(KeyWidth(t))
    && ValidRows(t, rows)
  }

  lemma GetTablePut(t: TableId, lim: Limits, rows: seq<Row>, m: map<nat, Entry>, rest: seq<bv8>)
    requires Exportable(t, lim, rows, m)
    ensures GetTable(t, lim, map[], PutTable(t, rows) + rest) == Got(RestoredTable(t, m), rest)
  {
    hide Be, GetN, GetNum, PutRows, GetRows, StoreAll, Lists;
    var n := Be(KeyWidth(t), |rows|);
    Assoc([Magic(t)], n + PutRows(t, rows), rest);
    Assoc(n, PutRows(t, rows), rest);
    GetNPut([Magic(t)], n + (PutRows(t, rows) + rest));
    GetNumPut(KeyWidth(t), |rows|, PutRows(t, rows) + rest);
    GetRowsPut(t, lim, map[], rows, rest);
    StoreAllLists(t, lim, map[], rows, m);
    assert map[] + RestoredTable(t, m) == RestoredTable(t, m);
  }

  // ----- Hosts -----

  function Tag(v: nat): seq<bv8>
    requires 1 <= v <= 4
  {
    [0x48, 0x53, 0x54, if v == 1 then 1 else if v == 2 then 2 else if v == 3 then 3 else 4]
  }

  function MonoToReal(c: Clock, t: int): int {
    t - c.mono + c.wall
  }

  function RealToMono(c: Clock, t: int): int {
    t - c.wall + c.mono
  }

  /** The length byte and at most 255 characters. */
  function PutName(dns: Option<seq<bv8>>): seq<bv8> {
    match dns
    case None => [0]
    case Some(name) =>
      var n := if |name| > 255 then 255 else |name|;
      Powers();
      Be(1, n) + name[..n]
  }

  function GetName(s: seq<bv8>): (g: Got<Option<seq<bv8>>>)
    ensures g.Got? ==> |g.rest| < |s|
  {
    var (n, r) :- GetNum(1, s);
    if n == 0 then Got(None, r)
    else
      var (name, r') :- GetN(n, r);
      Got(Some(name), r')
  }

  /** A name as it comes back: cut off at 255 characters, and an empty one is none. */
  function RestoredName(dns: Option<seq<bv8>>): Option<seq<bv8>> {
    match dns
    case None => None
    case Some(name) => if |name| == 0 then None else if |name| > 255 then Some(name[..255]) else dns
  }

  lemma GetNamePut(dns: Option<seq<bv8>>, rest: seq<bv8>)
    ensures GetName(PutName(dns) + rest) == Got(RestoredName(dns), rest)
  {
    hide Be, GetNum, GetN;
    Powers();
    if dns == None {
      BeOfValue([0]);
      assert Value([0][..0]) == 0;
      GetNumPut(1, 0, rest);
    } else {
      var n := if |dns.value| > 255 then 255 else |dns.value|;
      Assoc(Be(1, n), dns.value[..n], rest);
      GetNumPut(1, n, dns.value[..n] + rest);
      if n == 0 {
        assert dns.value[..n] + rest == rest;
      } else {
        GetNPut(dns.value[..n], rest);
        assert |dns.value| <= 255 ==> dns.value[..n] == dns.value;
      }
    }
  }

  datatype Who = Who(addr: Addr, seen: Option<u64>)

  function PutWho(v: nat, a: Addr, seen: u64): seq<bv8> {
    (if v >= 3 then PutAddr(a) else a.bytes) + if v > 1 then Put64(seen) else []
  }

  /** The address, and from version 2 on the time it was last seen. */
  function GetWho(v: nat, s: seq<bv8>): (g: Got<Who>)
    ensures g.Got? ==> |g.rest| < |s|
  {
    var (a, r) :- if v >= 3 then GetAddr(s) else GetAddrIpv4(s);
    if v > 1 then
      var (t, r') :- Get64(r);
      Got(Who(a, Some(t)), r')
    else Got(Who(a, None), r)
  }

  lemma GetWhoPut(v: nat, a: Addr, seen: u64, rest: seq<bv8>)
    requires v >= 3 || a.family == IPv4
    ensures GetWho(v, PutWho(v, a, seen) + rest) == Got(Who(a, if v > 1 then Some(seen) else None), rest)
  {
    hide Put64, Get64, PutAddr, GetAddr;
    var t := if v > 1 then Put64(seen) else [];
    Assoc(if v >= 3 then PutAddr(a) else a.bytes, t, rest);
    if v >= 3 {
      GetAddrPut(a, t + rest);
    } else {
      GetNPut(a.bytes, t + rest);
    }
    if v > 1 {
      Get64Put(seen, rest);
    } else {
      assert [] + rest == rest;
    }
  }

  datatype About = About(mac: seq<bv8>, dns: Option<seq<bv8>>, flow: Flow)

  function PutAbout(mac: seq<bv8>, dns: Option<seq<bv8>>, flow: Flow): seq<bv8> {
    mac + (PutName(dns) + PutFlow(flow))
  }

  function GetAbout(s: seq<bv8>): (g: Got<About>)
    ensures g.Got? ==> |g.rest| < |s|
  {
    var (mac, r) :- GetN(6, s);
    var (dns, r') :- GetName(r);
    var (flow, r'') :- GetFlow(r');
    Got(About(mac, dns, flow), r'')
  }

  lemma GetAboutPut(mac: seq<bv8>, dns: Option<seq<bv8>>, flow: Flow, rest: seq<bv8>)
    requires |mac| == 6
    ensures GetAbout(PutAbout(mac, dns, flow) + rest) == Got(About(mac, RestoredName(dns), Refigured(flow)), rest)
  {
    hide GetN, PutName, GetName, PutFlow, GetFlow, RestoredName, Refigured;
    Assoc(mac, PutName(dns) + PutFlow(flow), rest);
    Assoc(PutName(dns), PutFlow(flow), rest);
    GetNPut(mac, PutName(dns) + (PutFlow(flow) + rest));
    GetNamePut(dns, PutFlow(flow) + rest);
    GetFlowPut(flow, rest);
  }

  function Rows(c: Record, t: TableId): seq<Row> {
    match t
    case Protos => c.protos
    case Tcp => c.tcp
    case Udp => c.udp
    case TcpRemote => c.tcpRemote
    case UdpRemote => c.udpRemote
  }

  /** The tables that version `v` has, in order. */
  function TablesOf(v: nat): seq<TableId> {
    if v == 4 then [Protos, Tcp, Udp, TcpRemote, UdpRemote] else [Protos, Tcp, Udp]
  }

  ghost predicate Sized(c: Record) {
    forall t :: |Rows(c, t)| < Pow256(KeyWidth(t)) && ValidRows(t, Rows(c, t))
  }

  function PutTables(ids: seq<TableId>, c: Record): seq<bv8>
    requires Sized(c)
  {
    if ids == [] then [] else PutTable(ids[0], Rows(c, ids[0])) + PutTables(ids[1..], c)
  }

  function GetTables(ids: seq<TableId>, lim: Limits, ts: Tables, s: seq<bv8>): (g: Got<Tables>)
    ensures g.Got? ==> |g.rest| <= |s|
    decreases |ids|
  {
    if ids == [] then Got(ts, s)
    else
      var (m, r) :- GetTable(ids[0], lim, Table(ts, ids[0]), s);
      GetTables(ids[1..], lim, WithTable(ts, ids[0], m), r)
  }

  /** The tables `ids` of `ts` put into `base`, as they come back. */
  ghost function RestoredTables(ids: seq<TableId>, base: Tables, ts: Tables): Tables {
    if ids == [] then base
    else RestoredTables(ids[1..], WithTable(base, ids[0], RestoredTable(ids[0], Table(ts, ids[0]))), ts)
  }

  ghost predicate ListsTables(lim: Limits, c: Record, ts: Tables) {
    forall t :: Exportable(t, lim, Rows(c, t), Table(ts, t))
  }

  lemma {:induction false} GetTablesPut(ids: seq<TableId>, lim: Limits, base: Tables, c: Record, ts: Tables, rest: seq<bv8>)
    requires ListsTables(lim, c, ts) && Sized(c)
    requires forall i :: 0 <= i < |ids| ==> Table(base, ids[i]) == map[]
    requires forall i, j :: 0 <= i < j < |ids| ==> ids[i] != ids[j]
    ensures GetTables(ids, lim, base, PutTables(ids, c) + rest) == Got(RestoredTables(ids, base, ts), rest)
    decreases |ids|
  {
    hide PutTable, GetTable, RestoredTable, Exportable, Rows, Table, WithTable;
    if ids == [] {
      assert [] + rest == rest;
    } else {
      var t := ids[0];
      assert Exportable(t, lim, Rows(c, t), Table(ts, t));
      Assoc(PutTable(t, Rows(c, t)), PutTables(ids[1..], c), rest);
      GetTablePut(t, lim, Rows(c, t), Table(ts, t), PutTables(ids[1..], c) + rest);
      GetTablesPut(ids[1..], lim, WithTable(base, t, RestoredTable(t, Table(ts, t))), c, ts, rest);
    }
  }

  predicate ValidVersion(v: nat, a: Addr) {
    1 <= v <= 4 && (v < 3 ==> a.family == IPv4)
  }

  /** A host record of version `v`. The exporter writes version 4; older versions of it wrote the others. */
  function PutRecord(v: nat, clock: Clock, c: Record): seq<bv8>
    requires ValidVersion(v, c.addr) && Sized(c)
  {
    Tag(v) + (PutWho(v, c.addr, Unsigned(MonoToReal(clock, c.lastSeen)))
              + (PutAbout(c.mac, c.dns, c.flow) + PutTables(TablesOf(v), c)))
  }

  function VersionOf(tag: seq<bv8>): (v: nat)
    ensures 1 <= v <= 4 <==> exists u :: 1 <= u <= 4 && tag == Tag(u)
    ensures 1 <= v <= 4 ==> tag == Tag(v)
  {
    if tag == Tag(4) then 4 else if tag == Tag(3) then 3 else if tag == Tag(2) then 2 else if tag == Tag(1) then 1 else 0
  }

  /** hosts_db_import_host(); an import into a host that already has a name is a failed assertion. */
  function GetRecord(lim: Limits, clock: Clock, db: Db, s: seq<bv8>): (g: Got<Db>)
    ensures g.Got? ==> |g.rest| < |s|
  {
    var (tag, r1) :- GetN(4, s);
    var v := VersionOf(tag);
    if v == 0 then Fail
    else
      var (who, r2) :- GetWho(v, r1);
      var h := if who.addr in db then db[who.addr] else NEW_HOST;
      if h.dns != None then Fail
      else
        var seen := if who.seen == None then h.lastSeen else RealToMono(clock, Signed(who.seen.value));
        var (about, r3) :- GetAbout(r2);
        var (ts, r4) :- GetTables(TablesOf(v), lim, h.tables, r3);
        Got(db[who.addr := Host(about.flow, about.dns, about.mac, seen, h.latest, ts)], r4)
  }

  /** A host that a record of version `v` was written from under `before`, read back under `after`. */
  ghost function RestoredHost(v: nat, before: Clock, after: Clock, h: Host): Host {
    Host(Refigured(h.flow), RestoredName(h.dns), h.mac,
         if v > 1 then RealToMono(after, Signed(Unsigned(MonoToReal(before, h.lastSeen)))) else 0, None,
         RestoredTables(TablesOf(v), NEW_HOST.tables, h.tables))
  }

  /** The record lists the host. */
  ghost predicate ListsHost(lim: Limits, c: Record, h: Host) {
    && c.flow == h.flow && c.dns == h.dns && c.mac == h.mac && |h.mac| == 6 && c.lastSeen == h.lastSeen
    && Sized(c) && ListsTables(lim, c, h.tables)
  }

  /** The record shows the host, its tables in whatever order of their entries. */
  ghost predicate Pictures(c: Record, h: Host) {
    && c.flow == h.flow && c.dns == h.dns && c.mac == h.mac && c.lastSeen == h.lastSeen
    && forall t :: Lists(Rows(c, t), Table(h.tables, t))
  }

  lemma TagLength(v: nat)
    requires 1 <= v <= 4
    ensures |Tag(v)| == 4 && VersionOf(Tag(v)) == v
  {
  }

  lemma GetRecordPut(v: nat, lim: Limits, before: Clock, after: Clock, db: Db, c: Record, h: Host, rest: seq<bv8>)
    requires ValidVersion(v, c.addr) && ListsHost(lim, c, h) && c.addr !in db
    ensures GetRecord(lim, after, db, PutRecord(v, before, c) + rest)
            == Got(db[c.addr := RestoredHost(v, before, after, h)], rest)
  {
    hide Tag, VersionOf, GetN, PutWho, GetWho, PutAbout, GetAbout, PutTables, GetTables, Unsigned, Signed, Refigured,
         RestoredName, RestoredTables, ListsTables, Sized;
    var seen := Unsigned(MonoToReal(before, c.lastSeen));
    var who, about, ts := PutWho(v, c.addr, seen), PutAbout(c.mac, c.dns, c.flow), PutTables(TablesOf(v), c);
    TagLength(v);
    Assoc(Tag(v), who + (about + ts), rest);
    Assoc(who, about + ts, rest);
    Assoc(about, ts, rest);
    GetNPut(Tag(v), who + (about + (ts + rest)));
    GetWhoPut(v, c.addr, seen, about + (ts + rest));
    GetAboutPut(c.mac, c.dns, c.flow, ts + rest);
    GetTablesPut(TablesOf(v), lim, NEW_HOST.tables, c, h.tables, rest);
  }

  // ----- All hosts -----

  ghost predicate ValidRecords(v: nat, cs: seq<Record>) {
    forall i :: 0 <= i < |cs| ==> ValidVersion(v, cs[i].addr) && Sized(cs[i])
  }

  function PutHosts(v: nat, clock: Clock, cs: seq<Record>): seq<bv8>
    requires ValidRecords(v, cs)
  {
    if cs == [] then [] else PutRecord(v, clock, cs[0]) + PutHosts(v, clock, cs[1..])
  }

  function GetHosts(n: nat, lim: Limits, clock: Clock, db: Db, s: seq<bv8>): (g: Got<Db>)
    ensures g.Got? ==> |g.rest| <= |s|
    decreases n
  {
    if n == 0 then Got(db, s)
    else
      var (db', r) :- GetRecord(lim, clock, db, s);
      GetHosts(n - 1, lim, clock, db', r)
  }

  /** The records list the hosts of the database, each once, in whatever order. */
  ghost predicate ListsDb(lim: Limits, cs: seq<Record>, db: Db) {
    && (forall i, j :: 0 <= i < j < |cs| ==> cs[i].addr != cs[j].addr)
    && (forall i :: 0 <= i < |cs| ==> cs[i].addr in db && ListsHost(lim, cs[i], db[cs[i].addr]))
    && (forall a :: a in db ==> exists i :: 0 <= i < |cs| && cs[i].addr == a)
  }

  /** The records show the hosts of the database, each once, in whatever order. */
  ghost predicate PicturesDb(cs: seq<Record>, db: Db) {
    && (forall i, j :: 0 <= i < j < |cs| ==> cs[i].addr != cs[j].addr)
    && (forall i :: 0 <= i < |cs| ==> cs[i].addr in db && Pictures(cs[i], db[cs[i].addr]))
    && (forall a :: a in db ==> exists i :: 0 <= i < |cs| && cs[i].addr == a)
  }

  lemma ListsMore(rest: seq<Row>, m: map<nat, Entry>, k: nat)
    requires k in m && Lists(rest, m - {k})
    ensures Lists([Row(k, m[k])] + rest, m)
  {
    var rows := [Row(k, m[k])] + rest;
    forall j | j in m
      ensures exists i :: 0 <= i < |rows| && rows[i].key == j
    {
      if j == k {
        assert rows[0].key == j;
      } else {
        assert j in m - {k};
        var i :| 0 <= i < |rest| && rest[i].key == j;
        assert rows[i + 1].key == j;
      }
    }
  }

  /** Every table has a listing. */
  lemma {:induction false} RowsExist(m: map<nat, Entry>) returns (rows: seq<Row>)
    ensures Lists(rows, m)
    decreases |m|
  {
    if m == map[] {
      rows := [];
    } else {
      hide Lists;
      var k :| k in m;
      var rest := RowsExist(m - {k});
      ListsMore(rest, m, k);
      rows := [Row(k, m[k])] + rest;
    }
  }

  lemma PictureExists(a: Addr, h: Host) returns (c: Record)
    ensures c.addr == a && Pictures(c, h)
  {
    hide Lists;
    var p := RowsExist(h.tables.protos);
    var t := RowsExist(h.tables.tcp);
    var u := RowsExist(h.tables.udp);
    var tr := RowsExist(h.tables.tcpRemote);
    var ur := RowsExist(h.tables.udpRemote);
    c := Record(a, h.flow, h.dns, h.mac, h.lastSeen, p, t, u, tr, ur);
  }

  lemma PicturesMore(rest: seq<Record>, c: Record, db: Db)
    requires c.addr in db && Pictures(c, db[c.addr]) && PicturesDb(rest, db - {c.addr})
    ensures PicturesDb([c] + rest, db)
  {
    hide Pictures;
    var cs := [c] + rest;
    forall b | b in db
      ensures exists i :: 0 <= i < |cs| && cs[i].addr == b
    {
      if b == c.addr {
        assert cs[0].addr == b;
      } else {
        assert b in db - {c.addr};
        var i :| 0 <= i < |rest| && rest[i].addr == b;
        assert cs[i + 1].addr == b;
      }
    }
  }

  /** Every database has a listing. */
  lemma {:induction false} PicturesExist(db: Db) returns (cs: seq<Record>)
    ensures PicturesDb(cs, db)
    decreases |db|
  {
    if db == map[] {
      cs := [];
    } else {
      hide Pictures, PicturesDb;
      var a :| a in db;
      var rest := PicturesExist(db - {a});
      var c := PictureExists(a, db[a]);
      PicturesMore(rest, c, db);
      cs := [c] + rest;
    }
  }

  /** A listing has as many rows as the table has entries. */
  lemma {:induction false} ListsSize(rows: seq<Row>, m: map<nat, Entry>)
    requires Lists(rows, m)
    ensures |rows| == |m|
    decreases |rows|
  {
    if rows == [] {
      ListsNone(m);
    } else {
      ListsTail(rows, m);
      ListsSize(rows[1..], m - {rows[0].key});
      assert m.Keys == (m - {rows[0].key}).Keys + {rows[0].key};
    }
  }

  lemma {:induction false} PicturesSize(cs: seq<Record>, db: Db)
    requires PicturesDb(cs, db)
    ensures |cs| == |db|
    decreases |cs|
  {
    hide Pictures;
    if cs == [] {
      assert db == map[];
    } else {
      var a := cs[0].addr;
      PicturesTail(cs, db);
      PicturesSize(cs[1..], db - {a});
      assert db.Keys == (db - {a}).Keys + {a};
    }
  }

  lemma PicturesTail(cs: seq<Record>, db: Db)
    requires cs != [] && PicturesDb(cs, db)
    ensures PicturesDb(cs[1..], db - {cs[0].addr})
  {
    hide Pictures;
    forall a | a in db && a != cs[0].addr
      ensures exists i :: 0 <= i < |cs[1..]| && cs[1..][i].addr == a
    {
      var i :| 0 <= i < |cs| && cs[i].addr == a;
      assert cs[1..][i - 1].addr == a;
    }
  }

  ghost function RestoredDb(v: nat, before: Clock, after: Clock, db: Db): Db {
    map a | a in db :: RestoredHost(v, before, after, db[a])
  }

  lemma ListsDbTail(lim: Limits, cs: seq<Record>, db: Db)
    requires cs != [] && ListsDb(lim, cs, db)
    ensures ListsDb(lim, cs[1..], db - {cs[0].addr}) && cs[0].addr in db && ListsHost(lim, cs[0], db[cs[0].addr])
  {
    hide ListsHost;
    var db' := db - {cs[0].addr};
    forall a | a in db'
      ensures exists i :: 0 <= i < |cs[1..]| && cs[1..][i].addr == a
    {
      var i :| 0 <= i < |cs| && cs[i].addr == a;
      assert cs[1..][i - 1].addr == a;
    }
  }

  lemma ListsDbNone(lim: Limits, db: Db)
    requires ListsDb(lim, [], db)
    ensures db == map[]
  {
  }

  lemma MergeHost(v: nat, before: Clock, after: Clock, done: Db, db: Db, a: Addr)
    requires a in db && done.Keys !! db.Keys
    ensures done[a := RestoredHost(v, before, after, db[a])] + RestoredDb(v, before, after, db - {a})
            == done + RestoredDb(v, before, after, db)
    ensures done[a := RestoredHost(v, before, after, db[a])].Keys !! (db - {a}).Keys
  {
    hide RestoredHost;
  }

  lemma RestoredDbNone(v: nat, before: Clock, after: Clock, done: Db)
    ensures done + RestoredDb(v, before, after, map[]) == done
  {
  }

  lemma {:induction false} GetHostsPut(v: nat, lim: Limits, before: Clock, after: Clock, done: Db, cs: seq<Record>,
                                       db: Db, rest: seq<bv8>)
    requires ListsDb(lim, cs, db) && ValidRecords(v, cs) && done.Keys !! db.Keys
    ensures GetHosts(|cs|, lim, after, done, PutHosts(v, before, cs) + rest)
            == Got(done + RestoredDb(v, before, after, db), rest)
    decreases |cs|
  {
    hide ListsDb, ListsHost, ValidVersion, Sized, PutRecord, GetRecord, RestoredHost, RestoredDb;
    if cs == [] {
      assert [] + rest == rest;
      ListsDbNone(lim, db);
      RestoredDbNone(v, before, after, done);
    } else {
      var a := cs[0].addr;
      ListsDbTail(lim, cs, db);
      var h := RestoredHost(v, before, after, db[a]);
      Assoc(PutRecord(v, before, cs[0]), PutHosts(v, before, cs[1..]), rest);
      GetRecordPut(v, lim, before, after, done, cs[0], db[a], PutHosts(v, before, cs[1..]) + rest);
      MergeHost(v, before, after, done, db, a);
      GetHostsPut(v, lim, before, after, done[a := h], cs[1..], db - {a}, rest);
    }
  }

  // ----- Graphs -----

  predicate ValidBar(b: Bar) {
    b.inn < U64 && b.out < U64
  }

  ghost predicate ValidBars(bars: seq<Bar>) {
    forall i :: 0 <= i < |bars| ==> ValidBar(bars[i])
  }

  function PutBars(bars: seq<Bar>): seq<bv8>
    requires ValidBars(bars)
  {
    if bars == [] then [] else (Put64(bars[0].inn) + Put64(bars[0].out)) + PutBars(bars[1..])
  }

  /** Reads `n` more bars. */
  function GetBars(n: nat, done: seq<Bar>, s: seq<bv8>): (g: Got<seq<Bar>>)
    ensures g.Got? ==> |g.value| == |done| + n && |g.rest| <= |s|
    decreases n
  {
    if n == 0 then Got(done, s)
    else
      var (inn, r) :- Get64(s);
      var (out, r') :- Get64(r);
      GetBars(n - 1, done + [Bar(inn, out)], r')
  }

  lemma {:induction false} GetBarsPut(done: seq<Bar>, bars: seq<Bar>, rest: seq<bv8>)
    requires ValidBars(bars)
    ensures GetBars(|bars|, done, PutBars(bars) + rest) == Got(done + bars, rest)
    decreases |bars|
  {
    hide Put64, Get64;
    if bars == [] {
      assert [] + rest == rest && done + [] == done;
    } else {
      var b := bars[0];
      var inn, out, more := Put64(b.inn), Put64(b.out), PutBars(bars[1..]);
      Assoc(inn + out, more, rest);
      Assoc(inn, out, more + rest);
      Get64Put(b.inn, out + (more + rest));
      Get64Put(b.out, more + rest);
      GetBarsPut(done + [b], bars[1..], rest);
      assert (done + [b]) + bars[1..] == done + bars;
    }
  }

  function PutRing(r: Ring): seq<bv8>
    requires ValidRing(r) && |r.bars| < 256 && ValidBars(r.bars)
  {
    Powers();
    Be(1, |r.bars|) + (Be(1, r.pos) + PutBars(r.bars))
  }

  /** Reads the graph that has `size` bars. */
  function GetRing(size: nat, s: seq<bv8>): (g: Got<Ring>)
    ensures g.Got? ==> ValidRing(g.value) && |g.value.bars| == size && |g.rest| <= |s|
  {
    var (n, r) :- GetNum(1, s);
    var (pos, r') :- GetNum(1, r);
    if pos >= n || n != size then Fail
    else
      var (bars, r'') :- GetBars(n, [], r');
      Got(Ring(bars, pos), r'')
  }

  lemma GetRingPut(r: Ring, rest: seq<bv8>)
    requires ValidRing(r) && |r.bars| < 256 && ValidBars(r.bars)
    ensures GetRing(|r.bars|, PutRing(r) + rest) == Got(r, rest)
  {
    hide Be, GetNum, PutBars, GetBars;
    Powers();
    var n, p := Be(1, |r.bars|), Be(1, r.pos);
    Assoc(n, p + PutBars(r.bars), rest);
    Assoc(p, PutBars(r.bars), rest);
    GetNumPut(1, |r.bars|, p + (PutBars(r.bars) + rest));
    GetNumPut(1, r.pos, PutBars(r.bars) + rest);
    GetBarsPut([], r.bars, rest);
    assert [] + r.bars == r.bars;
  }

  ghost predicate SmallRings(rs: seq<Ring>) {
    forall i :: 0 <= i < |rs| ==> ValidRing(rs[i]) && |rs[i].bars| < 256 && ValidBars(rs[i].bars)
  }

  function PutRings(rs: seq<Ring>): seq<bv8>
    requires SmallRings(rs)
  {
    if rs == [] then [] else PutRing(rs[0]) + PutRings(rs[1..])
  }

  /** Reads the graphs with the given numbers of bars. */
  function GetRings(sizes: seq<nat>, done: seq<Ring>, s: seq<bv8>): (g: Got<seq<Ring>>)
    ensures g.Got? ==> |g.value| == |done| + |sizes| && |g.rest| <= |s|
    decreases |sizes|
  {
    if sizes == [] then Got(done, s)
    else
      var (r, s') :- GetRing(sizes[0], s);
      GetRings(sizes[1..], done + [r], s')
  }

  ghost predicate Measures(rs: seq<Ring>, sizes: seq<nat>) {
    |rs| == |sizes| && forall i :: 0 <= i < |rs| ==> |rs[i].bars| == sizes[i]
  }

  lemma {:induction false} GetRingsPut(done: seq<Ring>, rs: seq<Ring>, sizes: seq<nat>, rest: seq<bv8>)
    requires SmallRings(rs) && Measures(rs, sizes)
    ensures GetRings(sizes, done, PutRings(rs) + rest) == Got(done + rs, rest)
    decreases |rs|
  {
    hide PutRing, GetRing, ValidRing, ValidBars;
    if rs == [] {
      assert [] + rest == rest && done + [] == done;
    } else {
      Assoc(PutRing(rs[0]), PutRings(rs[1..]), rest);
      GetRingPut(rs[0], PutRings(rs[1..]) + rest);
      GetRingsPut(done + [rs[0]], rs[1..], sizes[1..], rest);
      assert (done + [rs[0]]) + rs[1..] == done + rs;
    }
  }

  // ----- The whole file -----

  const FILE_HEADER: seq<bv8> := [0xDA, 0x31, 0x41, 0x59]
  const HOSTS_HEADER: seq<bv8> := [0xDA, 0x48, 0x53, 0x01]
  const GRAPH_HEADER: seq<bv8> := [0xDA, 0x47, 0x52, 0x01]

  /** What a file restores. */
  datatype Image = Image(db: Db, last: int, rings: seq<Ring>)

  ghost predicate Writable(v: nat, cs: seq<Record>, rs: seq<Ring>) {
    ValidRecords(v, cs) && |cs| < 0x1_0000_0000 && SmallRings(rs) && Measures(rs, SIZES)
  }

  function PutHostsSection(v: nat, clock: Clock, cs: seq<Record>): seq<bv8>
    requires ValidRecords(v, cs) && |cs| < 0x1_0000_0000
  {
    Powers();
    HOSTS_HEADER + (Be(4, |cs|) + PutHosts(v, clock, cs))
  }

  function PutGraphSection(last: int, rs: seq<Ring>): seq<bv8>
    requires SmallRings(rs)
  {
    GRAPH_HEADER + (Put64(Unsigned(last)) + PutRings(rs))
  }

  /** db_export_to_fd(), for records of version `v`. */
  function PutFile(v: nat, clock: Clock, cs: seq<Record>, last: int, rs: seq<Ring>): seq<bv8>
    requires Writable(v, cs, rs)
  {
    FILE_HEADER + (PutHostsSection(v, clock, cs) + PutGraphSection(last, rs))
  }

  /** read_file_header() */
  function Header(h: seq<bv8>, s: seq<bv8>): (g: Got<()>)
    requires |h| == 4
    ensures g.Got? ==> |g.rest| <= |s|
  {
    var (b, r) :- GetN(4, s);
    if b == h then Got((), r) else Fail
  }

  function GetHostsSection(lim: Limits, clock: Clock, db: Db, s: seq<bv8>): Got<Db> {
    var (_, r1) :- Header(HOSTS_HEADER, s);
    var (n, r2) :- GetNum(4, r1);
    GetHosts(n, lim, clock, db, r2)
  }

  datatype Graphs = Graphs(last: int, rings: seq<Ring>)

  function GetGraphSection(s: seq<bv8>): Got<Graphs> {
    var (_, r1) :- Header(GRAPH_HEADER, s);
    var (last, r2) :- Get64(r1);
    var (rs, r3) :- GetRings(SIZES, [], r2);
    Got(Graphs(Signed(last), rs), r3)
  }

  /** db_import_from_fd() */
  function GetFile(lim: Limits, clock: Clock, db: Db, s: seq<bv8>): Got<Image> {
    var (_, r1) :- Header(FILE_HEADER, s);
    var (db', r2) :- GetHostsSection(lim, clock, db, r1);
    var (gs, r3) :- GetGraphSection(r2);
    Got(Image(db', gs.last, gs.rings), r3)
  }

  lemma HeaderPut(h: seq<bv8>, rest: seq<bv8>)
    requires |h| == 4
    ensures Header(h, h + rest) == Got((), rest)
  {
    GetNPut(h, rest);
  }

  lemma GetHostsSectionPut(v: nat, lim: Limits, before: Clock, after: Clock, cs: seq<Record>, db: Db, rest: seq<bv8>)
    requires ListsDb(lim, cs, db) && ValidRecords(v, cs) && |cs| < 0x1_0000_0000
    ensures GetHostsSection(lim, after, map[], PutHostsSection(v, before, cs) + rest)
            == Got(RestoredDb(v, before, after, db), rest)
  {
    hide Header, Be, GetNum, PutHosts, GetHosts, ListsDb, ValidRecords;
    Powers();
    var n, hosts := Be(4, |cs|), PutHosts(v, before, cs);
    Assoc(HOSTS_HEADER, n + hosts, rest);
    Assoc(n, hosts, rest);
    HeaderPut(HOSTS_HEADER, n + (hosts + rest));
    GetNumPut(4, |cs|, hosts + rest);
    GetHostsPut(v, lim, before, after, map[], cs, db, rest);
    assert map[] + RestoredDb(v, before, after, db) == RestoredDb(v, before, after, db);
  }

  lemma GetGraphSectionPut(last: int, rs: seq<Ring>, rest: seq<bv8>)
    requires SmallRings(rs) && Measures(rs, SIZES)
    ensures GetGraphSection(PutGraphSection(last, rs) + rest) == Got(Graphs(Signed(Unsigned(last)), rs), rest)
  {
    hide Header, Put64, Get64, PutRings, GetRings, Signed, Unsigned, SmallRings, Measures;
    var t := Put64(Unsigned(last));
    Assoc(GRAPH_HEADER, t + PutRings(rs), rest);
    Assoc(t, PutRings(rs), rest);
    HeaderPut(GRAPH_HEADER, t + (PutRings(rs) + rest));
    Get64Put(Unsigned(last), PutRings(rs) + rest);
    GetRingsPut([], rs, SIZES, rest);
    assert [] + rs == rs;
  }

  /**
   Importing what was written, in any order of the records and rows and with anything behind it, into an empty
   database restores every host and the four graphs and leaves what is behind untouched.
   */
  lemma GetFilePut(v: nat, lim: Limits, before: Clock, after: Clock, cs: seq<Record>, db: Db,
                   last: int, rs: seq<Ring>, rest: seq<bv8>)
    requires ListsDb(lim, cs, db) && Writable(v, cs, rs)
    ensures GetFile(lim, after, map[], PutFile(v, before, cs, last, rs) + rest)
            == Got(Image(RestoredDb(v, before, after, db), Signed(Unsigned(last)), rs), rest)
  {
    hide Header, PutHostsSection, GetHostsSection, PutGraphSection, GetGraphSection, Signed, Unsigned, ListsDb,
         ValidRecords, SmallRings, Measures;
    var hosts, graph := PutHostsSection(v, before, cs), PutGraphSection(last, rs);
    Assoc(FILE_HEADER, hosts + graph, rest);
    Assoc(hosts, graph, rest);
    HeaderPut(FILE_HEADER, hosts + (graph + rest));
    GetHostsSectionPut(v, lim, before, after, cs, db, graph + rest);
    GetGraphSectionPut(last, rs, rest);
  }

  // ----- What comes back -----

  ghost predicate CleanTable(t: TableId, m: map<nat, Entry>) {
    forall k :: k in m ==> CleanFlow(m[k].flow) && (!HasSyn(t) ==> m[k].syn == 0)
  }

  predicate CleanName(dns: Option<seq<bv8>>) {
    dns.Some? ==> 1 <= |dns.value| <= 255
  }

  /** A host that the format can hold, seen under the clock it is exported by. */
  ghost predicate CleanHost(clock: Clock, h: Host) {
    && CleanFlow(h.flow) && CleanName(h.dns) && Int64(MonoToReal(clock, h.lastSeen))
    && forall t :: CleanTable(t, Table(h.tables, t))
  }

  /** The same host on a machine whose clocks read differently; its latest packet is not exported. */
  function Moved(before: Clock, after: Clock, h: Host): (r: Host)
    ensures MonoToReal(after, r.lastSeen) == MonoToReal(before, h.lastSeen)
  {
    h.(lastSeen := RealToMono(after, MonoToReal(before, h.lastSeen)), latest := None)
  }

  lemma CleanTableExact(t: TableId, m: map<nat, Entry>)
    ensures RestoredTable(t, m) == m <==> CleanTable(t, m)
  {
    var r := RestoredTable(t, m);
    if r == m {
      forall k | k in m
        ensures CleanFlow(m[k].flow) && (!HasSyn(t) ==> m[k].syn == 0)
      {
        assert r[k] == m[k];
      }
    }
  }

  /** What is read for each version: all five tables, or three with the remote ports left empty. */
  lemma VersionTables(v: nat, ts: Tables)
    ensures var base := NEW_HOST.tables;
            RestoredTables(TablesOf(v), base, ts)
            == Tables(RestoredTable(Protos, ts.protos), RestoredTable(Tcp, ts.tcp), RestoredTable(Udp, ts.udp),
                      if v == 4 then RestoredTable(TcpRemote, ts.tcpRemote) else map[],
                      if v == 4 then RestoredTable(UdpRemote, ts.udpRemote) else map[])
  {
    hide RestoredTable;
    var base := NEW_HOST.tables;
    var b3 := Tables(RestoredTable(Protos, ts.protos), RestoredTable(Tcp, ts.tcp), RestoredTable(Udp, ts.udp),
                     map[], map[]);
    var more := if v == 4 then [TcpRemote, UdpRemote] else [];
    assert TablesOf(v) == [Protos] + ([Tcp] + ([Udp] + more));
    RestoredFirst(Protos, [Tcp] + ([Udp] + more), base, ts);
    RestoredFirst(Tcp, [Udp] + more, base.(protos := b3.protos), ts);
    RestoredFirst(Udp, more, b3.(udp := map[]), ts);
    if v == 4 {
      assert more == [TcpRemote] + ([UdpRemote] + []);
      RestoredFirst(TcpRemote, [UdpRemote] + [], b3, ts);
      RestoredFirst(UdpRemote, [], b3.(tcpRemote := RestoredTable(TcpRemote, ts.tcpRemote)), ts);
    }
  }

  lemma RestoredFirst(t: TableId, ids: seq<TableId>, base: Tables, ts: Tables)
    ensures RestoredTables([t] + ids, base, ts)
            == RestoredTables(ids, WithTable(base, t, RestoredTable(t, Table(ts, t))), ts)
  {
    hide RestoredTable, WithTable, Table;
    assert ([t] + ids)[1..] == ids;
  }

  /** A host comes back unchanged, but for the clocks, if and only if it is clean. */
  lemma CleanHostExact(before: Clock, after: Clock, h: Host)
    ensures RestoredHost(4, before, after, h) == Moved(before, after, h) <==> CleanHost(before, h)
  {
    hide RestoredTable, CleanTable;
    VersionTables(4, h.tables);
    SignedUnsigned(MonoToReal(before, h.lastSeen));
    var ts := h.tables;
    CleanTableExact(Protos, ts.protos);
    CleanTableExact(Tcp, ts.tcp);
    CleanTableExact(Udp, ts.udp);
    CleanTableExact(TcpRemote, ts.tcpRemote);
    CleanTableExact(UdpRemote, ts.udpRemote);
    assert (forall t :: CleanTable(t, Table(ts, t))) <==>
      CleanTable(Protos, Table(ts, Protos)) && CleanTable(Tcp, Table(ts, Tcp)) && CleanTable(Udp, Table(ts, Udp))
      && CleanTable(TcpRemote, Table(ts, TcpRemote)) && CleanTable(UdpRemote, Table(ts, UdpRemote));
  }

  /** A name of no characters is one that does not come back. */
  lemma EmptyNameLost(before: Clock, after: Clock, h: Host)
    requires h.dns == Some([])
    ensures RestoredHost(4, before, after, h).dns == None && !CleanHost(before, h)
  {
  }

  /** The round trip of a clean database. */
  lemma RoundTrip(lim: Limits, before: Clock, after: Clock, cs: seq<Record>, db: Db,
                  last: int, rs: seq<Ring>, rest: seq<bv8>)
    requires ListsDb(lim, cs, db) && Writable(4, cs, rs) && Int64(last)
    requires forall a :: a in db ==> CleanHost(before, db[a])
    ensures GetFile(lim, after, map[], PutFile(4, before, cs, last, rs) + rest)
            == Got(Image(map a | a in db :: Moved(before, after, db[a]), last, rs), rest)
  {
    hide GetFile, PutFile, ListsDb, Writable, CleanHost, RestoredHost;
    GetFilePut(4, lim, before, after, cs, db, last, rs, rest);
    SignedUnsigned(last);
    forall a | a in db
      ensures RestoredHost(4, before, after, db[a]) == Moved(before, after, db[a])
    {
      CleanHostExact(before, after, db[a]);
    }
    assert RestoredDb(4, before, after, db) == map a | a in db :: Moved(before, after, db[a]);
  }
}
