/** The export format by places: which bytes of a file say what (export-format.txt). */
module ExportLayout {
  import opened Wrappers
  import opened Bytes
  import opened Addrs
  import opened HostsDb
  import opened GraphRing
  import opened Export

  // ----- The format -----

  /** The `n` bytes at place `k` are the number `x` in network order. */
  predicate Shows(b: seq<bv8>, k: nat, n: nat, x: int) {
    k + n <= |b| && Value(b[k..k + n]) == x
  }

  /** The bytes `x` stand at place `k`. */
  predicate Has(b: seq<bv8>, k: nat, x: seq<bv8>) {
    k + |x| <= |b| && b[k..k + |x|] == x
  }

  /** A protocol: one byte, bytes in, bytes out. */
  predicate IsProtoRow(b: seq<bv8>, r: Row) {
    |b| == 17 && Shows(b, 0, 1, r.key) && Shows(b, 1, 8, r.entry.flow.inn) && Shows(b, 9, 8, r.entry.flow.out)
  }

  /** A TCP port: two bytes, SYN packets, bytes in, bytes out. */
  predicate IsTcpRow(b: seq<bv8>, r: Row) {
    && |b| == 26 && Shows(b, 0, 2, r.key) && Shows(b, 2, 8, r.entry.syn)
    && Shows(b, 10, 8, r.entry.flow.inn) && Shows(b, 18, 8, r.entry.flow.out)
  }

  /** A UDP port: two bytes, bytes in, bytes out. */
  predicate IsUdpRow(b: seq<bv8>, r: Row) {
    |b| == 18 && Shows(b, 0, 2, r.key) && Shows(b, 2, 8, r.entry.flow.inn) && Shows(b, 10, 8, r.entry.flow.out)
  }

  predicate IsRow(b: seq<bv8>, t: TableId, r: Row) {
    match t
    case Protos => IsProtoRow(b, r)
    case Tcp => IsTcpRow(b, r)
    case Udp => IsUdpRow(b, r)
    case TcpRemote => IsTcpRow(b, r)
    case UdpRemote => IsUdpRow(b, r)
  }

  /** Where row `i` starts, counted from the first. */
  function RowPlace(t: TableId, i: nat): nat {
    match t
    case Protos => 17 * i
    case Tcp => 26 * i
    case Udp => 18 * i
    case TcpRemote => 26 * i
    case UdpRemote => 18 * i
  }

  lemma RowPlaceNext(t: TableId, i: nat, n: nat)
    requires i < n
    ensures RowPlace(t, i) <= RowPlace(t, i + 1) == RowPlace(t, i) + RowPlace(t, 1) <= RowPlace(t, n)
    ensures RowPlace(t, 0) == 0
  {
  }

  predicate RowAt(b: seq<bv8>, t: TableId, i: nat, r: Row) {
    var k, n := RowPlace(t, i), RowPlace(t, i + 1);
    k <= n <= |b| && IsRow(b[k..n], t, r)
  }

  ghost predicate AreRows(b: seq<bv8>, t: TableId, rows: seq<Row>) {
    |b| == RowPlace(t, |rows|) && forall i :: 0 <= i < |rows| ==> RowAt(b, t, i, rows[i])
  }

  function Letter(t: TableId): bv8 {
    match t
    case Protos => 0x50     // P
    case Tcp => 0x54        // T
    case Udp => 0x55        // U
    case TcpRemote => 0x74  // t
    case UdpRemote => 0x75  // u
  }

  /** A letter, the number of rows in one byte or two, and the rows. */
  ghost predicate IsTable(b: seq<bv8>, t: TableId, rows: seq<Row>) {
    var start := if t == Protos then 2 else 3;
    && |b| == TableSize(t, rows) && b[0] == Letter(t) && Shows(b, 1, start - 1, |rows|)
    && AreRows(b[start..], t, rows)
  }

  function TableSize(t: TableId, rows: seq<Row>): nat {
    (if t == Protos then 2 else 3) + RowPlace(t, |rows|)
  }

  /** What is written of a name. */
  function NameBytes(dns: Option<seq<bv8>>): (n: seq<bv8>)
    ensures |n| <= 255
  {
    if dns == None then [] else if |dns.value| > 255 then dns.value[..255] else dns.value
  }

  /** Where the MAC address starts: after the tag, the family (version 3 on), the address and the time (version 2 on). */
  function MacPlace(v: nat, c: Record): nat {
    4 + (if v >= 3 then 1 else 0) + |c.addr.bytes| + (if v >= 2 then 8 else 0)
  }

  /** Where the tables start: after the MAC address, the length of the name, the name and the two counters. */
  function TablesPlace(v: nat, c: Record): nat {
    MacPlace(v, c) + 6 + 1 + |NameBytes(c.dns)| + 16
  }

  ghost predicate IsHead(b: seq<bv8>, v: nat, clock: Clock, c: Record) {
    && Has(b, 0, [0x48, 0x53, 0x54]) && Shows(b, 3, 1, v)
    && (v >= 3 ==> Shows(b, 4, 1, if c.addr.family == IPv4 then 4 else 6))
    && Has(b, if v >= 3 then 5 else 4, c.addr.bytes)
    && (v >= 2 ==> Shows(b, MacPlace(v, c) - 8, 8, (clock.wall - (clock.mono - c.lastSeen)) % U64))
  }

  ghost predicate IsBody(b: seq<bv8>, v: nat, c: Record) {
    var m, n := MacPlace(v, c), |NameBytes(c.dns)|;
    && Has(b, m, c.mac) && Shows(b, m + 6, 1, n) && Has(b, m + 7, NameBytes(c.dns))
    && Shows(b, m + 7 + n, 8, c.flow.inn) && Shows(b, m + 7 + n + 8, 8, c.flow.out)
  }

  /** Protocols, TCP and UDP ports; in version 4 also the remote TCP and UDP ports. */
  ghost predicate AreTables(b: seq<bv8>, v: nat, c: Record) {
    var p, t, u := TableSize(Protos, c.protos), TableSize(Tcp, c.tcp), TableSize(Udp, c.udp);
    var tr, ur := TableSize(TcpRemote, c.tcpRemote), TableSize(UdpRemote, c.udpRemote);
    && |b| == p + t + u + (if v == 4 then tr + ur else 0)
    && IsTable(b[..p], Protos, c.protos) && IsTable(b[p..p + t], Tcp, c.tcp) && IsTable(b[p + t..p + t + u], Udp, c.udp)
    && (v == 4 ==> IsTable(b[p + t + u..p + t + u + tr], TcpRemote, c.tcpRemote)
                   && IsTable(b[p + t + u + tr..], UdpRemote, c.udpRemote))
  }

  ghost predicate IsRecord(b: seq<bv8>, v: nat, clock: Clock, c: Record) {
    && TablesPlace(v, c) <= |b| && IsHead(b, v, clock, c) && IsBody(b, v, c)
    && AreTables(b[TablesPlace(v, c)..], v, c)
  }

  function RecordSize(v: nat, c: Record): nat {
    TablesPlace(v, c) + TableSize(Protos, c.protos) + TableSize(Tcp, c.tcp) + TableSize(Udp, c.udp)
    + if v == 4 then TableSize(TcpRemote, c.tcpRemote) + TableSize(UdpRemote, c.udpRemote) else 0
  }

  /** Where record `i` starts, counted from the first. */
  function RecordPlace(v: nat, cs: seq<Record>, i: nat): nat
    requires i <= |cs|
  {
    if i == 0 then 0 else RecordPlace(v, cs, i - 1) + RecordSize(v, cs[i - 1])
  }

  ghost predicate RecordAt(b: seq<bv8>, v: nat, clock: Clock, cs: seq<Record>, i: nat) {
    && i < |cs|
    && var k, n := RecordPlace(v, cs, i), RecordPlace(v, cs, i + 1);
       k <= n <= |b| && IsRecord(b[k..n], v, clock, cs[i])
  }

  ghost predicate AreRecords(b: seq<bv8>, v: nat, clock: Clock, cs: seq<Record>) {
    |b| == RecordPlace(v, cs, |cs|) && forall i :: 0 <= i < |cs| ==> RecordAt(b, v, clock, cs, i)
  }

  /** The number of bars, the position, and for each bar its bytes in and its bytes out. */
  ghost predicate IsRing(b: seq<bv8>, r: Ring) {
    && |b| == 2 + 16 * |r.bars| && Shows(b, 0, 1, |r.bars|) && Shows(b, 1, 1, r.pos)
    && AreBars(b[2..], r.bars)
  }

  predicate BarAt(b: seq<bv8>, i: nat, bar: Bar) {
    Shows(b, 16 * i, 8, bar.inn) && Shows(b, 16 * i + 8, 8, bar.out)
  }

  ghost predicate AreBars(b: seq<bv8>, bars: seq<Bar>) {
    |b| == 16 * |bars| && forall i :: 0 <= i < |bars| ==> BarAt(b, i, bars[i])
  }

  /** 60 seconds, 60 minutes, 24 hours, 31 days. */
  ghost predicate AreRings(b: seq<bv8>, rs: seq<Ring>) {
    && |rs| == 4 && |b| == 962 + 962 + 386 + 498
    && IsRing(b[..962], rs[0]) && IsRing(b[962..1924], rs[1]) && IsRing(b[1924..2310], rs[2]) && IsRing(b[2310..], rs[3])
  }

  /** A file: the three headers, the number of hosts, the hosts, the last time, the graphs. */
  ghost predicate IsFile(b: seq<bv8>, v: nat, clock: Clock, cs: seq<Record>, last: int, rs: seq<Ring>) {
    var g := 12 + RecordPlace(v, cs, |cs|);
    && |b| == g + 12 + 2808
    && Has(b, 0, [0xDA, 0x31, 0x41, 0x59])
    && Has(b, 4, [0xDA, 0x48, 0x53, 0x01]) && Shows(b, 8, 4, |cs|) && AreRecords(b[12..g], v, clock, cs)
    && Has(b, g, [0xDA, 0x47, 0x52, 0x01]) && Shows(b, g + 4, 8, last % U64) && AreRings(b[g + 12..], rs)
  }

  // ----- Pieces in their places -----

  lemma Cut(a: seq<bv8>, x: seq<bv8>, b: seq<bv8>)
    ensures var s := a + (x + b);
            s[..|a|] == a && s[|a|..] == x + b && s[|a|..|a| + |x|] == x && s[|a| + |x|..] == b
  {
  }

  /** What has a place in a part has one in the whole. */
  lemma ShowsIn(a: seq<bv8>, x: seq<bv8>, k: nat, n: nat, v: int)
    requires Shows(x, k, n, v)
    ensures Shows(a + x, |a| + k, n, v)
  {
    assert (a + x)[|a| + k..|a| + k + n] == x[k..k + n];
  }

  lemma HasIn(a: seq<bv8>, x: seq<bv8>, k: nat, y: seq<bv8>)
    requires Has(x, k, y)
    ensures Has(a + x, |a| + k, y)
  {
    assert (a + x)[|a| + k..|a| + k + |y|] == x[k..k + |y|];
  }

  lemma NumberFirst(n: nat, x: nat, b: seq<bv8>)
    requires x < Pow256(n)
    ensures Shows(Be(n, x) + b, 0, n, x)
  {
    hide Be;
    assert (Be(n, x) + b)[0..n] == Be(n, x);
  }

  lemma Number64(x: u64, b: seq<bv8>)
    ensures Shows(Put64(x) + b, 0, 8, x)
  {
    Powers();
    NumberFirst(8, x, b);
  }

  lemma ByteShows(s: seq<bv8>, k: nat)
    requires k < |s|
    ensures Shows(s, k, 1, s[k] as nat)
  {
    assert s[k..k + 1] == [s[k]] && [s[k]][..0] == [];
    assert Value([s[k]]) == 256 * Value([s[k]][..0]) + s[k] as nat;
  }

  // ----- Tables -----

  /** The counters of a flow, in before out. */
  lemma FlowPlaces(f: Flow, b: seq<bv8>)
    ensures |PutFlow(f)| == 16
    ensures Shows(PutFlow(f) + b, 0, 8, f.inn) && Shows(PutFlow(f) + b, 8, 8, f.out)
  {
    hide Put64, Shows;
    var i, o := Put64(f.inn), Put64(f.out);
    Assoc(i, o, b);
    Number64(f.inn, o + b);
    Number64(f.out, b);
    ShowsIn(i, o + b, 0, 8, f.out);
  }

  lemma RowPlaces(t: TableId, r: Row)
    requires ValidKey(t, r.key)
    ensures IsRow(PutRow(t, r), t, r) && |PutRow(t, r)| == RowPlace(t, 1)
  {
    hide Put64, PutFlow, Be, Shows;
    var key, syn, flow := Be(KeyWidth(t), r.key), PutSyn(t, r.entry), PutFlow(r.entry.flow);
    NumberFirst(KeyWidth(t), r.key, syn + flow);
    FlowPlaces(r.entry.flow, []);
    assert flow + [] == flow;
    if HasSyn(t) {
      Number64(r.entry.syn, flow);
      ShowsIn(syn, flow, 0, 8, r.entry.flow.inn);
      ShowsIn(syn, flow, 8, 8, r.entry.flow.out);
      ShowsIn(key, syn + flow, 0, 8, r.entry.syn);
      ShowsIn(key, syn + flow, 8, 8, r.entry.flow.inn);
      ShowsIn(key, syn + flow, 16, 8, r.entry.flow.out);
    } else {
      assert syn + flow == flow;
      ShowsIn(key, flow, 0, 8, r.entry.flow.inn);
      ShowsIn(key, flow, 8, 8, r.entry.flow.out);
    }
  }

  lemma {:induction false} RowsPlaces(t: TableId, rows: seq<Row>)
    requires ValidRows(t, rows)
    ensures AreRows(PutRows(t, rows), t, rows)
    decreases |rows|
  {
    hide IsRow, PutRow, RowPlace;
    if rows == [] {
      RowPlaceNext(t, 0, 1);
    } else {
      RowPlaces(t, rows[0]);
      RowsPlaces(t, rows[1..]);
      RowsMore(PutRow(t, rows[0]), PutRows(t, rows[1..]), t, rows);
    }
  }

  lemma RowsMore(x: seq<bv8>, y: seq<bv8>, t: TableId, rows: seq<Row>)
    requires rows != [] && |x| == RowPlace(t, 1) && IsRow(x, t, rows[0]) && AreRows(y, t, rows[1..])
    ensures AreRows(x + y, t, rows)
  {
    hide IsRow, RowAt, RowPlace;
    RowPlaceNext(t, |rows| - 1, |rows|);
    forall i | 0 <= i < |rows|
      ensures RowAt(x + y, t, i, rows[i])
    {
      if i > 0 {
        assert rows[1..][i - 1] == rows[i];
      }
      RowLater(x, y, t, i, rows[i], |rows|);
    }
  }

  lemma RowLater(x: seq<bv8>, y: seq<bv8>, t: TableId, i: nat, r: Row, n: nat)
    requires i < n && |x| == RowPlace(t, 1) && |y| == RowPlace(t, n - 1)
    requires if i == 0 then IsRow(x, t, r) else RowAt(y, t, i - 1, r)
    ensures RowAt(x + y, t, i, r)
  {
    hide IsRow;
    if i == 0 {
      assert (x + y)[RowPlace(t, 0)..RowPlace(t, 1)] == x;
    } else {
      assert (x + y)[RowPlace(t, i)..RowPlace(t, i + 1)] == y[RowPlace(t, i - 1)..RowPlace(t, i)];
    }
  }

  lemma TablePlaces(t: TableId, rows: seq<Row>)
    requires |rows| < Pow256(KeyWidth(t)) && ValidRows(t, rows)
    ensures IsTable(PutTable(t, rows), t, rows) && |PutTable(t, rows)| == TableSize(t, rows)
  {
    hide PutRows, Be, Shows, AreRows, RowPlace;
    var n, body := Be(KeyWidth(t), |rows|), PutRows(t, rows);
    RowsPlaces(t, rows);
    assert |body| == RowPlace(t, |rows|) by { RowsSized(body, t, rows); }
    NumberFirst(KeyWidth(t), |rows|, body);
    ShowsIn([Magic(t)], n + body, 0, KeyWidth(t), |rows|);
    Cut([Magic(t)], n, body);
  }

  lemma RowsSized(b: seq<bv8>, t: TableId, rows: seq<Row>)
    requires AreRows(b, t, rows)
    ensures |b| == RowPlace(t, |rows|)
  {
  }

  // ----- Hosts -----

  lemma TablesPlaces(v: nat, c: Record)
    requires Sized(c)
    ensures AreTables(PutTables(TablesOf(v), c), v, c)
  {
    hide PutTable, IsTable, TableSize, ValidRows;
    var ids := TablesOf(v);
    var p, t, u := PutTable(Protos, c.protos), PutTable(Tcp, c.tcp), PutTable(Udp, c.udp);
    TableSized(c, Protos);
    TableSized(c, Tcp);
    TableSized(c, Udp);
    var more := if v == 4 then [TcpRemote, UdpRemote] else [];
    Powers();
    assert ids == [Protos, Tcp, Udp] + more;
    PutFirst(Protos, [Tcp, Udp] + more, c);
    assert [Protos] + ([Tcp, Udp] + more) == ids;
    PutFirst(Tcp, [Udp] + more, c);
    assert [Tcp] + ([Udp] + more) == [Tcp, Udp] + more;
    PutFirst(Udp, more, c);
    var rest := PutTables(more, c);
    assert PutTables(ids, c) == p + (t + (u + rest));
    ThreeCut(p, t, u, rest);
    if v == 4 {
      var tr, ur := PutTable(TcpRemote, c.tcpRemote), PutTable(UdpRemote, c.udpRemote);
      TableSized(c, TcpRemote);
      TableSized(c, UdpRemote);
      PutFirst(TcpRemote, [UdpRemote], c);
      assert [TcpRemote] + [UdpRemote] == more;
      PutFirst(UdpRemote, [], c);
      assert [UdpRemote] + [] == [UdpRemote] && ur + [] == ur;
      assert rest == tr + ur;
      FiveCut(p, t, u, tr, ur);
    }
  }

  lemma ThreeCut(p: seq<bv8>, t: seq<bv8>, u: seq<bv8>, rest: seq<bv8>)
    ensures var s := p + (t + (u + rest));
            var i, j := |p| + |t|, |p| + |t| + |u|;
            s[..|p|] == p && s[|p|..i] == t && s[i..j] == u && s[j..] == rest
  {
  }

  lemma FiveCut(p: seq<bv8>, t: seq<bv8>, u: seq<bv8>, x: seq<bv8>, y: seq<bv8>)
    ensures var s := p + (t + (u + (x + y)));
            var j := |p| + |t| + |u|;
            s[j..j + |x|] == x && s[j + |x|..] == y
  {
    ThreeCut(p, t, u, x + y);
    var s, j := p + (t + (u + (x + y))), |p| + |t| + |u|;
    assert s[j..j + |x|] == s[j..][..|x|] && s[j + |x|..] == s[j..][|x|..];
  }

  lemma TableSized(c: Record, t: TableId)
    requires Sized(c)
    ensures |Rows(c, t)| < Pow256(KeyWidth(t)) && ValidRows(t, Rows(c, t))
    ensures IsTable(PutTable(t, Rows(c, t)), t, Rows(c, t)) && |PutTable(t, Rows(c, t))| == TableSize(t, Rows(c, t))
  {
    hide PutTable, IsTable, TableSize;
    TablePlaces(t, Rows(c, t));
  }

  lemma PutFirst(t: TableId, ids: seq<TableId>, c: Record)
    requires Sized(c)
    ensures |Rows(c, t)| < Pow256(KeyWidth(t)) && ValidRows(t, Rows(c, t))
    ensures PutTables([t] + ids, c) == PutTable(t, Rows(c, t)) + PutTables(ids, c)
  {
    hide PutTable, Rows;
    assert ([t] + ids)[1..] == ids;
  }

  lemma WhoPlaces(v: nat, c: Record, seen: u64, b: seq<bv8>)
    requires ValidVersion(v, c.addr)
    ensures var w := PutWho(v, c.addr, seen);
            && |w| == MacPlace(v, c) - 4
            && (v >= 3 ==> Shows(w + b, 0, 1, if c.addr.family == IPv4 then 4 else 6))
            && Has(w + b, if v >= 3 then 1 else 0, c.addr.bytes)
            && (v >= 2 ==> Shows(w + b, |w| - 8, 8, seen))
  {
    hide Put64, Shows, Has;
    var a := if v >= 3 then PutAddr(c.addr) else c.addr.bytes;
    var w := PutWho(v, c.addr, seen);
    AddrPlaces(v, c.addr, (if v > 1 then Put64(seen) else []) + b);
    Assoc(a, if v > 1 then Put64(seen) else [], b);
    if v >= 2 {
      Number64(seen, b);
      ShowsIn(a, Put64(seen) + b, 0, 8, seen);
    }
  }

  lemma AddrPlaces(v: nat, a: Addr, b: seq<bv8>)
    ensures var s := (if v >= 3 then PutAddr(a) else a.bytes) + b;
            && (v >= 3 ==> Shows(s, 0, 1, if a.family == IPv4 then 4 else 6))
            && Has(s, if v >= 3 then 1 else 0, a.bytes)
  {
    var s := (if v >= 3 then PutAddr(a) else a.bytes) + b;
    if v >= 3 {
      ByteShows(s, 0);
      assert s[1..1 + |a.bytes|] == a.bytes;
    } else {
      assert s[0..|a.bytes|] == a.bytes;
    }
  }

  lemma TagPlaces(v: nat, b: seq<bv8>)
    requires 1 <= v <= 4
    ensures |Tag(v)| == 4 && Has(Tag(v) + b, 0, [0x48, 0x53, 0x54]) && Shows(Tag(v) + b, 3, 1, v)
  {
    var s := Tag(v) + b;
    assert s[0..3] == [0x48, 0x53, 0x54];
    ByteShows(s, 3);
  }

  lemma HeadPlaces(v: nat, clock: Clock, c: Record, b: seq<bv8>)
    requires ValidVersion(v, c.addr)
    ensures var who := PutWho(v, c.addr, Unsigned(MonoToReal(clock, c.lastSeen)));
            |Tag(v) + who| == MacPlace(v, c) && IsHead(Tag(v) + (who + b), v, clock, c)
  {
    hide Tag, PutWho, Shows, Has;
    var seen := Unsigned(MonoToReal(clock, c.lastSeen));
    assert seen == (clock.wall - (clock.mono - c.lastSeen)) % U64;
    var who := PutWho(v, c.addr, seen);
    TagPlaces(v, who + b);
    WhoPlaces(v, c, seen, b);
    if v >= 3 {
      ShowsIn(Tag(v), who + b, 0, 1, if c.addr.family == IPv4 then 4 else 6);
    }
    HasIn(Tag(v), who + b, if v >= 3 then 1 else 0, c.addr.bytes);
    if v >= 2 {
      ShowsIn(Tag(v), who + b, |who| - 8, 8, seen);
    }
  }

  lemma NamePlaces(dns: Option<seq<bv8>>, b: seq<bv8>)
    ensures var n := NameBytes(dns);
            && |PutName(dns)| == 1 + |n| && Shows(PutName(dns) + b, 0, 1, |n|) && Has(PutName(dns) + b, 1, n)
  {
    hide Be;
    Powers();
    var n, s := NameBytes(dns), PutName(dns) + b;
    if dns == None {
      ByteShows(s, 0);
    } else {
      assert PutName(dns) == Be(1, |n|) + n by {
        assert dns.value[..|n|] == n;
      }
      Assoc(Be(1, |n|), n, b);
      NumberFirst(1, |n|, n + b);
    }
    assert s[1..1 + |n|] == n;
  }

  lemma AboutPlaces(c: Record, b: seq<bv8>)
    requires |c.mac| == 6
    ensures var s, n := PutAbout(c.mac, c.dns, c.flow), NameBytes(c.dns);
            && |s| == 23 + |n| && Has(s + b, 0, c.mac) && Shows(s + b, 6, 1, |n|) && Has(s + b, 7, n)
            && Shows(s + b, 7 + |n|, 8, c.flow.inn) && Shows(s + b, 15 + |n|, 8, c.flow.out)
  {
    hide PutName, PutFlow, Shows, Has, NameBytes;
    var name, flow, n := PutName(c.dns), PutFlow(c.flow), NameBytes(c.dns);
    Assoc(c.mac, name + flow, b);
    Assoc(name, flow, b);
    HasFirst(c.mac, name + (flow + b));
    NamePlaces(c.dns, flow + b);
    FlowPlaces(c.flow, b);
    ShowsIn(c.mac, name + (flow + b), 0, 1, |n|);
    HasIn(c.mac, name + (flow + b), 1, n);
    ShowsIn(name, flow + b, 0, 8, c.flow.inn);
    ShowsIn(name, flow + b, 8, 8, c.flow.out);
    ShowsIn(c.mac, name + (flow + b), |name|, 8, c.flow.inn);
    ShowsIn(c.mac, name + (flow + b), |name| + 8, 8, c.flow.out);
  }

  lemma HasFirst(x: seq<bv8>, b: seq<bv8>)
    ensures Has(x + b, 0, x)
  {
    assert (x + b)[0..|x|] == x;
  }

  lemma BodyPlaces(v: nat, a: seq<bv8>, c: Record, b: seq<bv8>)
    requires |c.mac| == 6 && |a| == MacPlace(v, c)
    ensures var about := PutAbout(c.mac, c.dns, c.flow);
            |a + about| == TablesPlace(v, c) && IsBody(a + (about + b), v, c)
  {
    hide PutAbout, Shows, Has, NameBytes, MacPlace;
    var about, n := PutAbout(c.mac, c.dns, c.flow), |NameBytes(c.dns)|;
    AboutPlaces(c, b);
    HasIn(a, about + b, 0, c.mac);
    ShowsIn(a, about + b, 6, 1, n);
    HasIn(a, about + b, 7, NameBytes(c.dns));
    ShowsIn(a, about + b, 7 + n, 8, c.flow.inn);
    ShowsIn(a, about + b, 15 + n, 8, c.flow.out);
  }

  /** A host record of any version, byte by byte. */
  lemma RecordPlaces(v: nat, clock: Clock, c: Record)
    requires ValidVersion(v, c.addr) && Sized(c) && |c.mac| == 6
    ensures IsRecord(PutRecord(v, clock, c), v, clock, c) && |PutRecord(v, clock, c)| == RecordSize(v, c)
  {
    hide Tag, PutWho, PutAbout, PutTables, IsHead, IsBody, AreTables, MacPlace, TablesPlace, Unsigned, MonoToReal, Sized;
    var who := PutWho(v, c.addr, Unsigned(MonoToReal(clock, c.lastSeen)));
    var about, ts := PutAbout(c.mac, c.dns, c.flow), PutTables(TablesOf(v), c);
    HeadPlaces(v, clock, c, about + ts);
    Assoc(Tag(v), who, about + ts);
    BodyPlaces(v, Tag(v) + who, c, ts);
    Assoc(Tag(v) + who, about, ts);
    TablesPlaces(v, c);
    var s := PutRecord(v, clock, c);
    assert s == (Tag(v) + who + about) + ts;
    assert s[TablesPlace(v, c)..] == ts;
    AreTablesSized(ts, v, c);
  }

  lemma AreTablesSized(b: seq<bv8>, v: nat, c: Record)
    requires AreTables(b, v, c)
    ensures |b| == RecordSize(v, c) - TablesPlace(v, c)
  {
    hide TablesPlace, TableSize, IsTable;
  }

  lemma {:induction false} RecordPlaceNext(v: nat, cs: seq<Record>, i: nat)
    requires i < |cs|
    ensures RecordPlace(v, cs, i + 1) == RecordSize(v, cs[0]) + RecordPlace(v, cs[1..], i)
    decreases i
  {
    hide RecordSize;
    if i == 0 {
      assert RecordPlace(v, cs, 1) == RecordPlace(v, cs, 0) + RecordSize(v, cs[0]);
    } else {
      RecordPlaceNext(v, cs, i - 1);
      assert cs[1..][i - 1] == cs[i];
    }
  }

  lemma {:induction false} RecordPlaceGrows(v: nat, cs: seq<Record>, i: nat, n: nat)
    requires i <= n <= |cs|
    ensures RecordPlace(v, cs, i) <= RecordPlace(v, cs, n)
    decreases n
  {
    hide RecordSize;
    if i < n {
      RecordPlaceGrows(v, cs, i, n - 1);
    }
  }

  lemma RecordsMore(x: seq<bv8>, y: seq<bv8>, v: nat, clock: Clock, cs: seq<Record>)
    requires cs != [] && |x| == RecordSize(v, cs[0]) && IsRecord(x, v, clock, cs[0]) && AreRecords(y, v, clock, cs[1..])
    ensures AreRecords(x + y, v, clock, cs)
  {
    hide IsRecord, RecordSize, RecordPlace;
    var s, n := x + y, |cs|;
    RecordPlaceNext(v, cs, n - 1);
    forall i | 0 <= i < n
      ensures RecordAt(s, v, clock, cs, i)
    {
      RecordPlaceGrows(v, cs, i + 1, n);
      RecordPlaceGrows(v, cs, i, i + 1);
      RecordPlaceNext(v, cs, i);
      if i == 0 {
        RecordPlaceNone(v, cs);
        RecordPlaceNone(v, cs[1..]);
        assert s[0..|x|] == x;
      } else {
        RecordPlaceNext(v, cs, i - 1);
        assert s[RecordPlace(v, cs, i)..RecordPlace(v, cs, i + 1)]
            == y[RecordPlace(v, cs[1..], i - 1)..RecordPlace(v, cs[1..], i)];
        assert RecordAt(y, v, clock, cs[1..], i - 1);
      }
    }
  }

  lemma RecordPlaceNone(v: nat, cs: seq<Record>)
    ensures RecordPlace(v, cs, 0) == 0
  {
  }

  ghost predicate SixBytes(cs: seq<Record>) {
    forall i :: 0 <= i < |cs| ==> |cs[i].mac| == 6
  }

  lemma {:induction false} RecordsPlaces(v: nat, clock: Clock, cs: seq<Record>)
    requires ValidRecords(v, cs) && SixBytes(cs)
    ensures AreRecords(PutHosts(v, clock, cs), v, clock, cs)
    decreases |cs|
  {
    hide IsRecord, RecordSize, PutRecord, ValidVersion, Sized;
    if cs != [] {
      RecordPlaces(v, clock, cs[0]);
      RecordsPlaces(v, clock, cs[1..]);
      RecordsMore(PutRecord(v, clock, cs[0]), PutHosts(v, clock, cs[1..]), v, clock, cs);
    }
  }

  // ----- Graphs -----

  lemma {:induction false} BarsPlaces(bars: seq<Bar>)
    requires ValidBars(bars)
    ensures AreBars(PutBars(bars), bars)
    decreases |bars|
  {
    hide Put64, Shows;
    if bars != [] {
      var b, i, o, more := bars[0], Put64(bars[0].inn), Put64(bars[0].out), PutBars(bars[1..]);
      BarsPlaces(bars[1..]);
      Assoc(i, o, more);
      Number64(b.inn, o + more);
      Number64(b.out, more);
      ShowsIn(i, o + more, 0, 8, b.out);
      forall k | 0 < k < |bars|
        ensures BarAt(PutBars(bars), k, bars[k])
      {
        assert BarAt(more, k - 1, bars[1..][k - 1]);
        ShowsIn(i + o, more, 16 * (k - 1), 8, bars[k].inn);
        ShowsIn(i + o, more, 16 * (k - 1) + 8, 8, bars[k].out);
      }
    }
  }

  lemma RingPlaces(r: Ring)
    requires ValidRing(r) && |r.bars| < 256 && ValidBars(r.bars)
    ensures IsRing(PutRing(r), r)
  {
    hide Be, PutBars, Shows, AreBars;
    Powers();
    var n, p, bars := Be(1, |r.bars|), Be(1, r.pos), PutBars(r.bars);
    BarsPlaces(r.bars);
    assert |bars| == 16 * |r.bars| by { BarsSized(bars, r.bars); }
    NumberFirst(1, |r.bars|, p + bars);
    NumberFirst(1, r.pos, bars);
    ShowsIn(n, p + bars, 0, 1, r.pos);
    Cut(n, p, bars);
  }

  lemma BarsSized(b: seq<bv8>, bars: seq<Bar>)
    requires AreBars(b, bars)
    ensures |b| == 16 * |bars|
  {
  }

  lemma RingsPlaces(rs: seq<Ring>)
    requires SmallRings(rs) && Measures(rs, SIZES)
    ensures AreRings(PutRings(rs), rs)
  {
    hide PutRing, ValidRing, ValidBars;
    assert rs == [rs[0], rs[1], rs[2], rs[3]];
    assert rs[1..][1..][1..] == [rs[3]] && [rs[3]][1..] == [];
    RingPlaces(rs[0]);
    RingPlaces(rs[1]);
    RingPlaces(rs[2]);
    RingPlaces(rs[3]);
    RingsPut(rs);
    ThreeCut(PutRing(rs[0]), PutRing(rs[1]), PutRing(rs[2]), PutRing(rs[3]));
  }

  lemma RingsPut(rs: seq<Ring>)
    requires SmallRings(rs) && |rs| == 4
    ensures PutRings(rs) == PutRing(rs[0]) + (PutRing(rs[1]) + (PutRing(rs[2]) + PutRing(rs[3])))
  {
    hide PutRing, ValidRing, ValidBars;
    var r1, r2, r3 := rs[1..], rs[2..], rs[3..];
    assert r1[1..] == r2 && r2[1..] == r3 && r3[1..] == [];
    assert PutRings(r3) == PutRing(rs[3]) + PutRings(r3[1..]);
    assert PutRing(rs[3]) + [] == PutRing(rs[3]);
    assert PutRings(r2) == PutRing(rs[2]) + PutRings(r3);
    assert PutRings(r1) == PutRing(rs[1]) + PutRings(r2);
  }

  // ----- The whole file -----

  /** What an export writes, byte by byte, for any order of hosts and rows. */
  lemma FilePlaces(v: nat, clock: Clock, cs: seq<Record>, last: int, rs: seq<Ring>)
    requires Writable(v, cs, rs) && SixBytes(cs)
    ensures IsFile(PutFile(v, clock, cs, last, rs), v, clock, cs, last, rs)
  {
    hide Be, PutHosts, PutRings, Shows, AreRecords, AreRings, RecordPlace, ValidRecords, SmallRings, Measures,
         SixBytes;
    Powers();
    var n, hosts, t, rings := Be(4, |cs|), PutHosts(v, clock, cs), Put64(Unsigned(last)), PutRings(rs);
    RecordsPlaces(v, clock, cs);
    RecordsSized(hosts, v, clock, cs);
    RingsPlaces(rs);
    RingsSized(rings, rs);
    var g := GRAPH_HEADER + (t + rings);
    var s := PutFile(v, clock, cs, last, rs);
    FileCut(FILE_HEADER, HOSTS_HEADER, n, hosts, GRAPH_HEADER, t, rings);
    assert s == FILE_HEADER + ((HOSTS_HEADER + (n + hosts)) + g);
    assert s[8..12] == n && s[12 + |hosts| + 4..12 + |hosts| + 12] == t;
    assert Shows(s, 8, 4, |cs|) by { ShowsPart(s, 8, n, |cs|); }
    assert Shows(s, 12 + |hosts| + 4, 8, last % U64) by { ShowsPart(s, 12 + |hosts| + 4, t, last % U64); }
  }

  lemma ShowsPart(s: seq<bv8>, k: nat, x: seq<bv8>, v: int)
    requires k + |x| <= |s| && s[k..k + |x|] == x && Value(x) == v
    ensures Shows(s, k, |x|, v)
  {
  }

  lemma RecordsSized(b: seq<bv8>, v: nat, clock: Clock, cs: seq<Record>)
    requires AreRecords(b, v, clock, cs)
    ensures |b| == RecordPlace(v, cs, |cs|)
  {
  }

  lemma RingsSized(b: seq<bv8>, rs: seq<Ring>)
    requires AreRings(b, rs)
    ensures |b| == 2808
  {
  }

  lemma FileCut(f: seq<bv8>, h: seq<bv8>, n: seq<bv8>, hosts: seq<bv8>, gr: seq<bv8>, t: seq<bv8>, rings: seq<bv8>)
    requires |f| == |h| == |n| == |gr| == 4 && |t| == 8
    ensures var s := f + ((h + (n + hosts)) + (gr + (t + rings)));
            var g := 12 + |hosts|;
            && |s| == g + 12 + |rings| && s[0..4] == f && s[4..8] == h && s[8..12] == n && s[12..g] == hosts
            && s[g..g + 4] == gr && s[g + 4..g + 12] == t && s[g + 12..] == rings
  {
    var x, y := h + (n + hosts), gr + (t + rings);
    var s, g := f + (x + y), 12 + |hosts|;
    assert s[4..g] == x && s[g..] == y;
    Cut(h, n, hosts);
    Cut(gr, t, rings);
    assert s[4..8] == s[4..g][..4] && s[8..12] == s[4..g][4..8] && s[12..g] == s[4..g][8..];
    assert s[g..g + 4] == s[g..][..4] && s[g + 4..g + 12] == s[g..][4..12] && s[g + 12..] == s[g..][12..];
  }
}
