/** The readers and writers of the export format as they work on an open file: loops that move a cursor. */
module ExportIo {
  import opened Wrappers
  import opened Bytes
  import opened Addrs
  import opened HostsDb
  import opened GraphRing
  import opened Export

  /** What a method read is what the format's reader finds, and the cursor stands behind it. */
  ghost predicate Matches<T>(r: Option<T>, g: Got<T>, left: seq<bv8>) {
    match r
    case None => g.Fail?
    case Some(x) => g == Got(x, left)
  }

  class File {
    var data: seq<bv8>
    var pos: nat

    ghost predicate Valid()
      reads this
    {
      pos <= |data|
    }

    /** What is still to be read. */
    ghost function Left(): seq<bv8>
      requires Valid()
      reads this
    {
      data[pos..]
    }

    constructor (data: seq<bv8>)
      ensures Valid() && Left() == data && this.data == data
    {
      this.data, pos := data, 0;
    }

    // ----- Reading -----

    method Readn(n: nat) returns (r: Option<seq<bv8>>)
      requires Valid()
      modifies this`pos
      ensures Valid() && Matches(r, GetN(n, old(Left())), Left())
    {
      if |data| - pos < n {
        return None;
      }
      r := Some(data[pos..pos + n]);
      pos := pos + n;
      assert old(Left())[..n] == r.value && old(Left())[n..] == Left();
    }

    method ReadNum(n: nat) returns (r: Option<nat>)
      requires Valid()
      modifies this`pos
      ensures Valid() && Matches(r, GetNum(n, old(Left())), Left())
    {
      var b := Readn(n);
      r := if b == None then None else Some(Value(b.value));
    }

    method Read64() returns (r: Option<u64>)
      requires Valid()
      modifies this`pos
      ensures Valid() && Matches(r, Get64(old(Left())), Left())
    {
      var x := ReadNum(8);
      if x == None {
        return None;
      }
      Powers();
      ValueBound(old(Left())[..8]);
      r := Some(x.value);
    }

    method ReadFlow() returns (r: Option<Flow>)
      requires Valid()
      modifies this`pos
      ensures Valid() && Matches(r, GetFlow(old(Left())), Left())
    {
      hide Get64;
      var inn := Read64();
      if inn == None {
        return None;
      }
      var out := Read64();
      r := if out == None then None else Some(Flow(inn.value, out.value, Add64(inn.value, out.value)));
    }

    method ReadRow(t: TableId) returns (r: Option<Row>)
      requires Valid()
      modifies this`pos
      ensures Valid() && Matches(r, GetRow(t, old(Left())), Left())
    {
      hide GetNum, Get64, GetFlow;
      var key := ReadNum(KeyWidth(t));
      if key == None {
        return None;
      }
      var syn: Option<u64> := Some(0);
      if HasSyn(t) {
        syn := Read64();
        if syn == None {
          return None;
        }
      }
      var flow := ReadFlow();
      r := if flow == None then None else Some(Row(key.value, Entry(flow.value, syn.value)));
    }

    /** The loop of the three functions that load a table of a host. */
    method ImportRows(t: TableId, lim: Limits, n: nat, m0: map<nat, Entry>) returns (r: Option<map<nat, Entry>>)
      requires Valid()
      modifies this`pos
      ensures Valid() && Matches(r, GetRows(t, lim, n, m0, old(Left())), Left())
    {
      hide GetRow, Store;
      var m := m0;
      for i := 0 to n
        invariant Valid() && GetRows(t, lim, n, m0, old(Left())) == GetRows(t, lim, n - i, m, Left())
      {
        var row := ReadRow(t);
        if row == None {
          return None;
        }
        m := Store(t, lim, m, row.value);
      }
      r := Some(m);
    }

    method ImportTable(t: TableId, lim: Limits, m: map<nat, Entry>) returns (r: Option<map<nat, Entry>>)
      requires Valid()
      modifies this`pos
      ensures Valid() && Matches(r, GetTable(t, lim, m, old(Left())), Left())
    {
      hide GetN, GetNum, GetRows;
      var b := Readn(1);
      if b == None || b.value[0] != Magic(t) {
        return None;
      }
      var n := ReadNum(KeyWidth(t));
      if n == None {
        return None;
      }
      r := ImportRows(t, lim, n.value, m);
    }

    method ReadAddr(v: nat) returns (r: Option<Addr>)
      requires Valid()
      modifies this`pos
      ensures Valid() && Matches(r, if v >= 3 then GetAddr(old(Left())) else GetAddrIpv4(old(Left())), Left())
    {
      hide GetN;
      var family := IPv4;
      if v >= 3 {
        var f := Readn(1);
        if f == None || (f.value[0] != 4 && f.value[0] != 6) {
          return None;
        }
        family := if f.value[0] == 4 then IPv4 else IPv6;
      }
      var b := Readn(if family == IPv4 then 4 else 16);
      if b == None {
        return None;
      }
      var a: Addr := Addr(family, b.value);
      r := Some(a);
    }

    method ReadName() returns (r: Option<Option<seq<bv8>>>)
      requires Valid()
      modifies this`pos
      ensures Valid() && Matches(r, GetName(old(Left())), Left())
    {
      hide GetN, GetNum;
      var n := ReadNum(1);
      if n == None {
        return None;
      }
      if n.value == 0 {
        return Some(None);
      }
      var name := Readn(n.value);
      r := if name == None then None else Some(Some(name.value));
    }

    method ReadAbout() returns (r: Option<About>)
      requires Valid()
      modifies this`pos
      ensures Valid() && Matches(r, GetAbout(old(Left())), Left())
    {
      hide GetN, GetName, GetFlow;
      var mac := Readn(6);
      if mac == None {
        return None;
      }
      var name := ReadName();
      if name == None {
        return None;
      }
      var flow := ReadFlow();
      r := if flow == None then None else Some(About(mac.value, name.value, flow.value));
    }

    method ReadWho(v: nat) returns (r: Option<Who>)
      requires Valid()
      modifies this`pos
      ensures Valid() && Matches(r, GetWho(v, old(Left())), Left())
    {
      hide GetAddr, GetAddrIpv4, Get64;
      var a := ReadAddr(v);
      if a == None {
        return None;
      }
      if v > 1 {
        var t := Read64();
        r := if t == None then None else Some(Who(a.value, t));
      } else {
        r := Some(Who(a.value, None));
      }
    }

    method ImportTables(ids: seq<TableId>, lim: Limits, ts0: Tables) returns (r: Option<Tables>)
      requires Valid()
      modifies this`pos
      ensures Valid() && Matches(r, GetTables(ids, lim, ts0, old(Left())), Left())
    {
      hide GetTable;
      var ts := ts0;
      for i := 0 to |ids|
        invariant Valid() && GetTables(ids, lim, ts0, old(Left())) == GetTables(ids[i..], lim, ts, Left())
      {
        assert ids[i..][1..] == ids[i + 1..];
        var m := ImportTable(ids[i], lim, Table(ts, ids[i]));
        if m == None {
          return None;
        }
        ts := WithTable(ts, ids[i], m.value);
      }
      r := Some(ts);
    }

    /** hosts_db_import_host() */
    method ImportHost(lim: Limits, clock: Clock, db: Db) returns (r: Option<Db>)
      requires Valid()
      modifies this`pos
      ensures Valid() && Matches(r, GetRecord(lim, clock, db, old(Left())), Left())
    {
      hide GetN, GetWho, GetAbout, GetTables, Signed, VersionOf;
      var tag := Readn(4);
      if tag == None {
        return None;
      }
      var v := VersionOf(tag.value);
      if v == 0 {
        return None;
      }
      var who := ReadWho(v);
      if who == None {
        return None;
      }
      var h := if who.value.addr in db then db[who.value.addr] else NEW_HOST;
      if h.dns != None {
        return None;
      }
      var seen := if who.value.seen == None then h.lastSeen else RealToMono(clock, Signed(who.value.seen.value));
      var about := ReadAbout();
      if about == None {
        return None;
      }
      var ts := ImportTables(TablesOf(v), lim, h.tables);
      r := if ts == None then None
           else Some(db[who.value.addr := Host(about.value.flow, about.value.dns, about.value.mac, seen, h.latest, ts.value)]);
    }

    /** The loop of hosts_db_import() */
    method ImportHosts(n: nat, lim: Limits, clock: Clock, db0: Db) returns (r: Option<Db>)
      requires Valid()
      modifies this`pos
      ensures Valid() && Matches(r, GetHosts(n, lim, clock, db0, old(Left())), Left())
    {
      hide GetRecord;
      var db := db0;
      for i := 0 to n
        invariant Valid() && GetHosts(n, lim, clock, db0, old(Left())) == GetHosts(n - i, lim, clock, db, Left())
      {
        var more := ImportHost(lim, clock, db);
        if more == None {
          return None;
        }
        db := more.value;
      }
      r := Some(db);
    }

    method ReadBars(n: nat) returns (r: Option<seq<Bar>>)
      requires Valid()
      modifies this`pos
      ensures Valid() && Matches(r, GetBars(n, [], old(Left())), Left())
    {
      hide Get64;
      var bars := [];
      for i := 0 to n
        invariant Valid() && GetBars(n, [], old(Left())) == GetBars(n - i, bars, Left())
      {
        var inn := Read64();
        if inn == None {
          return None;
        }
        var out := Read64();
        if out == None {
          return None;
        }
        bars := bars + [Bar(inn.value, out.value)];
      }
      r := Some(bars);
    }

    method ReadRing(size: nat) returns (r: Option<Ring>)
      requires Valid()
      modifies this`pos
      ensures Valid() && Matches(r, GetRing(size, old(Left())), Left())
    {
      hide GetNum, GetBars;
      var n := ReadNum(1);
      if n == None {
        return None;
      }
      var p := ReadNum(1);
      if p == None || p.value >= n.value || n.value != size {
        return None;
      }
      var bars := ReadBars(n.value);
      r := if bars == None then None else Some(Ring(bars.value, p.value));
    }

    /** The loop of graph_import() */
    method ReadRings(sizes: seq<nat>) returns (r: Option<seq<Ring>>)
      requires Valid()
      modifies this`pos
      ensures Valid() && Matches(r, GetRings(sizes, [], old(Left())), Left())
    {
      hide GetRing;
      var rs := [];
      for i := 0 to |sizes|
        invariant Valid() && GetRings(sizes, [], old(Left())) == GetRings(sizes[i..], rs, Left())
      {
        assert sizes[i..][1..] == sizes[i + 1..];
        var g := ReadRing(sizes[i]);
        if g == None {
          return None;
        }
        rs := rs + [g.value];
      }
      r := Some(rs);
    }

    method ReadHeader(h: seq<bv8>) returns (r: Option<()>)
      requires Valid() && |h| == 4
      modifies this`pos
      ensures Valid() && Matches(r, Header(h, old(Left())), Left())
    {
      hide GetN;
      var b := Readn(4);
      r := if b == None || b.value != h then None else Some(());
    }

    method ImportHostsSection(lim: Limits, clock: Clock, db: Db) returns (r: Option<Db>)
      requires Valid()
      modifies this`pos
      ensures Valid() && Matches(r, GetHostsSection(lim, clock, db, old(Left())), Left())
    {
      hide Header, GetNum, GetHosts;
      var h := ReadHeader(HOSTS_HEADER);
      if h == None {
        return None;
      }
      var n := ReadNum(4);
      if n == None {
        return None;
      }
      r := ImportHosts(n.value, lim, clock, db);
    }

    method ImportGraphSection() returns (r: Option<Graphs>)
      requires Valid()
      modifies this`pos
      ensures Valid() && Matches(r, GetGraphSection(old(Left())), Left())
    {
      hide Header, Get64, GetRings, Signed;
      var h := ReadHeader(GRAPH_HEADER);
      if h == None {
        return None;
      }
      var last := Read64();
      if last == None {
        return None;
      }
      var rs := ReadRings(SIZES);
      r := if rs == None then None else Some(Graphs(Signed(last.value), rs.value));
    }

    /** db_import_from_fd() */
    method Import(lim: Limits, clock: Clock, db: Db) returns (r: Option<Image>)
      requires Valid()
      modifies this`pos
      ensures Valid() && Matches(r, GetFile(lim, clock, db, old(Left())), Left())
    {
      hide Header, GetHostsSection, GetGraphSection;
      var h := ReadHeader(FILE_HEADER);
      if h == None {
        return None;
      }
      var db' := ImportHostsSection(lim, clock, db);
      if db' == None {
        return None;
      }
      var gs := ImportGraphSection();
      r := if gs == None then None else Some(Image(db'.value, gs.value.last, gs.value.rings));
    }

    // ----- Writing -----

    method Writen(s: seq<bv8>)
      requires Valid()
      modifies this`data
      ensures Valid() && data == old(data) + s
    {
      data := data + s;
    }

    /** The loop of the three functions that dump a table of a host. */
    method ExportTable(t: TableId, rows: seq<Row>)
      requires Valid() && |rows| < Pow256(KeyWidth(t)) && ValidRows(t, rows)
      modifies this`data
      ensures Valid() && data == old(data) + PutTable(t, rows)
    {
      hide PutRow, Be;
      Writen([Magic(t)]);
      Writen(Be(KeyWidth(t), |rows|));
      ghost var start := data;
      for i := 0 to |rows|
        invariant Valid() && data + PutRows(t, rows[i..]) == start + PutRows(t, rows)
      {
        assert rows[i..][1..] == rows[i + 1..];
        ghost var before := data;
        Writen(PutRow(t, rows[i]));
        Assoc(before, PutRow(t, rows[i]), PutRows(t, rows[i + 1..]));
      }
      assert data == start + PutRows(t, rows);
      assert start == old(data) + ([Magic(t)] + Be(KeyWidth(t), |rows|));
    }

    method ExportHost(clock: Clock, c: Record)
      requires Valid() && Sized(c)
      modifies this`data
      ensures Valid() && data == old(data) + PutRecord(4, clock, c)
    {
      hide PutWho, PutAbout, PutTable, PutTables, Sized, Tag;
      ghost var who := PutWho(4, c.addr, Unsigned(MonoToReal(clock, c.lastSeen)));
      ghost var about := PutAbout(c.mac, c.dns, c.flow);
      ghost var ts := PutTables(TablesOf(4), c);
      Writen(Tag(4));
      Writen(PutWho(4, c.addr, Unsigned(MonoToReal(clock, c.lastSeen))));
      Writen(PutAbout(c.mac, c.dns, c.flow));
      ghost var start := data;
      ExportTables(TablesOf(4), c);
      assert ((old(data) + Tag(4)) + who) + about + ts == old(data) + (Tag(4) + (who + (about + ts)));
    }

    method ExportTables(ids: seq<TableId>, c: Record)
      requires Valid() && Sized(c)
      modifies this`data
      ensures Valid() && data == old(data) + PutTables(ids, c)
    {
      hide PutTable;
      for i := 0 to |ids|
        invariant Valid() && data + PutTables(ids[i..], c) == old(data) + PutTables(ids, c)
      {
        assert ids[i..][1..] == ids[i + 1..];
        ghost var before := data;
        ExportTable(ids[i], Rows(c, ids[i]));
        Assoc(before, PutTable(ids[i], Rows(c, ids[i])), PutTables(ids[i + 1..], c));
      }
    }

    /** The loop of hosts_db_export() over the chains of the table. */
    method ExportHosts(clock: Clock, cs: seq<Record>)
      requires Valid() && ValidRecords(4, cs)
      modifies this`data
      ensures Valid() && data == old(data) + PutHosts(4, clock, cs)
    {
      hide PutRecord, Sized;
      for i := 0 to |cs|
        invariant Valid() && data + PutHosts(4, clock, cs[i..]) == old(data) + PutHosts(4, clock, cs)
      {
        assert cs[i..][1..] == cs[i + 1..];
        ghost var before := data;
        ExportHost(clock, cs[i]);
        Assoc(before, PutRecord(4, clock, cs[i]), PutHosts(4, clock, cs[i + 1..]));
      }
    }

    method WriteBars(bars: seq<Bar>)
      requires Valid() && ValidBars(bars)
      modifies this`data
      ensures Valid() && data == old(data) + PutBars(bars)
    {
      hide Put64;
      for i := 0 to |bars|
        invariant Valid() && data + PutBars(bars[i..]) == old(data) + PutBars(bars)
      {
        assert bars[i..][1..] == bars[i + 1..];
        ghost var before := data;
        Writen(Put64(bars[i].inn));
        Writen(Put64(bars[i].out));
        Assoc(before, Put64(bars[i].inn), Put64(bars[i].out));
        Assoc(before, Put64(bars[i].inn) + Put64(bars[i].out), PutBars(bars[i + 1..]));
      }
    }

    method WriteRing(r: Ring)
      requires Valid() && ValidRing(r) && |r.bars| < 256 && ValidBars(r.bars)
      modifies this`data
      ensures Valid() && data == old(data) + PutRing(r)
    {
      hide Be, PutBars;
      Powers();
      Writen(Be(1, |r.bars|));
      Writen(Be(1, r.pos));
      WriteBars(r.bars);
      assert (old(data) + Be(1, |r.bars|)) + Be(1, r.pos) + PutBars(r.bars)
          == old(data) + (Be(1, |r.bars|) + (Be(1, r.pos) + PutBars(r.bars)));
    }

    /** The loop of graph_export() */
    method WriteRings(rs: seq<Ring>)
      requires Valid() && SmallRings(rs)
      modifies this`data
      ensures Valid() && data == old(data) + PutRings(rs)
    {
      hide PutRing, ValidBars;
      for i := 0 to |rs|
        invariant Valid() && data + PutRings(rs[i..]) == old(data) + PutRings(rs)
      {
        assert rs[i..][1..] == rs[i + 1..];
        ghost var before := data;
        WriteRing(rs[i]);
        Assoc(before, PutRing(rs[i]), PutRings(rs[i + 1..]));
      }
    }

    /** db_export_to_fd() */
    method Export(clock: Clock, cs: seq<Record>, last: int, rs: seq<Ring>)
      requires Valid() && Writable(4, cs, rs)
      modifies this`data
      ensures Valid() && data == old(data) + PutFile(4, clock, cs, last, rs)
    {
      hide Be, Put64, PutHosts, PutRings, ValidRecords, SmallRings, Measures;
      Powers();
      ghost var n, hosts, t, graphs := Be(4, |cs|), PutHosts(4, clock, cs), Put64(Unsigned(last)), PutRings(rs);
      Writen(FILE_HEADER);
      Writen(HOSTS_HEADER);
      Writen(Be(4, |cs|));
      ExportHosts(clock, cs);
      ghost var middle := data;
      Assoc(old(data) + FILE_HEADER + HOSTS_HEADER, n, hosts);
      Assoc(old(data) + FILE_HEADER, HOSTS_HEADER, n + hosts);
      Writen(GRAPH_HEADER);
      Writen(Put64(Unsigned(last)));
      WriteRings(rs);
      Assoc(middle + GRAPH_HEADER, t, graphs);
      Assoc(middle, GRAPH_HEADER, t + graphs);
      Assoc(old(data) + FILE_HEADER, PutHostsSection(4, clock, cs), PutGraphSection(last, rs));
      Assoc(old(data), FILE_HEADER, PutHostsSection(4, clock, cs) + PutGraphSection(last, rs));
    }
  }

  /** The databases of the running program. */
  class Databases {
    var db: Db
    var last: int
    var rings: seq<Ring>

    /** db_import(): a file that cannot be read leaves the databases reset. */
    method Import(f: File, lim: Limits, clock: Clock)
      requires f.Valid()
      modifies this, f`pos
      ensures f.Valid()
      ensures match old(GetFile(lim, clock, db, f.Left()))
              case Got(image, rest) =>
                db == image.db && last == image.last && rings == image.rings && f.Left() == rest
              case Fail => db == map[] && last == 0 && rings == old(Emptied(rings))
    {
      hide GetFile;
      var r := f.Import(lim, clock, db);
      if r == None {
        db, last, rings := map[], 0, Emptied(rings);
      } else {
        db, last, rings := r.value.db, r.value.last, r.value.rings;
      }
    }

    /** Exporting one database and importing the file into another that is empty, with other clocks. */
    method Transfer(to: Databases, cs: seq<Record>, lim: Limits, before: Clock, after: Clock, tail: seq<bv8>)
      returns (f: File)
      requires ListsDb(lim, cs, db) && Writable(4, cs, rings) && Int64(last) && to != this && to.db == map[]
      requires forall a :: a in db ==> CleanHost(before, db[a])
      modifies to
      ensures to.db == (map a | a in db :: Moved(before, after, db[a])) && to.last == last && to.rings == rings
      ensures fresh(f) && f.Valid() && f.Left() == tail
    {
      hide GetFile, PutFile, ListsDb, Writable, CleanHost, Moved;
      f := new File([]);
      f.Export(before, cs, last, rings);
      assert f.data == PutFile(4, before, cs, last, rings);
      f.Writen(tail);
      RoundTrip(lim, before, after, cs, db, last, rings, tail);
      to.Import(f, lim, after);
    }
  }

  function Emptied(rs: seq<Ring>): seq<Ring> {
    seq(|rs|, i requires 0 <= i < |rs| => Zeroed(rs[i]))
  }
}
