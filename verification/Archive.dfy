/** What accounting leaves behind is what an export can hold. */
module Archive {
  import opened Bytes
  import opened HostsDb
  import GraphRing
  import Decode
  import Export
  import Acct

  /** After every run of packets a host is clean but for its name and the time it was last seen. */
  lemma SoundIsClean(h: Host, o: Acct.Options, clock: Export.Clock)
    requires Acct.SoundHost(h, o)
    ensures Export.CleanHost(clock, h)
            <==> Export.CleanName(h.dns) && Export.Int64(Export.MonoToReal(clock, h.lastSeen))
  {
    forall t
      ensures Export.CleanTable(t, Table(h.tables, t))
    {
      assert Acct.SoundTable(t, Table(h.tables, t), o);
    }
  }

  /** Any listing of a sound table whose count fits can be exported, and imported within the same limits. */
  lemma SoundExportable(t: TableId, rows: seq<Export.Row>, m: map<nat, Entry>, o: Acct.Options)
    requires Acct.SoundTable(t, m, o) && Export.Lists(rows, m) && (t != Protos ==> |m| < 0x1_0000)
    ensures Export.Exportable(t, o.lim, rows, m)
  {
    Powers();
    Export.ListsSize(rows, m);
    if t == Protos {
      Acct.ProtosBound(m, o);
    }
    forall i | 0 <= i < |rows|
      ensures Export.ValidKey(t, rows[i].key)
    {
      assert Acct.Allowed(t, rows[i].key, o);
    }
  }

  lemma SoundListed(c: Export.Record, h: Host, o: Acct.Options)
    requires Acct.SoundHost(h, o) && Export.Pictures(c, h)
    requires forall t :: t != Protos ==> |Table(h.tables, t)| < 0x1_0000
    ensures Export.ListsHost(o.lim, c, h) && Export.Sized(c)
  {
    hide Acct.SoundTable, Export.Lists, Table, Export.Rows;
    forall t
      ensures Export.Exportable(t, o.lim, Export.Rows(c, t), Table(h.tables, t))
    {
      SoundExportable(t, Export.Rows(c, t), Table(h.tables, t), o);
    }
  }

  /** Options that leave out a port or an entry, or leave no host time to fill a table. */
  predicate Countable(o: Acct.Options) {
    o.lim.portsMax < 0x1_0000 || o.highestPort < 0xFFFF || o.lim.hostsMax <= 1
  }

  lemma RunCountsFit(vs: seq<Acct.Arrival>, o: Acct.Options)
    requires Acct.ValidOptions(o) && Countable(o) && forall i :: 0 <= i < |vs| ==> Decode.ValidPacket(vs[i].p)
    ensures Acct.CountsFit(Acct.Run(Acct.RESET, vs, o).db)
  {
    if o.lim.hostsMax <= 1 {
      Acct.FewHostsFit(vs, o);
    } else {
      Acct.CountsFitAlways(vs, o);
    }
  }

  /** The same hosts, some of which may have got names. */
  ghost predicate Named(db: Db, named: Db) {
    db.Keys == named.Keys && forall a :: a in db ==> named[a] == db[a].(dns := named[a].dns)
  }

  /** All that an export asks for follows from what accounting keeps. */
  lemma RunsListed(vs: seq<Acct.Arrival>, o: Acct.Options, db: Db, cs: seq<Export.Record>)
    requires Acct.ValidOptions(o) && Countable(o) && o.lim.hostsMax < 0xFFFF_FFFF
    requires forall i :: 0 <= i < |vs| ==> Decode.ValidPacket(vs[i].p)
    requires Named(Acct.Run(Acct.RESET, vs, o).db, db) && Export.PicturesDb(cs, db)
    ensures Export.ListsDb(o.lim, cs, db) && Export.ValidRecords(4, cs) && |cs| < 0x1_0000_0000
    ensures forall a :: a in db ==> Acct.SoundHost(db[a], o)
  {
    hide Acct.Run, Acct.SoundTable, Export.Pictures, Export.ListsHost, Export.Sized;
    var run := Acct.Run(Acct.RESET, vs, o).db;
    Acct.AlwaysSound(vs, o);
    RunCountsFit(vs, o);
    Export.PicturesSize(cs, db);
    assert |db| == |db.Keys| == |run.Keys| == |run|;
    forall i | 0 <= i < |cs|
      ensures Export.ListsHost(o.lim, cs[i], db[cs[i].addr]) && Export.Sized(cs[i])
    {
      var a := cs[i].addr;
      assert Acct.SoundHost(run[a], o) && db[a].tables == run[a].tables;
      SoundListed(cs[i], db[a], o);
    }
  }

  /**
   The database of any run of packets, with whatever names its hosts have got, survives export and import:
   it has a listing, and for every listing each host comes back as it was, on the clocks of the importing side.
   */
  lemma RunsSurvive(vs: seq<Acct.Arrival>, o: Acct.Options, db: Db, before: Export.Clock, after: Export.Clock,
                    last: int, rs: seq<GraphRing.Ring>, rest: seq<bv8>)
    requires Acct.ValidOptions(o) && Countable(o) && o.lim.hostsMax < 0xFFFF_FFFF
    requires forall i :: 0 <= i < |vs| ==> Decode.ValidPacket(vs[i].p)
    requires Named(Acct.Run(Acct.RESET, vs, o).db, db)
    requires forall a :: a in db ==>
               Export.CleanName(db[a].dns) && Export.Int64(Export.MonoToReal(before, db[a].lastSeen))
    requires Export.SmallRings(rs) && Export.Measures(rs, GraphRing.SIZES) && Export.Int64(last)
    ensures exists cs :: Export.PicturesDb(cs, db)
    ensures forall cs :: Export.PicturesDb(cs, db) ==>
              && Export.Writable(4, cs, rs)
              && Export.GetFile(o.lim, after, map[], Export.PutFile(4, before, cs, last, rs) + rest)
                 == Export.Got(Export.Image(map a | a in db :: Export.Moved(before, after, db[a]), last, rs), rest)
  {
    hide Named, Export.PicturesDb, Export.ListsDb, Export.ValidRecords, Export.SmallRings, Export.Measures,
         Export.GetFile, Export.PutFile, Export.CleanHost, Export.CleanName, Export.Int64, Acct.Run, Acct.SoundHost;
    var listing := Export.PicturesExist(db);
    forall cs | Export.PicturesDb(cs, db)
      ensures Export.Writable(4, cs, rs)
      ensures Export.GetFile(o.lim, after, map[], Export.PutFile(4, before, cs, last, rs) + rest)
              == Export.Got(Export.Image(map a | a in db :: Export.Moved(before, after, db[a]), last, rs), rest)
    {
      RunsListed(vs, o, db, cs);
      forall a | a in db
        ensures Export.CleanHost(before, db[a])
      {
        SoundIsClean(db[a], o, before);
      }
      Export.RoundTrip(o.lim, before, after, cs, db, last, rs, rest);
    }
  }
}
