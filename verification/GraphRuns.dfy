/** The four graphs as the main loop drives them, tied to the runs of single rings and so to the log. */
module GraphRuns {
  import opened Wrappers
  import opened GraphRing
  import opened GraphLog
  import opened GraphDb

  /** Local time at real time `t`, for a zone that is `offset` seconds ahead: the day of the month is the calendar's. */
  predicate LocalTime(offset: int, t: int, tm: Tm) {
    && tm.sec == (t + offset) % 60 && tm.min == (t + offset) / 60 % 60 && tm.hour == (t + offset) / 3600 % 24
    && 1 <= tm.mday <= 31
  }

  lemma LocalTimeValid(offset: int, t: int, tm: Tm, last: int)
    requires LocalTime(offset, t, tm)
    ensures ValidTm(tm) && Manageable(last, t, tm)
    ensures Indices(tm)[..3] == [Index(Seconds, offset, t), Index(Minutes, offset, t), Index(Hours, offset, t)]
  {
    hide Index;
    LocalIndex(offset, t);
    Remainders(t + offset);
  }

  lemma LocalIndex(offset: int, t: int)
    ensures Index(Seconds, offset, t) == (t + offset) % 60
    ensures Index(Minutes, offset, t) == (t + offset) / 60 % 60
    ensures Index(Hours, offset, t) == (t + offset) / 3600 % 24
  {
  }

  lemma Remainders(x: int)
    ensures 0 <= x % 60 < 60 && 0 <= x / 60 % 60 < 60 && 0 <= x / 3600 % 24 < 24
  {
  }

  /** The rings of seconds, minutes and hours among the four, with the time they were rotated at. */
  ghost function Single(rs: seq<Ring>, k: Kind, last: int): (s: State)
    requires ValidRings(rs)
    ensures ValidRing(s.ring) && |s.ring.bars| == Bars(k) && s.last == last
  {
    match k
    case Seconds => State(rs[0], last)
    case Minutes => State(rs[1], last)
    case Hours => State(rs[2], last)
  }

  ghost function AllPackets(rs: seq<Ring>, ps: seq<Packet>): (qs: seq<Ring>)
    requires ValidRings(rs)
    ensures ValidRings(qs)
  {
    if ps == [] then rs else AccountedAll(AllPackets(rs, ps[..|ps| - 1]), ps[|ps| - 1].amount, ps[|ps| - 1].dir)
  }

  lemma {:induction false} PacketsSingle(rs: seq<Ring>, ps: seq<Packet>, k: Kind, last: int)
    requires ValidRings(rs)
    ensures Single(AllPackets(rs, ps), k, last) == State(AccountAll(Single(rs, k, last).ring, ps), last)
  {
    hide Accounted;
    if ps != [] {
      PacketsSingle(rs, ps[..|ps| - 1], k, last);
    }
  }

  lemma TurnSingle(rs: seq<Ring>, last: int, reset: bool, t: int, tm: Tm, offset: int, ps: seq<Packet>, k: Kind)
    requires ValidRings(rs) && LocalTime(offset, t, tm)
    ensures var r0, last0 := if reset then ZeroedThose(rs, [true, true, true, true]) else rs, if reset then 0 else last;
            ValidTm(tm) && Single(AllPackets(TurnedAll(r0, last0, t, Indices(tm)), ps), k, t)
            == TakeTurn(k, offset, Single(rs, k, last), Turn(reset, t, ps))
  {
    hide Turned, AccountAll, AllPackets, Index, Zeroed, LocalTime;
    var r0, last0 := if reset then ZeroedThose(rs, [true, true, true, true]) else rs, if reset then 0 else last;
    LocalTimeValid(offset, t, tm, last0);
    var to := Indices(tm);
    assert to[0] == to[..3][0] && to[1] == to[..3][1] && to[2] == to[..3][2];
    PacketsSingle(TurnedAll(r0, last0, t, to), ps, k, t);
  }

  /** One turn of the main loop. */
  method PlayTurn(g: Graphs, turn: Turn, tm: Tm, mono: int, ghost offset: int)
    requires g.Valid() && LocalTime(offset, turn.t, tm)
    modifies g, g.db, g.Arrays()
    ensures g.Valid() && g.lastReal == turn.t
    ensures forall k :: Single(g.Rings(), k, g.lastReal) == TakeTurn(k, offset, old(Single(g.Rings(), k, g.lastReal)), turn)
  {
    hide TakeTurn, LocalTime, TurnedAll, ZeroedThose, Single, ValidRings;
    ghost var rs, last := g.Rings(), g.lastReal;
    LocalTimeValid(offset, turn.t, tm, if turn.reset then 0 else last);
    if turn.reset {
      g.Reset(mono, turn.t);
    }
    g.GraphRotate(turn.t, tm);
    PlayPackets(g, turn.packets);
    forall k
      ensures Single(g.Rings(), k, turn.t) == TakeTurn(k, offset, Single(rs, k, last), turn)
    {
      TurnSingle(rs, last, turn.reset, turn.t, tm, offset, turn.packets, k);
    }
  }

  method PlayPackets(g: Graphs, ps: seq<Packet>)
    requires g.Valid()
    modifies g.Arrays()
    ensures g.Valid() && g.Rings() == AllPackets(old(g.Rings()), ps)
  {
    hide AccountedAll, ValidRings;
    for i := 0 to |ps|
      invariant g.Valid() && g.Rings() == AllPackets(old(g.Rings()), ps[..i])
    {
      assert ps[..i + 1][..i] == ps[..i];
      g.Acct(ps[i].amount, ps[i].dir);
    }
    assert ps[..|ps|] == ps;
  }

  /**
   Any run of the main loop leaves the arrays of the graphs of seconds, minutes and hours as the runs of
   single rings say.
   */
  method Play(g: Graphs, turns: seq<Turn>, tms: seq<Tm>, mono: int, ghost offset: int)
    requires g.Valid() && |tms| == |turns| && forall i :: 0 <= i < |turns| ==> LocalTime(offset, turns[i].t, tms[i])
    modifies g, g.db, g.Arrays()
    ensures g.Valid()
    ensures forall k :: Single(g.Rings(), k, g.lastReal) == RunState(k, offset, old(Single(g.Rings(), k, g.lastReal)), turns)
  {
    hide LocalTime, Single, TakeTurn;
    for i := 0 to |turns|
      invariant g.Valid()
      invariant forall k ::
        Single(g.Rings(), k, g.lastReal) == RunState(k, offset, old(Single(g.Rings(), k, g.lastReal)), turns[..i])
    {
      assert turns[..i + 1][..i] == turns[..i];
      PlayTurn(g, turns[i], tms[i], mono, offset);
    }
    assert turns[..|turns|] == turns;
  }

  /** Two arrays of counters show, `a` places before position `pos`, what was accounted `a` bars of elapsed time ago. */
  ghost predicate ShowAt(inn: seq<nat>, out: seq<nat>, pos: nat, l: Log, a: nat)
    requires |inn| == |out| && pos < |inn| && a < |inn|
  {
    var i := if a <= pos then pos - a else pos - a + |inn|;
    Bar(inn[i], out[i]) == BytesIn(l.entries, l.now - a)
  }

  lemma ArraysShow(inn: seq<nat>, out: seq<nat>, pos: nat, l: Log)
    requires |inn| == |out| == 60 && pos < 60 && Shows(60, Ring(Both(inn, out), pos), l)
    ensures forall a :: 0 <= a < 60 ==> ShowAt(inn, out, pos, l, a)
  {
    var r := Ring(Both(inn, out), pos);
    forall a | 0 <= a < 60
      ensures ShowAt(inn, out, pos, l, a)
    {
      assert View(r)[a] == BytesIn(l.entries, l.now - a);
    }
  }

  /**
   From a reset, the arrays of the graph of seconds hold what the log says, if no step from a reading of 0 does harm:
   the bar `a` places before the current one has exactly what was accounted `a` seconds of elapsed time ago.
   */
  method PlaySeconds(g: Graphs, ticks: seq<Tick>, ps: seq<seq<Packet>>, tms: seq<Tm>, mono: int, wall: int,
                     ghost offset: int)
    requires g.Valid() && |ps| == |ticks| == |tms| && Unharmed(ticks)
    requires forall i :: 0 <= i < |ticks| ==> LocalTime(offset, ticks[i].t, tms[i])
    modifies g, g.db, g.Arrays()
    ensures g.Valid()
    ensures forall a :: 0 <= a < 60 ==>
              ShowAt(g.db[0].inn[..], g.db[0].out[..], g.db[0].pos, LogOf(offset, ticks, ps), a)
  {
    hide LocalTime, RunState, RunLog, Unharmed, View, ShowAt, Shows;
    ghost var r := g.Rings()[0];
    g.Reset(mono, wall);
    assert Single(g.Rings(), Seconds, g.lastReal) == Seconds0(r);
    Play(g, Turns(ticks, ps), tms, mono, offset);
    UnharmedAgrees(offset, r, ticks, ps);
    assert Single(g.Rings(), Seconds, g.lastReal) == StateOf(offset, r, ticks, ps);
    ArraysShow(g.db[0].inn[..], g.db[0].out[..], g.db[0].pos, LogOf(offset, ticks, ps));
  }
}
