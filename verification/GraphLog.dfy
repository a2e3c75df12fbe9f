/**
 Whole runs of a graph: turns of the main loop, each of which may reset the graphs, rotates them
 to the current time and then accounts for the packets captured. The reference is a plain log.
 */
module GraphLog {
  import opened Wrappers
  import opened GraphRing

  datatype Packet = Packet(amount: nat, dir: Dir)

  /** One turn of the main loop at real time `t`. */
  datatype Turn = Turn(reset: bool, t: int, packets: seq<Packet>)

  datatype State = State(ring: Ring, last: int)

  /** Bytes accounted in bar number `bar`, counted in bars of elapsed time. */
  datatype Entry = Entry(bar: int, packet: Packet)

  /** The bars elapsed since the reset, the last time read since then, and all that was accounted. */
  datatype Log = Log(now: int, prev: Option<int>, entries: seq<Entry>)

  const EMPTY_LOG: Log := Log(0, None, [])

  function AccountAll(r: Ring, ps: seq<Packet>): (q: Ring)
    requires ValidRing(r)
    ensures ValidRing(q) && |q.bars| == |r.bars| && q.pos == r.pos
  {
    if ps == [] then r
    else
      var n := |ps| - 1;
      Accounted(AccountAll(r, ps[..n]), ps[n].amount, ps[n].dir)
  }

  function TakeTurn(k: Kind, offset: int, s: State, turn: Turn): (s': State)
    requires ValidRing(s.ring) && |s.ring.bars| == Bars(k)
    ensures ValidRing(s'.ring) && |s'.ring.bars| == Bars(k)
  {
    var r, last := if turn.reset then Zeroed(s.ring) else s.ring, if turn.reset then 0 else s.last;
    State(AccountAll(Turned(Span(k), r, last, turn.t, Index(k, offset, turn.t)), turn.packets), turn.t)
  }

  ghost function LogAll(l: Log, ps: seq<Packet>): Log {
    if ps == [] then l
    else
      var n := |ps| - 1;
      var m := LogAll(l, ps[..n]);
      m.(entries := m.entries + [Entry(m.now, ps[n])])
  }

  /** The bars that pass up to time `t`; none for the first time read. */
  function Elapsed(k: Kind, offset: int, prev: Option<int>, t: int): nat {
    match prev
    case None => 0
    case Some(last) => Passed(k, offset, last, t)
  }

  /** The log only knows how much time has gone forward, and appends. */
  ghost function LogTurn(k: Kind, offset: int, l: Log, turn: Turn): Log {
    var l0 := if turn.reset then EMPTY_LOG else l;
    LogAll(Log(l0.now + Elapsed(k, offset, l0.prev, turn.t), Some(turn.t), l0.entries), turn.packets)
  }

  ghost function RunState(k: Kind, offset: int, s: State, turns: seq<Turn>): (s': State)
    requires ValidRing(s.ring) && |s.ring.bars| == Bars(k)
    ensures ValidRing(s'.ring) && |s'.ring.bars| == Bars(k)
  {
    if turns == [] then s
    else
      var n := |turns| - 1;
      TakeTurn(k, offset, RunState(k, offset, s, turns[..n]), turns[n])
  }

  ghost function RunLog(k: Kind, offset: int, l: Log, turns: seq<Turn>): Log {
    if turns == [] then l
    else
      var n := |turns| - 1;
      LogTurn(k, offset, RunLog(k, offset, l, turns[..n]), turns[n])
  }

  /** All that was accounted in one bar, in 64-bit arithmetic. */
  ghost function BytesIn(es: seq<Entry>, bar: int): Bar {
    if es == [] then EMPTY
    else
      var n := |es| - 1;
      var b := BytesIn(es[..n], bar);
      if es[n].bar == bar then AddTo(b, es[n].packet.amount, es[n].packet.dir) else b
  }

  /** The bar of age `a` holds exactly what was accounted `a` bars of elapsed time ago. */
  ghost predicate Shows(n: nat, r: Ring, l: Log)
    requires ValidRing(r) && |r.bars| == n
  {
    forall a :: 0 <= a < n ==> View(r)[a] == BytesIn(l.entries, l.now - a)
  }

  /** The state knows the last time read, and stands at its position. */
  ghost predicate Clocked(k: Kind, offset: int, s: State, l: Log) {
    match l.prev
    case None => s.last == 0 && l.entries == []
    case Some(last) => s.last == last && s.ring.pos == Index(k, offset, last)
  }

  ghost predicate Agrees(k: Kind, offset: int, s: State, l: Log) {
    && ValidRing(s.ring) && |s.ring.bars| == Bars(k)
    && Shows(Bars(k), s.ring, l) && Clocked(k, offset, s, l)
    && (forall i :: 0 <= i < |l.entries| ==> l.entries[i].bar <= l.now)
  }

  lemma {:induction false} BytesNone(es: seq<Entry>, bar: int)
    requires forall i :: 0 <= i < |es| ==> es[i].bar != bar
    ensures BytesIn(es, bar) == EMPTY
  {
    if es != [] {
      BytesNone(es[..|es| - 1], bar);
    }
  }

  lemma AccountedShows(n: nat, r: Ring, l: Log, p: Packet)
    requires ValidRing(r) && |r.bars| == n && Shows(n, r, l)
    ensures Shows(n, Accounted(r, p.amount, p.dir), l.(entries := l.entries + [Entry(l.now, p)]))
  {
    var es := l.entries + [Entry(l.now, p)];
    assert es[..|es| - 1] == l.entries;
    AccountedView(r, p.amount, p.dir);
  }

  lemma {:induction false} AccountAllAgrees(k: Kind, offset: int, s: State, l: Log, ps: seq<Packet>)
    requires Agrees(k, offset, s, l) && l.prev.Some?
    ensures Agrees(k, offset, s.(ring := AccountAll(s.ring, ps)), LogAll(l, ps))
    ensures LogAll(l, ps).now == l.now && LogAll(l, ps).prev == l.prev
  {
    hide Shows, Accounted;
    if ps != [] {
      var n := |ps| - 1;
      AccountAllAgrees(k, offset, s, l, ps[..n]);
      AccountedShows(Bars(k), AccountAll(s.ring, ps[..n]), LogAll(l, ps[..n]), ps[n]);
      assert AccountAll(s.ring, ps) == Accounted(AccountAll(s.ring, ps[..n]), ps[n].amount, ps[n].dir);
    }
  }

  /** The turn to time `t` does to the ring what the elapsed time asks for. */
  ghost predicate Right(k: Kind, offset: int, s: State, l: Log, t: int)
    requires ValidRing(s.ring) && |s.ring.bars| == Bars(k)
  {
    View(Turned(Span(k), s.ring, s.last, t, Index(k, offset, t))) == Shifted(View(s.ring), Elapsed(k, offset, l.prev, t))
  }

  lemma ShiftedShows(n: nat, r: Ring, q: Ring, l: Log, d: nat, prev: Option<int>)
    requires ValidRing(r) && |r.bars| == n && Shows(n, r, l) && ValidRing(q) && |q.bars| == n
    requires View(q) == Shifted(View(r), d) && forall i :: 0 <= i < |l.entries| ==> l.entries[i].bar <= l.now
    ensures Shows(n, q, Log(l.now + d, prev, l.entries))
  {
    forall a | 0 <= a < n
      ensures View(q)[a] == BytesIn(l.entries, l.now + d - a)
    {
      if a < d {
        BytesNone(l.entries, l.now + d - a);
      } else {
        assert View(q)[a] == View(r)[a - d];
      }
    }
  }

  /** A first turn leaves an empty ring empty. */
  lemma FirstRight(k: Kind, offset: int, s: State, l: Log, t: int)
    requires Agrees(k, offset, s, l) && l.prev == None
    ensures Right(k, offset, s, l, t)
  {
    var idx := Index(k, offset, t);
    forall i | 0 <= i < Bars(k)
      ensures s.ring.bars[i] == EMPTY
    {
      var a := Wrap(s.ring.pos - i, Bars(k));
      assert View(s.ring)[a] == BytesIn([], l.now - a) == EMPTY;
      assert Wrap(s.ring.pos - a, Bars(k)) == i;
    }
    assert View(s.ring.(pos := idx)) == Shifted(View(s.ring), 0);
  }

  /** A turn that does what it should keeps the agreement. */
  lemma TurnedAgrees(k: Kind, offset: int, s: State, l: Log, t: int)
    requires Agrees(k, offset, s, l) && Right(k, offset, s, l, t)
    ensures Agrees(k, offset, State(Turned(Span(k), s.ring, s.last, t, Index(k, offset, t)), t),
                   Log(l.now + Elapsed(k, offset, l.prev, t), Some(t), l.entries))
  {
    hide View, Index, Shows, Shifted, Passed;
    var q := Turned(Span(k), s.ring, s.last, t, Index(k, offset, t));
    ShiftedShows(Bars(k), s.ring, q, l, Elapsed(k, offset, l.prev, t), Some(t));
    TurnedPosition(Span(k), s.ring, s.last, t, Index(k, offset, t));
  }

  lemma ResetAgrees(k: Kind, offset: int, s: State)
    requires ValidRing(s.ring) && |s.ring.bars| == Bars(k)
    ensures Agrees(k, offset, State(Zeroed(s.ring), 0), EMPTY_LOG)
  {
  }

  ghost predicate TurnRight(k: Kind, offset: int, s: State, l: Log, turn: Turn)
    requires ValidRing(s.ring) && |s.ring.bars| == Bars(k)
  {
    turn.reset || Right(k, offset, s, l, turn.t)
  }

  lemma TakeTurnAgrees(k: Kind, offset: int, s: State, l: Log, turn: Turn)
    requires Agrees(k, offset, s, l) && TurnRight(k, offset, s, l, turn)
    ensures Agrees(k, offset, TakeTurn(k, offset, s, turn), LogTurn(k, offset, l, turn))
  {
    hide Agrees, Right, Turned, Index, Passed, Zeroed;
    var s0 := if turn.reset then State(Zeroed(s.ring), 0) else s;
    var l0 := if turn.reset then EMPTY_LOG else l;
    AgreesSize(k, offset, s, l);
    if turn.reset {
      ResetAgrees(k, offset, s);
      AgreesSize(k, offset, s0, l0);
      FirstRight(k, offset, s0, l0, turn.t);
    }
    TurnedAgrees(k, offset, s0, l0, turn.t);
    AccountAllAgrees(k, offset, State(Turned(Span(k), s0.ring, s0.last, turn.t, Index(k, offset, turn.t)), turn.t),
                     Log(l0.now + Elapsed(k, offset, l0.prev, turn.t), Some(turn.t), l0.entries), turn.packets);
  }

  lemma AgreesSize(k: Kind, offset: int, s: State, l: Log)
    requires Agrees(k, offset, s, l)
    ensures ValidRing(s.ring) && |s.ring.bars| == Bars(k)
  {
  }

  /** The time read before turn `i`, if any has been read since the reset; `first` was read before all turns. */
  function Before(first: Option<int>, turns: seq<Turn>, i: nat): Option<int>
    requires i < |turns|
  {
    if turns[i].reset then None else if i == 0 then first else Some(turns[i - 1].t)
  }

  /** No turn comes after a time of 0, which the code takes for "never", and none is blind. */
  predicate Regular(k: Kind, offset: int, first: Option<int>, turns: seq<Turn>) {
    forall i :: 0 <= i < |turns| ==>
      match Before(first, turns, i)
      case None => true
      case Some(last) => last != 0 && !Blind(k, offset, last, turns[i].t)
  }

  lemma {:induction false} RunPrev(k: Kind, offset: int, l: Log, turns: seq<Turn>)
    ensures RunLog(k, offset, l, turns).prev == if turns == [] then l.prev else Some(turns[|turns| - 1].t)
  {
    if turns != [] {
      var n := |turns| - 1;
      var l' := RunLog(k, offset, l, turns[..n]);
      var l0 := if turns[n].reset then EMPTY_LOG else l';
      LogAllPrev(Log(l0.now + Elapsed(k, offset, l0.prev, turns[n].t), Some(turns[n].t), l0.entries), turns[n].packets);
    }
  }

  lemma {:induction false} LogAllPrev(l: Log, ps: seq<Packet>)
    ensures LogAll(l, ps).prev == l.prev && LogAll(l, ps).now == l.now
    ensures |LogAll(l, ps).entries| == |l.entries| + |ps| && LogAll(l, ps).entries[..|l.entries|] == l.entries
    ensures forall i :: |l.entries| <= i < |l.entries| + |ps| ==> LogAll(l, ps).entries[i].bar == l.now
  {
    if ps != [] {
      LogAllPrev(l, ps[..|ps| - 1]);
    }
  }

  /** Over every regular run, the ring agrees with the log. */
  lemma {:induction false} RunAgrees(k: Kind, offset: int, s: State, l: Log, turns: seq<Turn>)
    requires Agrees(k, offset, s, l) && Regular(k, offset, l.prev, turns)
    ensures Agrees(k, offset, RunState(k, offset, s, turns), RunLog(k, offset, l, turns))
  {
    if turns != [] {
      hide Agrees, TakeTurn, LogTurn, Blind, TurnRight;
      var n := |turns| - 1;
      var s', l' := RunState(k, offset, s, turns[..n]), RunLog(k, offset, l, turns[..n]);
      assert forall i :: 0 <= i < n ==> Before(l.prev, turns[..n], i) == Before(l.prev, turns, i);
      RunAgrees(k, offset, s, l, turns[..n]);
      RunPrev(k, offset, l, turns[..n]);
      assert turns[n].reset || l'.prev == Before(l.prev, turns, n);
      RegularRight(k, offset, s', l', turns[n]);
      TakeTurnAgrees(k, offset, s', l', turns[n]);
    }
  }

  lemma RegularRight(k: Kind, offset: int, s: State, l: Log, turn: Turn)
    requires Agrees(k, offset, s, l)
    requires turn.reset || l.prev == None || (l.prev.value != 0 && !Blind(k, offset, l.prev.value, turn.t))
    ensures TurnRight(k, offset, s, l, turn)
  {
    hide Blind, Turned, Shifted, View, Shows;
    if !turn.reset {
      if l.prev == None {
        FirstRight(k, offset, s, l, turn.t);
      } else {
        TurnedView(k, offset, s.ring, s.last, turn.t);
      }
    }
  }

  // ----- The graph of seconds, whatever the clock shows -----

  /** A turn of the main loop without its packets. */
  datatype Tick = Tick(reset: bool, t: int)

  function Turns(ticks: seq<Tick>, ps: seq<seq<Packet>>): (turns: seq<Turn>)
    requires |ps| == |ticks|
    ensures |turns| == |ticks|
  {
    seq(|ticks|, i requires 0 <= i < |ticks| => Turn(ticks[i].reset, ticks[i].t, ps[i]))
  }

  function Seconds0(r: Ring): State {
    State(Zeroed(r), 0)
  }

  /** At every turn of the run the ring shows what the log says. */
  ghost predicate ShowsThroughout(offset: int, r: Ring, turns: seq<Turn>)
    requires ValidRing(r) && |r.bars| == 60
  {
    forall n :: 0 <= n <= |turns| ==>
      Shows(60, RunState(Seconds, offset, Seconds0(r), turns[..n]).ring, RunLog(Seconds, offset, EMPTY_LOG, turns[..n]))
  }

  /** Tick `j` belongs to the time since the last reset. */
  predicate Live(ticks: seq<Tick>, j: nat)
    requires j < |ticks|
  {
    forall i :: j < i < |ticks| ==> !ticks[i].reset
  }

  /** The seconds that have gone by since tick `j`, by the clock going forward. */
  function Since(ticks: seq<Tick>, j: nat): nat
    requires j < |ticks|
  {
    var n := |ticks| - 1;
    if j == n then 0
    else Since(ticks[..n], j) + if ticks[n].t <= ticks[n - 1].t then 0 else ticks[n].t - ticks[n - 1].t
  }

  /**
   A step from time 0 to time `t` does no harm: going back it keeps its place in the minute, and going
   forward it takes nothing that is still shown past the end of the ring.
   */
  ghost predicate Harmless(ticks: seq<Tick>, t: int) {
    if t <= 0 then t % 60 == 0
    else forall j :: 0 <= j < |ticks| && Live(ticks, j) && Since(ticks, j) < 60 ==> Since(ticks, j) + t < 60
  }

  ghost predicate HarmlessAt(ticks: seq<Tick>, m: nat)
    requires m < |ticks|
  {
    m == 0 || ticks[m].reset || ticks[m - 1].t != 0 || Harmless(ticks[..m], ticks[m].t)
  }

  /** Every step from a time of 0, but for resets, is harmless. */
  ghost predicate Unharmed(ticks: seq<Tick>) {
    forall m :: 0 <= m < |ticks| ==> HarmlessAt(ticks, m)
  }

  /** Every entry was made at a tick since the last reset. */
  ghost predicate Reached(ticks: seq<Tick>, l: Log) {
    forall i :: 0 <= i < |l.entries| ==> Made(ticks, l, i)
  }

  ghost predicate Made(ticks: seq<Tick>, l: Log, i: nat)
    requires i < |l.entries|
  {
    exists j: nat :: MadeAt(ticks, l, i, j)
  }

  ghost predicate MadeAt(ticks: seq<Tick>, l: Log, i: nat, j: nat)
    requires i < |l.entries|
  {
    j < |ticks| && Live(ticks, j) && l.entries[i].bar == l.now - Since(ticks, j)
  }

  ghost function LogOf(offset: int, ticks: seq<Tick>, ps: seq<seq<Packet>>): Log
    requires |ps| == |ticks|
  {
    RunLog(Seconds, offset, EMPTY_LOG, Turns(ticks, ps))
  }

  ghost function StateOf(offset: int, r: Ring, ticks: seq<Tick>, ps: seq<seq<Packet>>): (s: State)
    requires |ps| == |ticks| && ValidRing(r) && |r.bars| == 60
    ensures ValidRing(s.ring) && |s.ring.bars| == 60
  {
    RunState(Seconds, offset, Seconds0(r), Turns(ticks, ps))
  }

  /** The last turn of a run. */
  lemma LastTurn(offset: int, r: Ring, ticks: seq<Tick>, ps: seq<seq<Packet>>)
    requires |ps| == |ticks| > 0 && ValidRing(r) && |r.bars| == 60
    ensures var n := |ticks| - 1;
            var turn := Turn(ticks[n].reset, ticks[n].t, ps[n]);
            && Turns(ticks, ps)[..n] == Turns(ticks[..n], ps[..n])
            && LogOf(offset, ticks, ps) == LogTurn(Seconds, offset, LogOf(offset, ticks[..n], ps[..n]), turn)
            && StateOf(offset, r, ticks, ps) == TakeTurn(Seconds, offset, StateOf(offset, r, ticks[..n], ps[..n]), turn)
            && LogOf(offset, ticks[..n], ps[..n]).prev == if n == 0 then None else Some(ticks[n - 1].t)
  {
    hide LogTurn, TakeTurn;
    var n := |ticks| - 1;
    assert Turns(ticks, ps)[..n] == Turns(ticks[..n], ps[..n]);
    RunPrev(Seconds, offset, EMPTY_LOG, Turns(ticks[..n], ps[..n]));
  }

  lemma UnharmedFront(ticks: seq<Tick>)
    requires ticks != [] && Unharmed(ticks)
    ensures Unharmed(ticks[..|ticks| - 1])
  {
    hide Harmless;
    var front := ticks[..|ticks| - 1];
    forall m | 0 <= m < |front|
      ensures HarmlessAt(front, m)
    {
      assert front[..m] == ticks[..m] && HarmlessAt(ticks, m);
    }
  }

  /** The entries made so far grow older, and those of this turn are new. */
  lemma ReachedTurn(offset: int, ticks: seq<Tick>, l: Log, turn: Turn)
    requires ticks != [] && turn.reset == ticks[|ticks| - 1].reset && turn.t == ticks[|ticks| - 1].t
    requires var n := |ticks| - 1; Reached(ticks[..n], l) && l.prev == if n == 0 then None else Some(ticks[n - 1].t)
    ensures Reached(ticks, LogTurn(Seconds, offset, l, turn))
  {
    var n := |ticks| - 1;
    var l0 := if turn.reset then EMPTY_LOG else l;
    var base := Log(l0.now + Elapsed(Seconds, offset, l0.prev, turn.t), Some(turn.t), l0.entries);
    var m := LogTurn(Seconds, offset, l, turn);
    LogAllPrev(base, turn.packets);
    forall i | 0 <= i < |m.entries|
      ensures Made(ticks, m, i)
    {
      if i < |base.entries| {
        assert !turn.reset && m.entries[i] == m.entries[..|base.entries|][i] == l.entries[i];
        assert Made(ticks[..n], l, i);
        var j: nat :| MadeAt(ticks[..n], l, i, j);
        LiveLonger(ticks, j);
        assert MadeAt(ticks, m, i, j);
      } else {
        assert MadeAt(ticks, m, i, n);
      }
    }
  }

  lemma LiveLonger(ticks: seq<Tick>, j: nat)
    requires |ticks| > 0 && j < |ticks| - 1 && !ticks[|ticks| - 1].reset && Live(ticks[..|ticks| - 1], j)
    ensures Live(ticks, j)
  {
    var front := ticks[..|ticks| - 1];
    forall i | j < i < |ticks|
      ensures !ticks[i].reset
    {
      if i < |front| {
        assert front[i] == ticks[i];
      }
    }
  }

  /** What the ring shows was accounted at some tick since the reset. */
  lemma ShownMade(ticks: seq<Tick>, r: Ring, l: Log, a: nat) returns (j: nat)
    requires ValidRing(r) && |r.bars| == 60 && Shows(60, r, l) && Reached(ticks, l) && a < 60 && View(r)[a] != EMPTY
    ensures j < |ticks| && Live(ticks, j) && Since(ticks, j) == a
  {
    hide View;
    if forall i :: 0 <= i < |l.entries| ==> l.entries[i].bar != l.now - a {
      BytesNone(l.entries, l.now - a);
      assert false;
    }
    var i :| 0 <= i < |l.entries| && l.entries[i].bar == l.now - a;
    assert Made(ticks, l, i);
    j :| MadeAt(ticks, l, i, j);
  }

  /** The next turn after a run does what it should, unless it harms. */
  lemma NextRight(offset: int, ticks: seq<Tick>, s: State, l: Log, turn: Turn)
    requires Agrees(Seconds, offset, s, l) && Reached(ticks, l)
    requires l.prev == if ticks == [] then None else Some(ticks[|ticks| - 1].t)
    requires turn.reset || ticks == [] || ticks[|ticks| - 1].t != 0 || Harmless(ticks, turn.t)
    ensures TurnRight(Seconds, offset, s, l, turn)
  {
    hide Reached, Live, Since, View;
    if !turn.reset && l.prev == Some(0) {
      var t := turn.t;
      if t > 0 {
        forall a | 0 <= a < 60 && View(s.ring)[a] != EMPTY
          ensures a + t < 60
        {
          var j := ShownMade(ticks, s.ring, l, a);
        }
      }
      EpochSeconds(offset, s.ring, t);
    } else {
      if !turn.reset && l.prev.Some? {
        SecondsNeverBlind(offset, l.prev.value, turn.t);
      }
      RegularRight(Seconds, offset, s, l, turn);
    }
  }

  lemma {:induction false} UnharmedAgrees(offset: int, r: Ring, ticks: seq<Tick>, ps: seq<seq<Packet>>)
    requires |ps| == |ticks| && ValidRing(r) && |r.bars| == 60 && Unharmed(ticks)
    ensures Agrees(Seconds, offset, StateOf(offset, r, ticks, ps), LogOf(offset, ticks, ps))
    ensures Reached(ticks, LogOf(offset, ticks, ps))
    decreases |ticks|
  {
    if ticks == [] {
      ResetAgrees(Seconds, offset, State(r, 0));
    } else {
      var n := |ticks| - 1;
      var turn := Turn(ticks[n].reset, ticks[n].t, ps[n]);
      var s, l := StateOf(offset, r, ticks[..n], ps[..n]), LogOf(offset, ticks[..n], ps[..n]);
      hide Agrees, Reached, TakeTurn, LogTurn, StateOf, LogOf, TurnRight, Harmless, Turns;
      UnharmedFront(ticks);
      assert HarmlessAt(ticks, n);
      UnharmedAgrees(offset, r, ticks[..n], ps[..n]);
      LastTurn(offset, r, ticks, ps);
      assert n > 0 ==> ticks[..n][n - 1] == ticks[n - 1];
      NextRight(offset, ticks[..n], s, l, turn);
      TakeTurnAgrees(Seconds, offset, s, l, turn);
      ReachedTurn(offset, ticks, l, turn);
    }
  }

  // ----- And a step that is not harmless does harm -----

  const SEVEN: Packet := Packet(7, In)

  /** The packets of a run that sees one packet, at tick `j`. */
  function Single(n: nat, j: nat): (ps: seq<seq<Packet>>)
    ensures |ps| == n
  {
    seq(n, i => if i == j then [SEVEN] else [])
  }

  lemma LogNothing(l: Log)
    ensures LogAll(l, []) == l
  {
  }

  lemma LogSeven(l: Log)
    ensures LogAll(l, [SEVEN]) == l.(entries := l.entries + [Entry(l.now, SEVEN)])
  {
    assert [SEVEN][..0] == [] && LogAll(l, []) == l;
  }

  lemma {:induction false} SilentLog(offset: int, ticks: seq<Tick>, j: nat)
    requires j >= |ticks|
    ensures LogOf(offset, ticks, Single(|ticks|, j)).entries == []
    decreases |ticks|
  {
    if ticks != [] {
      var n := |ticks| - 1;
      hide LogOf, StateOf, Passed;
      assert Single(n + 1, j)[..n] == Single(n, j);
      SilentLog(offset, ticks[..n], j);
      LastTurn(offset, EMPTY_RING, ticks, Single(n + 1, j));
      var l := LogOf(offset, ticks[..n], Single(n, j));
      var l0 := if ticks[n].reset then EMPTY_LOG else l;
      LogNothing(Log(l0.now + Elapsed(Seconds, offset, l0.prev, ticks[n].t), Some(ticks[n].t), l0.entries));
    }
  }

  const EMPTY_RING: Ring := Ring(seq(60, _ => EMPTY), 0)

  lemma SecondsPassed(offset: int, last: int, t: int)
    ensures Passed(Seconds, offset, last, t) == if t <= last then 0 else t - last
  {
  }

  /** The packet is in the log with the age that its tick has. */
  lemma {:induction false} SingleLog(offset: int, ticks: seq<Tick>, j: nat)
    requires j < |ticks| && Live(ticks, j)
    ensures var l := LogOf(offset, ticks, Single(|ticks|, j)); l.entries == [Entry(l.now - Since(ticks, j), SEVEN)]
    decreases |ticks|
  {
    hide LogOf, StateOf, Passed;
    var n := |ticks| - 1;
    assert Single(n + 1, j)[..n] == Single(n, j);
    LastTurn(offset, EMPTY_RING, ticks, Single(n + 1, j));
    var l := LogOf(offset, ticks[..n], Single(n, j));
    var l0 := if ticks[n].reset then EMPTY_LOG else l;
    var base := Log(l0.now + Elapsed(Seconds, offset, l0.prev, ticks[n].t), Some(ticks[n].t), l0.entries);
    if j == n {
      SilentLog(offset, ticks[..n], j);
      LogSeven(base);
    } else {
      assert forall i :: j < i < n ==> ticks[..n][i] == ticks[i];
      SingleLog(offset, ticks[..n], j);
      SecondsPassed(offset, ticks[n - 1].t, ticks[n].t);
      LogNothing(base);
    }
  }

  /** The state has the last time read, and stands at its position. */
  lemma {:induction false} StateClock(offset: int, r: Ring, ticks: seq<Tick>, ps: seq<seq<Packet>>)
    requires |ps| == |ticks| && ValidRing(r) && |r.bars| == 60
    ensures var s := StateOf(offset, r, ticks, ps);
            if ticks == [] then s.last == 0
            else s.last == ticks[|ticks| - 1].t && s.ring.pos == Index(Seconds, offset, s.last)
    decreases |ticks|
  {
    if ticks != [] {
      hide StateOf, LogOf, Index, Turned;
      var n := |ticks| - 1;
      StateClock(offset, r, ticks[..n], ps[..n]);
      LastTurn(offset, r, ticks, ps);
      var s := StateOf(offset, r, ticks[..n], ps[..n]);
      var s0 := if ticks[n].reset then State(Zeroed(s.ring), 0) else s;
      TurnedPosition(60, s0.ring, s0.last, ticks[n].t, Index(Seconds, offset, ticks[n].t));
    }
  }

  lemma OneEntry(bar: int, x: int)
    ensures BytesIn([Entry(bar, SEVEN)], x) == if x == bar then Bar(7, 0) else EMPTY
  {
    assert [Entry(bar, SEVEN)][..0] == [];
    assert BytesIn([], x) == EMPTY;
  }

  /** A step from 0 that carries a packet past the end of the ring, or off its place, shows it where the log has nothing. */
  lemma StepHarms(offset: int, r: Ring, l: Log, a: nat, t: int)
    requires ValidRing(r) && |r.bars| == 60 && r.pos == Index(Seconds, offset, 0) && Shows(60, r, l)
    requires a < 60 && l.entries == [Entry(l.now - a, SEVEN)]
    requires if t <= 0 then a == 0 && t % 60 != 0 else a + t >= 60
    ensures !Shows(60, r.(pos := Index(Seconds, offset, t)),
                   Log(l.now + Passed(Seconds, offset, 0, t), Some(t), l.entries))
  {
    hide View, Index, Passed;
    EpochDistance(offset, t);
    var idx, d := Index(Seconds, offset, t), t % 60;
    var b := if a + d < 60 then a + d else a + d - 60;
    PlacedView(r, idx, b);
    assert Wrap(b - d, 60) == a;
    OneEntry(l.now - a, l.now - a);
    assert View(r.(pos := idx))[b] == View(r)[a] == Bar(7, 0);
    OneEntry(l.now - a, l.now + Passed(Seconds, offset, 0, t) - b);
  }

  /** What the turn at tick `m` of a run that sees one packet before it makes of ring and log. */
  lemma QuietTurn(offset: int, r: Ring, ticks: seq<Tick>, j: nat)
    requires ValidRing(r) && |r.bars| == 60 && |ticks| >= 2 && j < |ticks| - 1
    requires var n := |ticks| - 1; !ticks[n].reset && ticks[n - 1].t == 0
    ensures var n := |ticks| - 1;
            var ps, t := Single(|ticks|, j), ticks[n].t;
            var l := LogOf(offset, ticks[..n], Single(n, j));
            && StateOf(offset, r, ticks, ps).ring
               == StateOf(offset, r, ticks[..n], Single(n, j)).ring.(pos := Index(Seconds, offset, t))
            && LogOf(offset, ticks, ps) == Log(l.now + Passed(Seconds, offset, 0, t), Some(t), l.entries)
  {
    hide StateOf, LogOf, Index, Passed;
    var n := |ticks| - 1;
    assert Single(n + 1, j)[..n] == Single(n, j);
    LastTurn(offset, r, ticks, Single(n + 1, j));
    StateClock(offset, r, ticks[..n], Single(n, j));
    var l := LogOf(offset, ticks[..n], Single(n, j));
    LogNothing(Log(l.now + Passed(Seconds, offset, 0, ticks[n].t), Some(ticks[n].t), l.entries));
  }

  lemma TurnsFront(ticks: seq<Tick>, j: nat, m: nat)
    requires m <= |ticks|
    ensures Single(|ticks|, j)[..m] == Single(m, j)
    ensures Turns(ticks, Single(|ticks|, j))[..m] == Turns(ticks[..m], Single(m, j))
  {
  }

  /** The tick whose bytes are harmed. */
  lemma Culprit(ticks: seq<Tick>, t: int) returns (j: nat)
    requires ticks != [] && !Harmless(ticks, t)
    ensures j < |ticks| && Live(ticks, j) && Since(ticks, j) < 60
    ensures if t <= 0 then Since(ticks, j) == 0 && t % 60 != 0 else Since(ticks, j) + t >= 60
  {
    j := |ticks| - 1;
    if t > 0 {
      j :| j < |ticks| && Live(ticks, j) && Since(ticks, j) < 60 && Since(ticks, j) + t >= 60;
    }
  }

  lemma HarmShows(offset: int, r: Ring, ticks: seq<Tick>, m: nat) returns (ps: seq<seq<Packet>>)
    requires ValidRing(r) && |r.bars| == 60 && m < |ticks| && !HarmlessAt(ticks, m)
    ensures |ps| == |ticks| && !ShowsThroughout(offset, r, Turns(ticks, ps))
  {
    var front, t := ticks[..m], ticks[m].t;
    hide Shows, Index, Passed, Single, Turns, Live, Since, Harmless, StateOf, LogOf;
    var j := Culprit(front, t);
    ps := Single(|ticks|, j);
    SingleLog(offset, front, j);
    StateClock(offset, r, front, Single(m, j));
    assert ticks[..m + 1][..m] == front;
    QuietTurn(offset, r, ticks[..m + 1], j);
    TurnsFront(ticks, j, m);
    TurnsFront(ticks, j, m + 1);
    var s, l := StateOf(offset, r, front, Single(m, j)), LogOf(offset, front, Single(m, j));
    if Shows(60, s.ring, l) {
      StepHarms(offset, s.ring, l, Since(front, j), t);
      ShownAt(offset, r, ticks, ps, m + 1);
    } else {
      ShownAt(offset, r, ticks, ps, m);
    }
  }

  lemma ShownAt(offset: int, r: Ring, ticks: seq<Tick>, ps: seq<seq<Packet>>, n: nat)
    requires ValidRing(r) && |r.bars| == 60 && |ps| == |ticks| && n <= |ticks|
    requires Turns(ticks, ps)[..n] == Turns(ticks[..n], ps[..n])
    ensures !Shows(60, StateOf(offset, r, ticks[..n], ps[..n]).ring, LogOf(offset, ticks[..n], ps[..n]))
            ==> !ShowsThroughout(offset, r, Turns(ticks, ps))
  {
    hide Shows;
  }

  /**
   The graph of seconds shows at every turn exactly what was accounted so many seconds of elapsed time ago,
   whatever packets come and however the clock jumps, if and only if every step from a clock reading of 0 is harmless.
   */
  lemma SecondsExactly(offset: int, r: Ring, ticks: seq<Tick>)
    requires ValidRing(r) && |r.bars| == 60
    ensures (forall ps :: |ps| == |ticks| ==> ShowsThroughout(offset, r, Turns(ticks, ps))) <==> Unharmed(ticks)
  {
    hide Shows, HarmlessAt;
    if Unharmed(ticks) {
      forall ps: seq<seq<Packet>> | |ps| == |ticks|
        ensures ShowsThroughout(offset, r, Turns(ticks, ps))
      {
        forall n | 0 <= n <= |ticks|
          ensures Shows(60, RunState(Seconds, offset, Seconds0(r), Turns(ticks, ps)[..n]).ring,
                        RunLog(Seconds, offset, EMPTY_LOG, Turns(ticks, ps)[..n]))
        {
          assert Turns(ticks, ps)[..n] == Turns(ticks[..n], ps[..n]);
          UnharmedPrefix(ticks, n);
          UnharmedAgrees(offset, r, ticks[..n], ps[..n]);
        }
      }
    } else {
      var m: nat :| m < |ticks| && !HarmlessAt(ticks, m);
      var ps := HarmShows(offset, r, ticks, m);
    }
  }

  lemma UnharmedPrefix(ticks: seq<Tick>, n: nat)
    requires n <= |ticks| && Unharmed(ticks)
    ensures Unharmed(ticks[..n])
  {
    hide Harmless;
    forall m | 0 <= m < n
      ensures HarmlessAt(ticks[..n], m)
    {
      assert ticks[..n][..m] == ticks[..m] && HarmlessAt(ticks, m);
    }
  }

  /** A run whose clock never shows 0 is not harmed. */
  lemma NeverZeroUnharmed(ticks: seq<Tick>)
    requires forall i :: 0 <= i < |ticks| ==> ticks[i].t != 0
    ensures Unharmed(ticks)
  {
  }
}
