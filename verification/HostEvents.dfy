/** The sessions of a host as /json reports them (host_event_update in hosts_db.c), over runs of packets and polls. */
module HostEvents {
  import opened Wrappers
  import opened Bytes

  /** The fields of a host that track its sessions; `number` is event_seq. */
  datatype Session = Session(lastSeen: int, number: u64, openedAt: int, closedAt: int, isOpen: bool)

  const NEW_SESSION: Session := Session(0, 0, 0, 0, false)

  /** A packet from the host, or a poll that takes a host for closed after `close` seconds without one. */
  datatype Event = Seen(now: int) | Poll(now: int, close: nat)

  /** host_is_active() */
  predicate Active(lastSeen: int, now: int, close: nat) {
    lastSeen != 0 && (lastSeen > now || now - lastSeen <= close)
  }

  /** host_event_update() */
  function Updated(s: Session, now: int, close: nat): Session {
    var active := Active(s.lastSeen, now, close);
    if s.number == 0 then Session(s.lastSeen, 1, s.lastSeen, if active then 0 else now, active)
    else if active then
      if s.isOpen then s else Session(s.lastSeen, Add64(s.number, 1), s.lastSeen, 0, true)
    else if s.isOpen then s.(isOpen := false, closedAt := now)
    else s
  }

  function Apply(s: Session, e: Event): Session {
    match e
    case Seen(now) => s.(lastSeen := now)
    case Poll(now, close) => Updated(s, now, close)
  }

  function Run(es: seq<Event>): Session {
    if es == [] then NEW_SESSION else Apply(Run(es[..|es| - 1]), es[|es| - 1])
  }

  // ----- The reference: the events alone -----

  /** The time of the last packet. */
  function LastSeen(es: seq<Event>): int {
    if es == [] then 0
    else match es[|es| - 1]
      case Seen(now) => now
      case Poll(_, _) => LastSeen(es[..|es| - 1])
  }

  /** Whether the host was active at the last poll, if there was one. */
  function LastPoll(es: seq<Event>): Option<bool> {
    if es == [] then None
    else match es[|es| - 1]
      case Seen(_) => LastPoll(es[..|es| - 1])
      case Poll(now, close) => Some(Active(LastSeen(es), now, close))
  }

  /** How often a poll found the host active that the poll before had not. */
  function Openings(es: seq<Event>): (n: nat)
    ensures n <= |es|
  {
    if es == [] then 0
    else
      var before := es[..|es| - 1];
      Openings(before) +
      if es[|es| - 1].Poll? && LastPoll(before) == Some(false) && LastPoll(es) == Some(true) then 1 else 0
  }

  /** The sequence number counts the sessions, and the flag is the activity at the last poll, after every run of events. */
  lemma {:induction false} RunCounts(es: seq<Event>)
    requires |es| < U64 - 1
    ensures var s := Run(es);
            && s.lastSeen == LastSeen(es)
            && s.number == (if LastPoll(es) == None then 0 else 1 + Openings(es))
            && s.isOpen == (LastPoll(es) == Some(true))
            && (LastPoll(es) == None ==> Openings(es) == 0)
  {
    if es != [] {
      var before, e := es[..|es| - 1], es[|es| - 1];
      RunCounts(before);
      var s := Run(before);
      assert Openings(before) + 2 < U64;
      if e.Poll? {
        assert LastSeen(es) == LastSeen(before);
        assert LastPoll(es) == Some(Active(s.lastSeen, e.now, e.close));
        assert Run(es) == Updated(s, e.now, e.close);
        match LastPoll(before)
        case None =>
        case Some(open) =>
          assert s.isOpen == open;
          assert Openings(es) == Openings(before) + if !open && LastPoll(es) == Some(true) then 1 else 0;
      } else {
        assert LastPoll(es) == LastPoll(before) && Openings(es) == Openings(before);
      }
    }
  }

  // ----- The order of sessions -----

  /** A clock that is positive and never goes back. */
  ghost predicate Timed(es: seq<Event>) {
    && (forall i :: 0 <= i < |es| ==> es[i].now > 0)
    && (forall i, j :: 0 <= i < j < |es| ==> es[i].now <= es[j].now)
  }

  /** Polls that never become more patient. */
  ghost predicate Steady(es: seq<Event>) {
    forall i, j :: 0 <= i < j < |es| && es[i].Poll? && es[j].Poll? ==> es[j].close <= es[i].close
  }

  /** The session was closed by a poll, and that poll would not find it open if it had waited. */
  ghost predicate ClosedBy(s: Session, es: seq<Event>, i: nat) {
    i < |es| && es[i].Poll? && es[i].now == s.closedAt && !Active(s.lastSeen, s.closedAt, es[i].close)
  }

  ghost predicate Bounded(s: Session, now: int) {
    0 <= s.lastSeen <= now && s.openedAt <= now && s.closedAt <= now
  }

  ghost predicate Settled(s: Session, es: seq<Event>) {
    s.number > 0 && !s.isOpen ==>
      s.openedAt <= s.closedAt && (s.lastSeen >= s.closedAt || exists i :: ClosedBy(s, es, i))
  }

  ghost predicate InOrder(es: seq<Event>) {
    Bounded(Run(es), if es == [] then 0 else es[|es| - 1].now) && Settled(Run(es), es)
  }

  lemma BoundedStep(s: Session, now: int, e: Event)
    requires Bounded(s, now) && 0 <= now <= e.now
    ensures Bounded(Apply(s, e), e.now)
  {
  }

  lemma SettledStep(s: Session, before: seq<Event>, e: Event)
    requires Bounded(s, e.now) && Settled(s, before) && s.number < U64 - 1
    ensures Settled(Apply(s, e), before + [e])
  {
    var t, es := Apply(s, e), before + [e];
    if t.number > 0 && !t.isOpen && t.lastSeen < t.closedAt {
      if s.number > 0 && !s.isOpen {
        var i: nat :| ClosedBy(s, before, i);
        assert ClosedBy(t, es, i);
      } else {
        assert ClosedBy(t, es, |before|);
      }
    }
  }

  /** A later, no more patient poll does not find active what an earlier one did not. */
  lemma StillInactive(lastSeen: int, earlier: int, patience: nat, now: int, close: nat)
    requires !Active(lastSeen, earlier, patience) && earlier <= now && close <= patience
    ensures !Active(lastSeen, now, close)
  {
  }

  lemma ReopenedLater(es: seq<Event>, e: Event)
    requires Timed(es + [e]) && Steady(es + [e]) && InOrder(es)
    ensures var s, t := Run(es), Apply(Run(es), e);
            s.number > 0 && !s.isOpen && t.isOpen ==> t.openedAt == s.lastSeen >= s.closedAt
  {
    var s := Run(es);
    if s.number > 0 && !s.isOpen && s.lastSeen < s.closedAt && e.Poll? {
      var i: nat :| ClosedBy(s, es, i);
      var all := es + [e];
      assert all[i] == es[i] && all[|es|] == e;
      StillInactive(s.lastSeen, s.closedAt, es[i].close, e.now, e.close);
    }
  }

  lemma {:induction false} AlwaysInOrder(es: seq<Event>)
    requires Timed(es) && |es| < U64 - 1
    ensures InOrder(es)
  {
    if es != [] {
      var n := |es| - 1;
      var before, e := es[..n], es[n];
      AlwaysInOrder(before);
      assert es == before + [e];
      RunCounts(before);
      BoundedStep(Run(before), if before == [] then 0 else before[n - 1].now, e);
      SettledStep(Run(before), before, e);
    }
  }

  /** Event `e` after `es` opens a session before the one that was closed last had closed. */
  ghost predicate Overlaps(es: seq<Event>, e: Event) {
    var s, t := Run(es), Run(es + [e]);
    s.number > 0 && !s.isOpen && t.isOpen && t.openedAt < s.closedAt
  }

  /** No session opens before the one before it closed. */
  ghost predicate Ordered(es: seq<Event>) {
    forall n :: 0 <= n < |es| ==> !Overlaps(es[..n], es[n])
  }

  /** The time of the first of the polls that have found the host inactive without a break. */
  function ClosingTime(es: seq<Event>): int {
    if es == [] then 0
    else
      var before, e := es[..|es| - 1], es[|es| - 1];
      if e.Poll? && LastPoll(es) == Some(false) && LastPoll(before) != Some(false) then e.now else ClosingTime(before)
  }

  lemma {:induction false} RunCloses(es: seq<Event>)
    requires |es| < U64 - 1
    ensures LastPoll(es) == Some(false) ==> Run(es).closedAt == ClosingTime(es)
  {
    if es != [] {
      var before, e := es[..|es| - 1], es[|es| - 1];
      RunCloses(before);
      RunCounts(before);
      if e.Poll? {
        assert LastSeen(es) == LastSeen(before);
        match LastPoll(before)
        case None =>
        case Some(open) => assert Run(before).isOpen == open;
      }
    }
  }

  /** The time of the last packet before the poll that opened the latest session, or before the first poll. */
  function OpeningTime(es: seq<Event>): int {
    if es == [] then 0
    else
      var before, e := es[..|es| - 1], es[|es| - 1];
      var opens := LastPoll(before) == None || (LastPoll(before) == Some(false) && LastPoll(es) == Some(true));
      if e.Poll? && opens then LastSeen(es) else OpeningTime(before)
  }

  /** The times that the fields hold: of the opening, and of the closing unless the session is open. */
  lemma {:induction false} RunTimes(es: seq<Event>)
    requires |es| < U64 - 1 && LastPoll(es) != None
    ensures var s := Run(es);
            && s.openedAt == OpeningTime(es)
            && s.closedAt == if LastPoll(es) == Some(true) then 0 else ClosingTime(es)
  {
    var before, e := es[..|es| - 1], es[|es| - 1];
    RunCloses(es);
    RunCounts(before);
    if LastPoll(before) != None {
      RunTimes(before);
      assert Run(before).isOpen == (LastPoll(before) == Some(true));
    }
    if e.Poll? {
      assert LastSeen(es) == LastSeen(before);
      assert LastPoll(es) == Some(Active(Run(before).lastSeen, e.now, e.close));
      assert Run(es) == Updated(Run(before), e.now, e.close);
      match LastPoll(before)
      case None =>
      case Some(open) => assert Run(before).isOpen == open;
    } else {
      assert LastPoll(es) == LastPoll(before) && OpeningTime(es) == OpeningTime(before);
    }
  }

  /**
   A session overlaps the one before exactly when a poll finds the host active although it was closed
   and no packet has come since it was closed.
   */
  lemma OverlapExactly(es: seq<Event>, e: Event)
    requires |es| < U64 - 1
    ensures Overlaps(es, e)
            <==> e.Poll? && LastPoll(es) == Some(false) && LastSeen(es) < ClosingTime(es)
                 && Active(LastSeen(es), e.now, e.close)
  {
    var s, all := Run(es), es + [e];
    RunCounts(es);
    RunCloses(es);
    assert all[..|all| - 1] == es && Run(all) == Apply(s, e);
    match LastPoll(es)
    case None =>
    case Some(open) => assert s.isOpen == open;
  }

  /** A session never closes before it opened. */
  lemma ClosesAfterOpening(es: seq<Event>)
    requires Timed(es) && |es| < U64 - 1
    ensures var s := Run(es); s.number > 0 && !s.isOpen ==> s.openedAt <= s.closedAt
  {
    AlwaysInOrder(es);
  }

  // ----- Which polls keep sessions in order -----

  /** The close times of the polls, in order. */
  function Closes(es: seq<Event>): seq<nat> {
    if es == [] then []
    else
      var e := es[|es| - 1];
      Closes(es[..|es| - 1]) + if e.Poll? then [e.close] else []
  }

  predicate NonIncreasing(ks: seq<nat>) {
    forall i :: 0 <= i < |ks| - 1 ==> ks[i + 1] <= ks[i]
  }

  lemma {:induction false} NonIncreasingLast(ks: seq<nat>, i: nat)
    requires NonIncreasing(ks) && i < |ks|
    ensures ks[|ks| - 1] <= ks[i]
    decreases |ks| - i
  {
    if i < |ks| - 1 {
      assert ks[i + 1] <= ks[i];
      NonIncreasingLast(ks, i + 1);
    }
  }

  lemma {:induction false} CloseListed(es: seq<Event>, i: nat)
    requires i < |es| && es[i].Poll?
    ensures es[i].close in Closes(es)
  {
    if i < |es| - 1 {
      CloseListed(es[..|es| - 1], i);
    }
  }

  lemma {:induction false} ClosesSteady(es: seq<Event>)
    requires NonIncreasing(Closes(es))
    ensures Steady(es)
  {
    if es != [] {
      var before, e := es[..|es| - 1], es[|es| - 1];
      var ks := Closes(es);
      assert Closes(before) == ks[..|Closes(before)|];
      assert forall i :: 0 <= i < |Closes(before)| - 1 ==> ks[i + 1] <= ks[i];
      ClosesSteady(before);
      forall i | 0 <= i < |before| && es[i].Poll? && e.Poll?
        ensures e.close <= es[i].close
      {
        CloseListed(before, i);
        var x: nat :| x < |Closes(before)| && Closes(before)[x] == before[i].close;
        NonIncreasingLast(ks, x);
      }
      assert forall i, j :: 0 <= i < j < |es| && es[i].Poll? && es[j].Poll? && j < |es| - 1 ==>
          before[j].close <= before[i].close;
    }
  }

  /** Polls that never become more patient keep sessions in order. */
  lemma SteadyOrdered(es: seq<Event>)
    requires Timed(es) && Steady(es) && |es| < U64 - 2
    ensures Ordered(es)
  {
    forall n | 0 <= n < |es|
      ensures !Overlaps(es[..n], es[n])
    {
      var before, e := es[..n], es[n];
      var all := before + [e];
      assert all == es[..n + 1];
      AlwaysInOrder(before);
      ReopenedLater(before, e);
      assert all[..|all| - 1] == before && Run(all) == Apply(Run(before), e);
    }
  }

  /** A packet at 1, the polls before poll `i` at once, and the others when that one has run out. */
  function Witness(ks: seq<nat>, i: nat, n: nat): seq<Event>
    requires n <= |ks| && i < |ks|
  {
    if n == 0 then [Seen(1)]
    else Witness(ks, i, n - 1) + [Poll(if n - 1 < i then 1 else ks[i] + 2, ks[n - 1])]
  }

  lemma {:induction false} WitnessCloses(ks: seq<nat>, i: nat, n: nat)
    requires n <= |ks| && i < |ks|
    ensures Closes(Witness(ks, i, n)) == ks[..n] && |Witness(ks, i, n)| == n + 1
  {
    if n == 0 {
      assert [Seen(1)][..0] == [] && Closes([Seen(1)]) == Closes([Seen(1)][..0]) + [];
    } else {
      WitnessCloses(ks, i, n - 1);
      var es := Witness(ks, i, n);
      assert es[..|es| - 1] == Witness(ks, i, n - 1);
    }
  }

  lemma {:induction false} WitnessTimed(ks: seq<nat>, i: nat, n: nat)
    requires n <= |ks| && i < |ks|
    ensures var es := Witness(ks, i, n);
            && Timed(es) && |es| == n + 1
            && forall x :: 0 <= x < |es| ==> es[x].now <= (if n <= i then 1 else ks[i] + 2)
  {
    if n > 0 {
      WitnessTimed(ks, i, n - 1);
    }
  }

  /** Its prefixes are its shorter forms. */
  lemma {:induction false} WitnessPrefix(ks: seq<nat>, i: nat, n: nat, m: nat)
    requires m <= n <= |ks| && i < |ks|
    ensures |Witness(ks, i, n)| == n + 1 && Witness(ks, i, n)[..m + 1] == Witness(ks, i, m)
  {
    WitnessCloses(ks, i, n);
    if m < n {
      WitnessPrefix(ks, i, n - 1, m);
      WitnessCloses(ks, i, n - 1);
      assert Witness(ks, i, n)[..m + 1] == Witness(ks, i, n - 1)[..m + 1];
    } else {
      assert Witness(ks, i, n)[..n + 1] == Witness(ks, i, n);
    }
  }

  /** Up to poll `i` the session is open; that poll closes it. */
  lemma {:induction false} WitnessRuns(ks: seq<nat>, i: nat, n: nat)
    requires n <= i < |ks|
    ensures Run(Witness(ks, i, n)) == if n == 0 then Session(1, 0, 0, 0, false) else Session(1, 1, 1, 0, true)
  {
    if n == 0 {
      assert [Seen(1)][..0] == [] && Run([Seen(1)]) == Apply(Run([Seen(1)][..0]), Seen(1));
    } else {
      WitnessRuns(ks, i, n - 1);
      var es := Witness(ks, i, n);
      assert es[..|es| - 1] == Witness(ks, i, n - 1);
    }
  }

  lemma WitnessOverlaps(ks: seq<nat>, i: nat)
    requires i < |ks| - 1 && ks[i + 1] > ks[i]
    ensures var es := Witness(ks, i, |ks|); |es| > i + 2 && Overlaps(es[..i + 2], es[i + 2])
  {
    var a, b, c := Witness(ks, i, i), Witness(ks, i, i + 1), Witness(ks, i, i + 2);
    WitnessRuns(ks, i, i);
    assert b[..|b| - 1] == a && c[..|c| - 1] == b;
    WitnessCloses(ks, i, i + 1);
    WitnessCloses(ks, i, i + 2);
    assert Run(b) == Session(1, 1, 1, ks[i] + 2, false);
    assert Run(c) == Session(1, 2, 1, 0, true);
    WitnessPrefix(ks, i, |ks|, i + 1);
    WitnessPrefix(ks, i, |ks|, i + 2);
    var es := Witness(ks, i, |ks|);
    assert es[..i + 3][..i + 2] == es[..i + 2] && es[i + 2] == c[i + 2] && c == b + [c[i + 2]];
  }

  /**
   For every list of close times: all runs with a clock that never goes back whose polls have these close
   times keep their sessions in order, if and only if the list never increases.
   */
  lemma OrderedExactly(ks: seq<nat>)
    requires |ks| < U64 - 3
    ensures (forall es :: Timed(es) && Closes(es) == ks && |es| < U64 - 2 ==> Ordered(es)) <==> NonIncreasing(ks)
  {
    if NonIncreasing(ks) {
      forall es: seq<Event> | Timed(es) && Closes(es) == ks && |es| < U64 - 2
        ensures Ordered(es)
      {
        ClosesSteady(es);
        SteadyOrdered(es);
      }
    } else {
      var i :| 0 <= i < |ks| - 1 && ks[i + 1] > ks[i];
      var es := Witness(ks, i, |ks|);
      WitnessCloses(ks, i, |ks|);
      assert ks[..|ks|] == ks;
      WitnessTimed(ks, i, |ks|);
      WitnessOverlaps(ks, i);
      assert !Ordered(es);
    }
  }

  /** The fields as the code updates them. */
  class Host {
    var lastSeen: int
    var eventSeq: u64
    var openedMono: int
    var closedMono: int
    var isOpen: bool

    ghost function S(): Session
      reads this
    {
      Session(lastSeen, eventSeq, openedMono, closedMono, isOpen)
    }

    constructor ()
      ensures S() == NEW_SESSION
    {
      lastSeen, eventSeq, openedMono, closedMono, isOpen := 0, 0, 0, 0, false;
    }

    method EventUpdate(now: int, close: nat)
      modifies this
      ensures S() == Apply(old(S()), Poll(now, close))
    {
      var active := Active(lastSeen, now, close);
      if eventSeq == 0 {
        eventSeq := 1;
        openedMono := lastSeen;
        isOpen := active;
        closedMono := if active then 0 else now;
        return;
      }
      if active {
        if !isOpen {
          eventSeq := Add64(eventSeq, 1);
          isOpen := true;
          openedMono := lastSeen;
          closedMono := 0;
        }
      } else if isOpen {
        isOpen := false;
        closedMono := now;
      }
    }

    /** Any run of packets and polls ends in what the events say. */
    method Play(es: seq<Event>)
      requires S() == NEW_SESSION
      modifies this
      ensures S() == Run(es)
    {
      for i := 0 to |es|
        invariant S() == Run(es[..i])
      {
        assert es[..i + 1][..i] == es[..i];
        match es[i]
        case Seen(now) => lastSeen := now;
        case Poll(now, close) => EventUpdate(now, close);
      }
      assert es[..|es|] == es;
    }
  }
}
