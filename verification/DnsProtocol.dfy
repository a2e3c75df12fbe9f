/**
 The DNS parent and its child process (dns.c) as a transition system. The parent queues an
 address by putting it into `ipTree` and writing it to the request channel; the child keeps
 requests in a FIFO queue and writes one reply for each; the parent takes replies from the
 reply channel. Hosts come, go and get their names in between.
 */
module DnsProtocol {
  import opened Wrappers
  import opened Addrs
  import opened Collections

  /** A reply of the child; without a name if the lookup failed. */
  datatype Reply = Reply(addr: Addr, name: Option<string>)

  datatype World = World(
    ipTree: set<Addr>,
    hosts: map<Addr, Option<string>>,
    requests: seq<Addr>,
    queue: seq<Addr>,
    replies: seq<Reply>,
    // History: what was written, answered and consumed so far, and which writes failed.
    written: seq<Addr>,
    answers: seq<Answer>,
    consumed: seq<Addr>,
    lost: set<Addr>)

  /** What the child found out about an address: its whole name, or that the lookup failed. */
  datatype Answer = Answer(addr: Addr, lookup: Option<string>)

  datatype Event =
    | Rendered(a: Addr, writeOk: bool)
    | HostSeen(b: Addr)
    | Evicted(gone: set<Addr>)
    | HostsReset
    | ChildReads
    | ChildAnswers(name: Option<string>)
    | ParentPolls

  /** A reply has room for 255 characters of a name. */
  function Cut(name: Option<string>): (r: Option<string>)
    ensures r.Some? ==> |r.value| <= 255
  {
    match name
    case None => None
    case Some(s) => if |s| > 255 then Some(s[..255]) else name
  }

  /** The name that a host gets from a reply; a failed lookup is labelled with the kind of the address. */
  function Label(r: Reply): string {
    if r.name.Some? then r.name.value
    else if r.addr.family == IPv6 then
      if r.addr.bytes[0] == 0xfe && r.addr.bytes[1] & 0xc0 == 0x80 then "(link-local)"
      else if r.addr.bytes[0] == 0xfe && r.addr.bytes[1] & 0xc0 == 0xc0 then "(site-local)"
      else if r.addr.bytes[0] == 0xff then "(multicast)"
      else "(none)"
    else if r.addr.bytes[0] & 0xf0 == 0xe0 then "(multicast)"
    else "(none)"
  }

  /** dns_queue: an address that is already queued is left alone; a failed write is ignored. */
  function Queued(w: World, a: Addr, writeOk: bool): World {
    if a in w.ipTree then w
    else if writeOk then w.(ipTree := w.ipTree + {a}, requests := w.requests + [a], written := w.written + [a])
    else w.(ipTree := w.ipTree + {a}, lost := w.lost + {a})
  }

  datatype Outcome = Outcome(wasQueued: bool, inDb: bool, alreadyNamed: bool)

  predicate Continues(o: Outcome) {
    o.inDb && !o.alreadyNamed
  }

  /** dns_get_result and the body of the loop in dns_poll: one reply is taken, unqueued and applied. */
  function Consumed(w: World): (World, Outcome)
    requires |w.replies| > 0
  {
    var r := w.replies[0];
    var a := r.addr;
    var o := Outcome(a in w.ipTree, a in w.hosts, a in w.hosts && w.hosts[a].Some?);
    var w' := w.(ipTree := w.ipTree - {a}, replies := w.replies[1..], consumed := w.consumed + [a]);
    (if Continues(o) then w'.(hosts := w.hosts[a := Some(Label(r))]) else w', o)
  }

  /** dns_poll: replies are consumed until there are none, or one cannot be applied. */
  function Polled(w: World): World
    decreases |w.replies|
  {
    if |w.replies| == 0 then w
    else
      var (w', o) := Consumed(w);
      if Continues(o) then Polled(w') else w'
  }

  /** One step of the system; an event that is not possible changes nothing. */
  function Step(w: World, e: Event): World {
    match e
    case Rendered(a, ok) => if a in w.hosts && w.hosts[a].None? then Queued(w, a, ok) else w
    case HostSeen(a) => if a in w.hosts then w else w.(hosts := w.hosts[a := None])
    case Evicted(gone) => w.(hosts := w.hosts - gone)
    case HostsReset => w.(hosts := map[])
    case ChildReads => if w.requests == [] then w else w.(requests := w.requests[1..], queue := w.queue + [w.requests[0]])
    case ChildAnswers(name) =>
      if w.queue == [] then w
      else
        w.(queue := w.queue[1..], replies := w.replies + [Reply(w.queue[0], Cut(name))],
           answers := w.answers + [Answer(w.queue[0], name)])
    case ParentPolls => Polled(w)
  }

  function Run(w: World, es: seq<Event>): World {
    if es == [] then w else Step(Run(w, es[..|es| - 1]), es[|es| - 1])
  }

  /** At the start nothing is queued; hosts, with or without names, may have been imported. */
  predicate Initial(w: World) {
    && w.ipTree == {} && w.requests == [] && w.queue == [] && w.replies == []
    && w.written == [] && w.answers == [] && w.consumed == [] && w.lost == {}
  }

  function AddrsOf(rs: seq<Reply>): (s: seq<Addr>)
    ensures |s| == |rs| && forall i :: 0 <= i < |rs| ==> s[i] == rs[i].addr
  {
    seq(|rs|, i requires 0 <= i < |rs| => rs[i].addr)
  }

  /** The addresses on their way, oldest first. */
  function InFlight(w: World): seq<Addr> {
    AddrsOf(w.replies) + w.queue + w.requests
  }

  /** How the addresses on their way relate to what was written and consumed, to the tree and to the hosts. */
  ghost predicate Consistent(flight: seq<Addr>, written: seq<Addr>, consumed: seq<Addr>, ipTree: set<Addr>,
                             lost: set<Addr>, hosts: map<Addr, Option<string>>) {
    // Nothing written is lost, duplicated or reordered on the way.
    && written == consumed + flight
    && NoDup(flight)
    // The tree holds exactly what is on its way and what could not be written.
    && (forall a :: a in ipTree <==> a in flight || a in lost)
    && (forall a :: a in lost ==> a !in flight)
    // No host that has a name is queued.
    && (forall a :: a in ipTree && a in hosts ==> hosts[a].None?)
  }

  ghost predicate Invariant(w: World) {
    Consistent(InFlight(w), w.written, w.consumed, w.ipTree, w.lost, w.hosts)
  }

  lemma QueuedKeeps(w: World, a: Addr, ok: bool)
    requires Invariant(w) && a in w.hosts && w.hosts[a].None?
    ensures Invariant(Queued(w, a, ok))
  {
    var w' := Queued(w, a, ok);
    if a !in w.ipTree && ok {
      assert InFlight(w') == InFlight(w) + [a];
    } else if a !in w.ipTree {
      assert InFlight(w') == InFlight(w);
    }
  }

  lemma ConsumedKeeps(w: World)
    requires Invariant(w) && |w.replies| > 0
    ensures Invariant(Consumed(w).0)
    ensures Consumed(w).1.wasQueued && !Consumed(w).1.alreadyNamed
  {
    hide Label, Consistent;
    ConsumedFlight(w);
    var f := InFlight(w);
    var hosts := Consumed(w).0.hosts;
    TailConsistent(f, w.written, w.consumed, w.ipTree, w.lost, w.hosts, hosts);
  }

  /** Taking the oldest address out of flight and out of the tree. */
  lemma TailConsistent(f: seq<Addr>, written: seq<Addr>, consumed: seq<Addr>, ipTree: set<Addr>, lost: set<Addr>,
                       hosts: map<Addr, Option<string>>, hosts': map<Addr, Option<string>>)
    requires f != [] && Consistent(f, written, consumed, ipTree, lost, hosts)
    requires forall a :: a in hosts' && a != f[0] ==> a in hosts && hosts'[a] == hosts[a]
    ensures Consistent(f[1..], written, consumed + [f[0]], ipTree - {f[0]}, lost, hosts')
    ensures f[0] in ipTree && (f[0] in hosts ==> hosts[f[0]].None?)
  {
    var a, rest := f[0], f[1..];
    assert f == [a] + rest;
    assert consumed + f == (consumed + [a]) + rest;
    assert forall b :: b in f <==> b == a || b in rest;
  }

  lemma ConsumedFlight(w: World)
    requires |w.replies| > 0
    ensures var f := InFlight(w);
            f != [] && f[0] == w.replies[0].addr && InFlight(Consumed(w).0) == f[1..] && f == [f[0]] + f[1..]
  {
    hide Label;
    var w' := Consumed(w).0;
    assert AddrsOf(w'.replies) == AddrsOf(w.replies)[1..];
  }

  lemma {:induction false} PolledKeeps(w: World)
    requires Invariant(w)
    ensures Invariant(Polled(w))
    decreases |w.replies|
  {
    if |w.replies| > 0 {
      ConsumedKeeps(w);
      if Continues(Consumed(w).1) {
        PolledKeeps(Consumed(w).0);
      }
    }
  }

  lemma ChildKeeps(w: World, e: Event)
    requires Invariant(w) && (e.ChildReads? || e.ChildAnswers?)
    ensures Invariant(Step(w, e))
  {
    hide Consistent;
    var w' := Step(w, e);
    if e.ChildReads? && w.requests != [] {
      assert [w.requests[0]] + w.requests[1..] == w.requests;
    } else if e.ChildAnswers? && w.queue != [] {
      assert AddrsOf(w'.replies) == AddrsOf(w.replies) + [w.queue[0]];
      assert [w.queue[0]] + w.queue[1..] == w.queue;
    }
    assert InFlight(w') == InFlight(w);
  }

  lemma StepKeeps(w: World, e: Event)
    requires Invariant(w)
    ensures Invariant(Step(w, e))
  {
    match e
    case Rendered(a, ok) =>
      if a in w.hosts && w.hosts[a].None? {
        QueuedKeeps(w, a, ok);
      }
    case ChildReads => ChildKeeps(w, e);
    case ChildAnswers(_) => ChildKeeps(w, e);
    case ParentPolls => PolledKeeps(w);
    case _ => assert InFlight(Step(w, e)) == InFlight(w);
  }

  /** Every state of every interleaving satisfies the invariant. */
  lemma {:induction false} AlwaysInvariant(w: World, es: seq<Event>)
    requires Initial(w)
    ensures Invariant(Run(w, es))
  {
    if es == [] {
      assert InFlight(w) == [];
    } else {
      AlwaysInvariant(w, es[..|es| - 1]);
      StepKeeps(Run(w, es[..|es| - 1]), es[|es| - 1]);
    }
  }

  /**
   Whenever the parent takes a reply, the address is in the tree and the host, if it is still
   there, has no name yet: the two complaints of the code cannot come up.
   */
  lemma ComplaintsUnreachable(w: World, es: seq<Event>)
    requires Initial(w) && |Run(w, es).replies| > 0
    ensures var o := Consumed(Run(w, es)).1; o.wasQueued && !o.alreadyNamed
  {
    AlwaysInvariant(w, es);
    ConsumedKeeps(Run(w, es));
  }

  /** Replies come back in the order in which their requests were written, at most one for each. */
  lemma RepliesInOrder(w: World, es: seq<Event>)
    requires Initial(w)
    ensures var v := Run(w, es); v.consumed <= v.written && |v.consumed| + |InFlight(v)| == |v.written|
  {
    AlwaysInvariant(w, es);
  }

  /** When everything has drained, only the addresses whose write failed are still queued. */
  lemma DrainedTree(w: World, es: seq<Event>)
    requires Initial(w) && InFlight(Run(w, es)) == []
    ensures Run(w, es).ipTree == Run(w, es).lost
  {
    AlwaysInvariant(w, es);
  }

  lemma {:induction false} PolledLost(w: World, a: Addr)
    requires Invariant(w) && a in w.lost
    ensures var w' := Polled(w); a in w'.lost && a in w'.ipTree
    decreases |w.replies|
  {
    if |w.replies| > 0 {
      ConsumedKeeps(w);
      assert InFlight(w)[0] == w.replies[0].addr;
      if Continues(Consumed(w).1) {
        PolledLost(Consumed(w).0, a);
      }
    }
  }

  /**
   An address whose write failed stays in the tree for good: no later run gets it written, so
   its host never gets a name.
   */
  lemma {:induction false} LostForever(w: World, es: seq<Event>, a: Addr)
    requires Invariant(w) && a in w.lost
    ensures var v := Run(w, es);
            Invariant(v) && a in v.lost && a in v.ipTree && (a in v.hosts ==> v.hosts[a].None?)
  {
    if es != [] {
      var n := |es| - 1;
      LostForever(w, es[..n], a);
      StepKeeps(Run(w, es[..n]), es[n]);
      if es[n].ParentPolls? {
        PolledLost(Run(w, es[..n]), a);
      }
    }
  }

  // ----- Whose name -----

  /** What is said of an address that has no name, by the ranges of special addresses. */
  function Special(a: Addr): string {
    var b0, b1 := a.bytes[0] as nat, a.bytes[1] as nat;
    if a.family == IPv4 then (if 224 <= b0 <= 239 then "(multicast)" else "(none)")
    else if b0 == 254 && 128 <= b1 <= 191 then "(link-local)"
    else if b0 == 254 && 192 <= b1 then "(site-local)"
    else if b0 == 255 then "(multicast)"
    else "(none)"
  }

  /** The name that an answer gives: what was looked up, as far as a reply has room for it, or the kind of its address. */
  function NameBy(n: Answer): string {
    match n.lookup
    case Some(s) => s[..if |s| < 255 then |s| else 255]
    case None => Special(n.addr)
  }

  lemma ByteRanges(b: bv8)
    ensures b & 0xf0 == 0xe0 <==> 224 <= b as nat <= 239
    ensures b & 0xc0 == 0x80 <==> 128 <= b as nat <= 191
    ensures b & 0xc0 == 0xc0 <==> 192 <= b as nat
    ensures (b == 0xfe <==> b as nat == 254) && (b == 0xff <==> b as nat == 255)
  {
  }

  lemma LabelRight(n: Answer)
    ensures Label(Reply(n.addr, Cut(n.lookup))) == NameBy(n)
  {
    match n.lookup
    case Some(s) => assert |s| <= 255 ==> s[..|s|] == s;
    case None =>
      ByteRanges(n.addr.bytes[0]);
      ByteRanges(n.addr.bytes[1]);
  }

  /** The answers are to the requests in order; those whose replies have been consumed come first, then those on their way. */
  ghost predicate Answered(w: World) {
    && |w.answers| == |w.consumed| + |w.replies|
    && (forall i :: 0 <= i < |w.consumed| ==> w.answers[i].addr == w.consumed[i])
    && (forall i :: 0 <= i < |w.replies| ==> ReplyTo(w.replies[i], w.answers[|w.consumed| + i]))
  }

  predicate ReplyTo(r: Reply, n: Answer) {
    r == Reply(n.addr, Cut(n.lookup))
  }

  lemma ConsumedAnswered(w: World)
    requires Answered(w) && |w.replies| > 0
    ensures Answered(Consumed(w).0) && ReplyTo(w.replies[0], w.answers[|w.consumed|])
  {
    hide Label, Cut;
    var v := Consumed(w).0;
    assert ReplyTo(w.replies[0], w.answers[|w.consumed|]);
    forall i | 0 <= i < |v.replies|
      ensures ReplyTo(v.replies[i], v.answers[|v.consumed| + i])
    {
      assert ReplyTo(w.replies[i + 1], w.answers[|w.consumed| + (i + 1)]);
    }
  }

  lemma {:induction false} PolledAnswered(w: World)
    requires Answered(w)
    ensures Answered(Polled(w))
    decreases |w.replies|
  {
    if |w.replies| > 0 {
      hide Answered, Consumed;
      ConsumedAnswered(w);
      ConsumedLess(w);
      if Continues(Consumed(w).1) {
        PolledAnswered(Consumed(w).0);
      }
    }
  }

  lemma ConsumedLess(w: World)
    requires |w.replies| > 0
    ensures var v := Consumed(w).0;
            |v.replies| == |w.replies| - 1 && |v.consumed| == |w.consumed| + 1 && v.answers == w.answers
  {
    hide Label;
  }

  lemma {:induction false} AlwaysAnswered(w: World, es: seq<Event>)
    requires Initial(w)
    ensures Answered(Run(w, es))
  {
    if es != [] {
      hide Step, Answered;
      AlwaysAnswered(w, es[..|es| - 1]);
      StepAnswered(Run(w, es[..|es| - 1]), es[|es| - 1]);
    }
  }

  lemma StepAnswered(w: World, e: Event)
    requires Answered(w)
    ensures Answered(Step(w, e))
  {
    hide Cut, Label, Polled;
    match e
    case ParentPolls => PolledAnswered(w);
    case ChildAnswers(name) =>
      var v := Step(w, e);
      forall i | 0 <= i < |v.replies|
        ensures ReplyTo(v.replies[i], v.answers[|v.consumed| + i])
      {
        if i < |w.replies| {
          assert ReplyTo(w.replies[i], w.answers[|w.consumed| + i]);
        }
      }
    case _ =>
  }

  /** The name that host `a` has after a poll that consumed the answers from number `from` up to `to`. */
  ghost predicate NamedBy(answers: seq<Answer>, from: nat, to: nat, a: Addr, before: Option<string>, after: Option<string>)
    requires from <= to <= |answers|
  {
    || (after == before && forall i :: from <= i < to ==> answers[i].addr != a)
    || exists i :: from <= i < to && answers[i].addr == a && after == Some(NameBy(answers[i]))
  }

  ghost predicate NamesGiven(w: World, v: World) {
    && v.answers == w.answers && |w.consumed| <= |v.consumed| <= |w.answers|
    && v.hosts.Keys == w.hosts.Keys
    && forall a :: a in w.hosts ==>
         NamedBy(w.answers, |w.consumed|, |v.consumed|, a, w.hosts[a], v.hosts[a])
  }

  lemma ConsumedNames(w: World)
    requires Invariant(w) && Answered(w) && |w.replies| > 0
    ensures NamesGiven(w, Consumed(w).0)
  {
    hide Label, Cut, NameBy;
    var n, v := w.answers[|w.consumed|], Consumed(w).0;
    assert ReplyTo(w.replies[0], n);
    ConsumedKeeps(w);
    LabelRight(n);
    forall a | a in w.hosts
      ensures NamedBy(w.answers, |w.consumed|, |v.consumed|, a, w.hosts[a], v.hosts[a])
    {
      if a == n.addr {
        assert v.hosts[a] == Some(NameBy(w.answers[|w.consumed|]));
      }
    }
  }

  /** Names given first stay: a host that has one is not queued. */
  lemma NamesTwice(w: World, v: World, u: World)
    requires NamesGiven(w, v) && NamesGiven(v, u)
    requires forall i :: |v.consumed| <= i < |u.consumed| ==> w.answers[i].addr in v.hosts ==> v.hosts[w.answers[i].addr].None?
    ensures NamesGiven(w, u)
  {
    hide NameBy;
    forall a | a in w.hosts
      ensures NamedBy(w.answers, |w.consumed|, |u.consumed|, a, w.hosts[a], u.hosts[a])
    {
      assert NamedBy(w.answers, |w.consumed|, |v.consumed|, a, w.hosts[a], v.hosts[a]);
      assert NamedBy(v.answers, |v.consumed|, |u.consumed|, a, v.hosts[a], u.hosts[a]);
    }
  }

  /** The hosts that a poll still has answers for have no names yet. */
  lemma UnnamedAhead(w: World, i: nat)
    requires Invariant(w) && Answered(w) && |w.consumed| <= i < |w.answers| && w.answers[i].addr in w.hosts
    ensures w.hosts[w.answers[i].addr].None?
  {
    hide Cut;
    var j := i - |w.consumed|;
    assert ReplyTo(w.replies[j], w.answers[|w.consumed| + j]);
    assert InFlight(w)[j] == w.replies[j].addr;
  }

  lemma {:induction false} PolledNames(w: World)
    requires Invariant(w) && Answered(w)
    ensures NamesGiven(w, Polled(w))
    decreases |w.replies|
  {
    hide Consumed, NameBy, NamedBy, Invariant, Answered;
    if |w.replies| == 0 {
      NoNames(w);
    } else {
      var v := Consumed(w).0;
      ConsumedNames(w);
      ConsumedKeeps(w);
      ConsumedAnswered(w);
      ConsumedLess(w);
      if Continues(Consumed(w).1) {
        PolledNames(v);
        forall i | |v.consumed| <= i < |v.answers| && v.answers[i].addr in v.hosts
          ensures v.hosts[v.answers[i].addr].None?
        {
          UnnamedAhead(v, i);
        }
        NamesTwice(w, v, Polled(v));
      }
    }
  }

  lemma NoNames(w: World)
    requires Answered(w)
    ensures NamesGiven(w, w)
  {
  }

  /**
   In every run, a poll gives each host that is in the database the name that the answer to its own request
   says, if it consumes that answer, and leaves the name of every other host alone. It consumes all answers
   there are, unless it meets one for a host that has gone.
   */
  lemma PollNames(w: World, es: seq<Event>)
    requires Initial(w)
    ensures var v := Run(w, es);
            var u := Run(w, es + [ParentPolls]);
            && NamesGiven(v, u)
            && u.consumed <= u.written && |u.consumed| <= |u.answers|
            && (forall i :: 0 <= i < |u.consumed| ==> u.answers[i].addr == u.consumed[i])
            && (u.replies == [] || (u.consumed != [] && u.consumed[|u.consumed| - 1] !in u.hosts))
  {
    hide Polled;
    var all := es + [ParentPolls];
    assert all[..|all| - 1] == es;
    AlwaysInvariant(w, es);
    AlwaysAnswered(w, es);
    PolledNames(Run(w, es));
    PolledStops(Run(w, es));
    AlwaysInvariant(w, all);
    AlwaysAnswered(w, all);
  }

  /** A poll takes all replies there are, unless it meets one for a host that has gone. */
  lemma {:induction false} PolledStops(w: World)
    requires Invariant(w)
    ensures var u := Polled(w);
            u.replies == [] || (u.consumed != [] && u.consumed[|u.consumed| - 1] !in u.hosts)
    decreases |w.replies|
  {
    if |w.replies| > 0 {
      hide Label, Invariant;
      ConsumedKeeps(w);
      if Continues(Consumed(w).1) {
        PolledStops(Consumed(w).0);
      }
    }
  }

  /** Nothing else gives a name to a host: the others keep theirs, go, or come without one. */
  lemma OtherSteps(w: World, e: Event, a: Addr)
    requires !e.ParentPolls? && a in Step(w, e).hosts && Step(w, e).hosts[a].Some?
    ensures a in w.hosts && w.hosts[a] == Step(w, e).hosts[a]
  {
  }

  // ----- How long names are -----

  /** No name is longer than an export can hold. */
  ghost predicate ShortNames(w: World) {
    && (forall a :: a in w.hosts && w.hosts[a].Some? ==> |w.hosts[a].value| <= 255)
    && (forall i :: 0 <= i < |w.replies| && w.replies[i].name.Some? ==> |w.replies[i].name.value| <= 255)
  }

  lemma LabelShort(r: Reply)
    requires r.name.Some? ==> |r.name.value| <= 255
    ensures |Label(r)| <= 255
  {
  }

  lemma {:induction false} PolledShort(w: World)
    requires ShortNames(w)
    ensures ShortNames(Polled(w))
    decreases |w.replies|
  {
    if |w.replies| > 0 {
      hide Label;
      LabelShort(w.replies[0]);
      var v := Consumed(w).0;
      assert forall i :: 0 <= i < |v.replies| ==> v.replies[i] == w.replies[i + 1];
      if Continues(Consumed(w).1) {
        PolledShort(v);
      }
    }
  }

  /** Names that come in with an import or from the child never grow longer than 255 characters. */
  lemma {:induction false} AlwaysShort(w: World, es: seq<Event>)
    requires ShortNames(w)
    ensures ShortNames(Run(w, es))
  {
    if es != [] {
      AlwaysShort(w, es[..|es| - 1]);
      var v, e := Run(w, es[..|es| - 1]), es[|es| - 1];
      if e.ParentPolls? {
        PolledShort(v);
      }
    }
  }
}
