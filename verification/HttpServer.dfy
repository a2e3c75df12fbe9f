/** The connections of the web server over turns of the main loop (http.c, darkstat.c). */
module HttpServer {
  import opened HttpConn
  import opened Collections

  /** Whether a poll counts as activity: only a reception that brings nothing does not. */
  predicate Active(c: Conn, io: Io) {
    c.phase == RecvRequest ==> io.Received? && io.data != ""
  }

  /** The connection record, updated in place by each poll. */
  class Connection {
    var phase: Phase
    var request: string
    var header: string
    var reply: string
    var headerOnly: bool
    var headerSent: nat
    var replySent: nat
    var totalSent: nat
    var lastActive: int
    ghost var wire: string
    ghost var broken: bool
    ghost var pieces: seq<string>

    ghost function C(): Conn
      reads this
    {
      Conn(phase, request, header, reply, headerOnly, headerSent, replySent, totalSent, wire, broken, pieces)
    }

    constructor (now: int)
      ensures C() == NEW_CONN && lastActive == now
    {
      phase, request, header, reply, headerOnly := RecvRequest, "", "", "", false;
      headerSent, replySent, totalSent, lastActive := 0, 0, 0, now;
      wire, broken, pieces := "", false, [];
    }

    method Break()
      modifies this`phase, this`broken
      ensures C() == Broken(old(C()))
    {
      phase, broken := Done, true;
    }

    method Answer(a: HttpConn.Answer)
      modifies this`header, this`reply, this`headerOnly
      ensures C() == Answered(old(C()), a)
    {
      hide Header;
      reply := a.reply;
      header := Header(a.meta, |reply|);
      headerOnly := a.headerOnly;
    }

    method PollRecvRequest(s: Site, io: Io, now: int)
      requires phase == RecvRequest
      modifies this
      ensures C() == PollRecv(s, old(C()), io)
      ensures lastActive == if io.Received? && io.data != "" then now else old(lastActive)
    {
      hide Header;
      if !io.Received? || io.data == "" {
        Break();
        return;
      }
      lastActive := now;
      request := request + io.data;
      pieces := pieces + [io.data];
      if |request| > MAX_REQUEST_LENGTH {
        Answer(s.tooLong);
        phase := SendHeader;
        return;
      }
      if Complete(request) {
        Answer(s.answer(request));
        phase := if headerOnly then SendHeader else SendHeaderAndReply;
        request := "";
      }
    }

    /** poll_send_header_and_reply() */
    method PollSendHeaderAndReply(io: Io, now: int)
      modifies this
      ensures C() == if !io.Wrote? || io.result < 1 then Broken(old(C()))
                     else SentBoth(old(C()), Least(io.result, |old(header) + old(reply)|))
      ensures lastActive == now
    {
      hide Add32;
      lastActive := now;
      if !io.Wrote? || io.result < 1 {
        Break();
        return;
      }
      var sent := Least(io.result, |header| + |reply|);
      wire := wire + (header + reply)[..sent];
      totalSent := Add32(totalSent, sent);
      if sent < |header| {
        headerSent := sent;
        phase := SendHeader;
        return;
      }
      headerSent := |header|;
      sent := sent - |header|;
      if sent < |reply| {
        replySent := replySent + sent;
        phase := SendReply;
        return;
      }
      replySent := |reply|;
      phase := Done;
    }

    method PollSendHeader(io: Io, now: int)
      requires headerSent <= |header|
      modifies this
      ensures C() == if !io.Wrote? || io.result < 1 then Broken(old(C()))
                     else SentHeader(old(C()), Least(io.result, |old(header)[old(headerSent)..]|))
      ensures lastActive == now
    {
      hide Add32;
      lastActive := now;
      if !io.Wrote? || io.result < 1 {
        Break();
        return;
      }
      var sent := Least(io.result, |header| - headerSent);
      wire := wire + header[headerSent..headerSent + sent];
      headerSent := headerSent + sent;
      totalSent := Add32(totalSent, sent);
      if headerSent == |header| {
        phase := if headerOnly then Done else SendReply;
      }
    }

    method PollSendReply(io: Io, now: int)
      requires replySent <= |reply|
      modifies this
      ensures C() == if !io.Wrote? || io.result < 1 then Broken(old(C()))
                     else SentReply(old(C()), Least(io.result, |old(reply)[old(replySent)..]|))
      ensures lastActive == now
    {
      hide Add32;
      lastActive := now;
      if !io.Wrote? || io.result < 1 {
        Break();
        return;
      }
      var sent := Least(io.result, |reply| - replySent);
      wire := wire + reply[replySent..replySent + sent];
      replySent := replySent + sent;
      totalSent := Add32(totalSent, sent);
      if replySent == |reply| {
        phase := Done;
      }
    }

    /** The dispatch of http_poll(), which exits on a connection that is done. */
    method Dispatch(s: Site, io: Io, now: int)
      requires Valid(C()) && phase != Done
      modifies this
      ensures C() == Poll(s, old(C()), io)
      ensures lastActive == if Active(old(C()), io) then now else old(lastActive)
    {
      hide PollRecv, SentBoth, SentHeader, SentReply;
      match phase
      case RecvRequest => PollRecvRequest(s, io, now);
      case SendHeaderAndReply => PollSendHeaderAndReply(io, now);
      case SendHeader => PollSendHeader(io, now);
      case SendReply => PollSendReply(io, now);
      case Done => assert false;
    }
  }

  /** What one turn of the main loop meets. */
  datatype Turn = Turn(now: int, interrupted: bool, accepted: nat, ready: nat -> bool, io: nat -> Io)

  const IDLE_TIME: int := 60

  /** Those of the first `n` connections that stay, in order. */
  ghost function Kept(cs: seq<Connection>, stay: seq<bool>, n: nat): seq<Connection>
    requires n <= |cs| == |stay|
  {
    if n == 0 then [] else Kept(cs, stay, n - 1) + if stay[n - 1] then [cs[n - 1]] else []
  }

  ghost predicate Stayed(cs: seq<Connection>, stay: seq<bool>, n: nat, c: Connection)
    requires n <= |cs| == |stay|
  {
    exists i :: 0 <= i < n && c == cs[i] && stay[i]
  }

  /** They are different connections if all are, and each is one that stays. */
  lemma {:induction false} KeptMembers(cs: seq<Connection>, stay: seq<bool>, n: nat)
    requires n <= |cs| == |stay| && NoDup(cs)
    ensures forall c :: c in Kept(cs, stay, n) ==> Stayed(cs, stay, n, c)
    ensures NoDup(Kept(cs, stay, n))
  {
    if n > 0 {
      KeptMembers(cs, stay, n - 1);
      forall c | c in Kept(cs, stay, n)
        ensures Stayed(cs, stay, n, c)
      {
        if c in Kept(cs, stay, n - 1) {
          var i :| 0 <= i < n - 1 && c == cs[i] && stay[i];
        } else {
          assert c == cs[n - 1];
        }
      }
      assert !Stayed(cs, stay, n - 1, cs[n - 1]);
    }
  }

  class Server {
    const site: Site
    var conns: seq<Connection>

    ghost predicate Sound()
      reads this, conns
    {
      && NoDup(conns)
      && (forall i :: 0 <= i < |conns| ==> Valid(conns[i].C()) && FromSite(site, conns[i].C()))
    }

    ghost predicate NoneDone()
      reads this, conns
    {
      forall i :: 0 <= i < |conns| ==> conns[i].phase != Done
    }

    constructor (site: Site)
      ensures Sound() && conns == [] && this.site == site
    {
      this.site, conns := site, [];
    }

    /** Which of the connections are neither done nor idle. */
    ghost function Staying(now: int): (stay: seq<bool>)
      reads this, conns
      ensures |stay| == |conns|
    {
      seq(|conns|, i requires 0 <= i < |conns| reads this, conns =>
        conns[i].phase != Done && now - conns[i].lastActive < IDLE_TIME)
    }

    /** The loop of http_fd_set(): what is left of the list. */
    method Survivors(now: int) returns (kept: seq<Connection>)
      requires Sound()
      modifies conns
      ensures Sound() && kept == Kept(conns, old(Staying(now)), |conns|)
      ensures forall i :: 0 <= i < |conns| && old(Staying(now))[i] ==>
                conns[i].phase != Done && conns[i].C() == old(conns[i].C()) && conns[i].lastActive == old(conns[i].lastActive)
    {
      hide Valid, FromSite;
      kept := [];
      ghost var stay := Staying(now);
      for i := 0 to |conns|
        invariant Sound() && kept == Kept(conns, stay, i)
        invariant forall j :: i <= j < |conns| ==>
          conns[j].C() == old(conns[j].C()) && conns[j].lastActive == old(conns[j].lastActive)
        invariant forall j :: 0 <= j < i && stay[j] ==>
          conns[j].phase != Done && conns[j].C() == old(conns[j].C()) && conns[j].lastActive == old(conns[j].lastActive)
      {
        ExpireOne(i, now);
        if conns[i].phase != Done {
          kept := kept + [conns[i]];
        }
      }
    }

    /** http_fd_set(): times out idle connections and removes those that are done. */
    method FdSet(now: int)
      requires Sound()
      modifies this, conns
      ensures Sound() && NoneDone() && conns == Kept(old(conns), old(Staying(now)), |old(conns)|)
      ensures forall i :: 0 <= i < |conns| ==> conns[i] in old(conns)
      ensures forall i :: 0 <= i < old(|conns|) && old(Staying(now))[i] ==>
                old(conns)[i].C() == old(conns[i].C()) && old(conns)[i].lastActive == old(conns[i].lastActive)
    {
      hide Valid, FromSite, Staying;
      ghost var stay := Staying(now);
      var kept := Survivors(now);
      KeptMembers(conns, stay, |conns|);
      forall c | c in kept
        ensures c in conns && Valid(c.C()) && FromSite(site, c.C()) && c.phase != Done
      {
        assert Stayed(conns, stay, |conns|, c);
      }
      conns := kept;
    }

    /** Times out one connection if it is idle. */
    method ExpireOne(i: nat, now: int)
      requires Sound() && i < |conns|
      modifies conns[i]
      ensures Sound() && (conns[i].phase != Done <==> old(conns[i].phase) != Done && now - old(conns[i].lastActive) < IDLE_TIME)
      ensures conns[i].phase != Done ==> conns[i].C() == old(conns[i].C())
      ensures conns[i].lastActive == old(conns[i].lastActive)
    {
      hide Valid, FromSite;
      var c := conns[i];
      if now - c.lastActive >= IDLE_TIME {
        BrokenValid(site, c.C());
        c.Break();
      }
    }

    /** accept_connection() */
    method Accept(now: int)
      requires Sound() && NoneDone()
      modifies this
      ensures Sound() && NoneDone() && |conns| == old(|conns|) + 1 && conns[1..] == old(conns) && fresh(conns[0])
      ensures conns[0].C() == NEW_CONN && conns[0].lastActive == now
    {
      hide Valid, FromSite;
      NewValid(site);
      var c := new Connection(now);
      conns := [c] + conns;
    }

    method AcceptAll(n: nat, now: int)
      requires Sound() && NoneDone()
      modifies this
      ensures Sound() && NoneDone() && |conns| == old(|conns|) + n && conns[n..] == old(conns)
      ensures forall i :: 0 <= i < n ==> fresh(conns[i]) && conns[i].C() == NEW_CONN && conns[i].lastActive == now
    {
      hide Valid, FromSite;
      for k := 0 to n
        invariant Sound() && NoneDone() && |conns| == old(|conns|) + k && conns[k..] == old(conns)
        invariant forall i :: 0 <= i < k ==> fresh(conns[i]) && conns[i].C() == NEW_CONN && conns[i].lastActive == now
      {
        ghost var before := conns;
        Accept(now);
        assert conns[1..][k..] == conns[k + 1..];
        assert forall i :: 1 <= i < k + 1 ==> conns[i] == before[i - 1];
      }
    }

    /** What serving makes of a connection at place `i` of the list. */
    ghost function PollIf(c: Connection, turn: Turn, i: nat): Conn
      requires Valid(c.C()) && c.phase != Done
      reads c
    {
      if turn.ready(i) then Poll(site, c.C(), turn.io(i)) else c.C()
    }

    ghost function ActiveIf(c: Connection, turn: Turn, i: nat): int
      reads c
    {
      if turn.ready(i) && Active(c.C(), turn.io(i)) then turn.now else c.lastActive
    }

    /** The loop of http_poll(): every connection that select() found ready is served once. */
    method ServeAll(turn: Turn)
      requires ValidSite(site) && Sound() && NoneDone()
      modifies conns
      ensures Sound()
      ensures forall i :: 0 <= i < |conns| ==>
                conns[i].C() == old(PollIf(conns[i], turn, i)) && conns[i].lastActive == old(ActiveIf(conns[i], turn, i))
    {
      hide Valid, FromSite, Poll;
      for i := 0 to |conns|
        invariant Sound()
        invariant forall j :: 0 <= j < i ==>
          conns[j].C() == old(PollIf(conns[j], turn, j)) && conns[j].lastActive == old(ActiveIf(conns[j], turn, j))
        invariant forall j :: i <= j < |conns| ==>
          conns[j].C() == old(conns[j].C()) && conns[j].lastActive == old(conns[j].lastActive)
      {
        assert conns[i].phase == conns[i].C().phase != Done;
        if turn.ready(i) {
          PollValid(site, conns[i].C(), turn.io(i));
          PollFromSite(site, conns[i].C(), turn.io(i));
          conns[i].Dispatch(site, turn.io(i), turn.now);
        }
      }
    }

    /** http_poll() */
    method PollAll(turn: Turn)
      requires ValidSite(site) && Sound() && NoneDone()
      modifies this, conns
      ensures Sound() && |conns| == turn.accepted + old(|conns|) && conns[turn.accepted..] == old(conns)
      ensures forall i :: 0 <= i < |conns| ==> conns[i] in old(conns) || fresh(conns[i])
      ensures forall i :: 0 <= i < old(|conns|) ==>
                && old(conns)[i].C() == old(PollIf(conns[i], turn, turn.accepted + i))
                && old(conns)[i].lastActive == old(ActiveIf(conns[i], turn, turn.accepted + i))
      ensures forall i :: 0 <= i < turn.accepted ==>
                conns[i].C() == if turn.ready(i) then Poll(site, NEW_CONN, turn.io(i)) else NEW_CONN
    {
      hide Valid, FromSite, Poll;
      AcceptAll(turn.accepted, turn.now);
      assert forall i :: 0 <= i < old(|conns|) ==> conns[turn.accepted + i] == old(conns)[i];
      ServeAll(turn);
      assert forall i :: 0 <= i < old(|conns|) ==> conns[turn.accepted + i] == old(conns)[i];
    }

    /** The main loop, as far as it concerns the web server. */
    method MainLoop(turns: seq<Turn>)
      requires ValidSite(site) && Sound()
      modifies this, conns
      ensures Sound()
    {
      for k := 0 to |turns|
        invariant Sound() && forall i :: 0 <= i < |conns| ==> conns[i] in old(conns) || fresh(conns[i])
      {
        FdSet(turns[k].now);
        if !turns[k].interrupted {
          PollAll(turns[k]);
        }
      }
    }
  }
}
