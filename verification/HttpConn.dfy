/**
 One HTTP connection as a state machine (http.c): a request comes in, an answer is made up, and it goes
 out in whatever pieces the socket accepts.
 */
module HttpConn {
  import Numbers

  datatype Phase = RecvRequest | SendHeaderAndReply | SendHeader | SendReply | Done

  /** What a header says besides the length of the body. */
  datatype Meta = Meta(code: nat, text: string, date: string, server: string, mime: string, encoding: string, extra: string)

  /** An answer: what its header says, its body, and whether to leave out the body. */
  datatype Answer = Answer(meta: Meta, reply: string, headerOnly: bool)

  /** What the site answers to requests. */
  datatype Site = Site(answer: string -> Answer, tooLong: Answer)

  /** No answer is empty, and the complaint about long requests has a body that is sent. */
  ghost predicate ValidSite(s: Site) {
    && (forall r :: |s.answer(r).reply| > 0)
    && |s.tooLong.reply| > 0 && !s.tooLong.headerOnly
  }

  /**
   The fields of a connection. `wire` is all that the socket has accepted, `broken` whether the connection
   ended by an error, a closure or a timeout, and `pieces` what the request came in; only the model knows these.
   */
  datatype Conn = Conn(phase: Phase, request: string, header: string, reply: string, headerOnly: bool,
                       headerSent: nat, replySent: nat, totalSent: nat, wire: string, broken: bool,
                       pieces: seq<string>)

  const NEW_CONN: Conn := Conn(RecvRequest, "", "", "", false, 0, 0, 0, "", false, [])

  const MAX_REQUEST_LENGTH: nat := 4000

  const U32: nat := 0x1_0000_0000

  /** What happens to a socket that was polled: bytes received, or the result of a write. */
  datatype Io = Received(data: string) | RecvFailed | Wrote(result: int)

  function BeforeLength(m: Meta): string {
    "HTTP/1.1 " + Numbers.Printed(m.code, false) + " " + m.text + "\r\nDate: " + m.date + "\r\nServer: " + m.server
    + "\r\nVary: Accept-Encoding\r\nContent-Type: " + m.mime + "\r\n"
  }

  function AfterLength(m: Meta): string {
    "\r\nContent-Encoding: " + m.encoding + "\r\nX-Robots-Tag: noindex, noarchive\r\n" + m.extra + "\r\n"
  }

  /** The text of generate_header() for a body of `n` characters. */
  function Header(m: Meta, n: nat): (h: string)
    ensures h != ""
  {
    BeforeLength(m) + "Content-Length: " + Numbers.Printed(n, false) + AfterLength(m)
  }

  /** The callers of generate_header(): the header is made for the reply as it is. */
  function Answered(c: Conn, a: Answer): Conn {
    c.(header := Header(a.meta, |a.reply|), reply := a.reply, headerOnly := a.headerOnly)
  }

  predicate Complete(request: string) {
    |request| > 4 && request[|request| - 4..] == "\r\n\r\n"
  }

  function Broken(c: Conn): Conn {
    c.(phase := Done, broken := true)
  }

  /** poll_recv_request() */
  function PollRecv(s: Site, c: Conn, io: Io): Conn {
    if !io.Received? || io.data == "" then Broken(c)
    else
      var r, b := c.request + io.data, c.(pieces := c.pieces + [io.data]);
      if |r| > MAX_REQUEST_LENGTH then Answered(b, s.tooLong).(request := r, phase := SendHeader)
      else if Complete(r) then
        var d := Answered(b, s.answer(r));
        d.(request := "", phase := if d.headerOnly then SendHeader else SendHeaderAndReply)
      else b.(request := r)
  }

  /** What a connection offers to the socket when it is polled. */
  function Offered(c: Conn): string
    requires c.headerSent <= |c.header| && c.replySent <= |c.reply|
  {
    match c.phase
    case SendHeaderAndReply => c.header + c.reply
    case SendHeader => c.header[c.headerSent..]
    case SendReply => c.reply[c.replySent..]
    case _ => ""
  }

  function Add32(x: nat, y: nat): nat {
    (x + y) % U32
  }

  /** poll_send_header_and_reply(), with `n` bytes accepted */
  function SentBoth(c: Conn, n: nat): Conn {
    var d := c.(totalSent := Add32(c.totalSent, n), wire := c.wire + (c.header + c.reply)[..Least(n, |c.header + c.reply|)]);
    if n < |c.header| then d.(headerSent := n, phase := SendHeader)
    else
      var rest := n - |c.header|;
      if rest < |c.reply| then d.(headerSent := |c.header|, replySent := c.replySent + rest, phase := SendReply)
      else d.(headerSent := |c.header|, replySent := |c.reply|, phase := Done)
  }

  function Least(x: nat, y: nat): nat {
    if x < y then x else y
  }

  /** poll_send_header() */
  function SentHeader(c: Conn, n: nat): Conn
    requires c.headerSent + n <= |c.header|
  {
    var sent := c.headerSent + n;
    c.(headerSent := sent, totalSent := Add32(c.totalSent, n), wire := c.wire + c.header[c.headerSent..sent],
       phase := if sent < |c.header| then c.phase else if c.headerOnly then Done else SendReply)
  }

  /** poll_send_reply() */
  function SentReply(c: Conn, n: nat): Conn
    requires c.replySent + n <= |c.reply|
  {
    var sent := c.replySent + n;
    c.(replySent := sent, totalSent := Add32(c.totalSent, n), wire := c.wire + c.reply[c.replySent..sent],
       phase := if sent < |c.reply| then c.phase else Done)
  }

  /** All that is to be sent: the header alone for HEAD. */
  function Whole(c: Conn): string {
    if c.headerOnly then c.header else c.header + c.reply
  }

  ghost predicate Prefix(a: string, b: string) {
    |a| <= |b| && a == b[..|a|]
  }

  /** What holds of a connection at any time. */
  ghost predicate Valid(c: Conn) {
    && c.headerSent <= |c.header| && c.replySent <= |c.reply|
    && (c.replySent > 0 ==> c.headerSent == |c.header| && !c.headerOnly)
    && (c.header == "" ==> c.reply == "")
    && c.wire == c.header[..c.headerSent] + c.reply[..c.replySent]
    && c.totalSent == Add32(c.headerSent, c.replySent)
    && match c.phase
       case RecvRequest => c.headerSent == 0 && c.replySent == 0 && c.header == "" && c.reply == "" && !c.headerOnly
       case SendHeaderAndReply => !c.headerOnly && |c.reply| > 0 && |c.header| > 0 && c.headerSent == 0 && c.replySent == 0
       case SendHeader => c.headerSent < |c.header| && c.replySent == 0 && |c.reply| > 0
       case SendReply => c.headerSent == |c.header| && c.replySent < |c.reply| && !c.headerOnly
       case Done => c.broken || (c.wire == Whole(c) && c.header != "")
  }

  /** One poll of a connection that is not done; a write never takes more than it is offered. */
  function Poll(s: Site, c: Conn, io: Io): (d: Conn)
    requires Valid(c) && c.phase != Done
  {
    if c.phase == RecvRequest then PollRecv(s, c, io)
    else if !io.Wrote? || io.result < 1 then Broken(c)
    else
      var n := Least(io.result, |Offered(c)|);
      match c.phase
      case SendHeaderAndReply => SentBoth(c, n)
      case SendHeader => SentHeader(c, n)
      case SendReply => SentReply(c, n)
  }

  lemma Add32More(a: nat, b: nat, n: nat)
    ensures Add32(Add32(a, b), n) == Add32(a, b + n) == Add32(a + n, b)
    ensures Add32(a, b) == Add32(b, a)
  {
  }

  lemma WireIsPrefix(c: Conn)
    requires Valid(c)
    ensures Prefix(c.wire, Whole(c)) && c.totalSent == |c.wire| % U32
  {
  }

  lemma NewValid(s: Site)
    ensures Valid(NEW_CONN) && FromSite(s, NEW_CONN)
  {
  }

  lemma BrokenValid(s: Site, c: Conn)
    requires Valid(c) && FromSite(s, c)
    ensures Valid(Broken(c)) && FromSite(s, Broken(c))
  {
    hide Undecided, Concat, Header;
  }

  lemma RecvValid(s: Site, c: Conn, io: Io)
    requires ValidSite(s) && Valid(c) && c.phase == RecvRequest
    ensures Valid(PollRecv(s, c, io))
  {
    hide Header;
  }

  lemma BothValid(c: Conn, n: nat)
    requires Valid(c) && c.phase == SendHeaderAndReply && 1 <= n <= |c.header + c.reply|
    ensures Valid(SentBoth(c, n))
  {
  }

  lemma HeaderValid(c: Conn, n: nat)
    requires Valid(c) && c.phase == SendHeader && 1 <= n <= |c.header| - c.headerSent
    ensures Valid(SentHeader(c, n))
  {
    hide Add32;
    Add32More(c.headerSent, 0, n);
  }

  lemma ReplyValid(c: Conn, n: nat)
    requires Valid(c) && c.phase == SendReply && 1 <= n <= |c.reply| - c.replySent
    ensures Valid(SentReply(c, n))
  {
    hide Add32;
    Add32More(c.headerSent, c.replySent, n);
    var sent := c.replySent + n;
    assert c.reply[..c.replySent] + c.reply[c.replySent..sent] == c.reply[..sent];
    assert c.header[..c.headerSent] == c.header;
    assert c.wire + c.reply[c.replySent..sent] == c.header + c.reply[..sent];
    assert sent == |c.reply| ==> c.reply[..sent] == c.reply;
  }

  lemma PollValid(s: Site, c: Conn, io: Io)
    requires ValidSite(s) && Valid(c) && c.phase != Done
    ensures Valid(Poll(s, c, io))
  {
    hide PollRecv, SentBoth, SentHeader, SentReply;
    if c.phase == RecvRequest {
      RecvValid(s, c, io);
    } else if io.Wrote? && io.result >= 1 {
      var n := Least(io.result, |Offered(c)|);
      match c.phase
      case SendHeaderAndReply => BothValid(c, n);
      case SendHeader => HeaderValid(c, n);
      case SendReply => ReplyValid(c, n);
    }
  }

  // ----- Which answer -----

  function Concat(ps: seq<string>): string {
    if ps == [] then "" else Concat(ps[..|ps| - 1]) + ps[|ps| - 1]
  }

  /** A request ends with a blank line. */
  ghost predicate EndsBlank(r: string) {
    exists q :: q != "" && r == q + "\r\n\r\n"
  }

  /** What has come in is neither a whole request nor too long for one. */
  ghost predicate Undecided(r: string) {
    |r| <= 4000 && !EndsBlank(r)
  }

  /** The answer that belongs to what has come in, once that is decided. */
  function RightAnswer(s: Site, r: string): Answer {
    if |r| > 4000 then s.tooLong else s.answer(r)
  }

  lemma CompleteExactly(r: string)
    ensures Complete(r) <==> EndsBlank(r)
  {
    if Complete(r) {
      assert r == r[..|r| - 4] + "\r\n\r\n";
    }
  }

  /** The connection is sending the answer `a`. */
  predicate Sending(c: Conn, a: Answer) {
    c.header == Header(a.meta, |a.reply|) && c.reply == a.reply && c.headerOnly == a.headerOnly
  }

  ghost predicate UndecidedBefore(ps: seq<string>) {
    forall k :: 0 <= k < |ps| ==> Undecided(Concat(ps[..k]))
  }

  /** The connection answers what has come in as soon as that is decided, and not before. */
  ghost predicate FromSite(s: Site, c: Conn) {
    && UndecidedBefore(c.pieces)
    && if c.header == "" then
         Undecided(Concat(c.pieces)) && (c.phase == RecvRequest ==> c.request == Concat(c.pieces))
       else !Undecided(Concat(c.pieces)) && Sending(c, RightAnswer(s, Concat(c.pieces)))
  }

  /** Once an answer is chosen it stays, and nothing that was sent is taken back. */
  lemma PollKeeps(s: Site, c: Conn, io: Io)
    requires Valid(c) && c.phase != Done
    ensures var d := Poll(s, c, io);
            && Prefix(c.wire, d.wire)
            && (c.phase != RecvRequest ==>
                  && d.header == c.header && d.reply == c.reply && d.headerOnly == c.headerOnly && d.pieces == c.pieces
                  && d.phase != RecvRequest)
  {
  }

  lemma PollFromSite(s: Site, c: Conn, io: Io)
    requires Valid(c) && c.phase != Done && FromSite(s, c)
    ensures FromSite(s, Poll(s, c, io))
  {
    hide Header, Undecided, Concat, SentBoth, SentHeader, SentReply;
    PollKeeps(s, c, io);
    if c.phase == RecvRequest && io.Received? && io.data != "" {
      OneMorePiece(c.pieces, io.data);
      Deciding(c.request + io.data);
    }
  }

  lemma OneMorePiece(ps: seq<string>, p: string)
    requires UndecidedBefore(ps) && Undecided(Concat(ps))
    ensures UndecidedBefore(ps + [p]) && Concat(ps + [p]) == Concat(ps) + p
  {
    hide Undecided;
    var qs := ps + [p];
    assert qs[..|ps|] == ps;
    forall k | 0 <= k < |qs|
      ensures Undecided(Concat(qs[..k]))
    {
      assert qs[..k] == ps[..k];
      assert ps[..|ps|] == ps;
    }
  }

  lemma Deciding(r: string)
    ensures Undecided(r) <==> |r| <= MAX_REQUEST_LENGTH && !Complete(r)
  {
    CompleteExactly(r);
  }

  /** A connection polled again and again until it is done. */
  ghost function Polls(s: Site, ios: seq<Io>): (c: Conn)
    requires ValidSite(s)
    ensures Valid(c)
  {
    if ios == [] then NEW_CONN
    else
      var c := Polls(s, ios[..|ios| - 1]);
      PollsValid(s, c, ios[|ios| - 1]);
      if c.phase == Done then c else Poll(s, c, ios[|ios| - 1])
  }

  lemma PollsValid(s: Site, c: Conn, io: Io)
    requires ValidSite(s) && Valid(c)
    ensures c.phase != Done ==> Valid(Poll(s, c, io))
  {
    if c.phase != Done {
      PollValid(s, c, io);
    }
  }

  lemma {:induction false} PollsFromSite(s: Site, ios: seq<Io>)
    requires ValidSite(s)
    ensures FromSite(s, Polls(s, ios))
  {
    if ios != [] {
      var c := Polls(s, ios[..|ios| - 1]);
      PollsFromSite(s, ios[..|ios| - 1]);
      if c.phase != Done {
        PollFromSite(s, c, ios[|ios| - 1]);
      }
    }
  }

  /** All of an answer has been sent: a header, and then as many characters as its length says, or none for HEAD. */
  predicate Delivered(c: Conn, a: Answer) {
    var digits := Numbers.Printed(|a.reply|, false);
    var header := BeforeLength(a.meta) + "Content-Length: " + digits + AfterLength(a.meta);
    && c.wire == header + (if a.headerOnly then "" else a.reply)
    && (!a.headerOnly ==> Numbers.Parsed(digits) == |c.wire| - |header|)
  }

  /**
   What has been sent is a prefix of the right answer to what has come in, and a connection that was not broken
   ends with all of it.
   */
  lemma AnswerDelivered(s: Site, c: Conn)
    requires Valid(c) && FromSite(s, c)
    ensures Prefix(c.wire, Whole(c)) && c.totalSent == |c.wire| % U32
    ensures c.wire != "" ==> !Undecided(Concat(c.pieces)) && Sending(c, RightAnswer(s, Concat(c.pieces)))
    ensures c.phase == Done && !c.broken ==> Delivered(c, RightAnswer(s, Concat(c.pieces)))
  {
    hide Header, BeforeLength, AfterLength, Numbers.Printed, Numbers.Parsed, Undecided, Concat;
    WireIsPrefix(c);
    if c.phase == Done && !c.broken {
      var a := RightAnswer(s, Concat(c.pieces));
      Numbers.PrintedParses(|a.reply|, false);
      HeaderText(a.meta, |a.reply|);
    }
  }

  lemma HeaderText(m: Meta, n: nat)
    ensures Header(m, n) == BeforeLength(m) + "Content-Length: " + Numbers.Printed(n, false) + AfterLength(m)
  {
  }

  /**
   Whatever the socket does, what has been sent is a prefix of the answer to what has come in, and if the connection
   finished without being broken, it is all of it.
   */
  lemma SentIsPrefix(s: Site, ios: seq<Io>)
    requires ValidSite(s)
    ensures var c := Polls(s, ios);
            && Prefix(c.wire, Whole(c)) && c.totalSent == |c.wire| % U32
            && (c.wire != "" ==> Sending(c, RightAnswer(s, Concat(c.pieces))))
            && (c.phase == Done && !c.broken ==> Delivered(c, RightAnswer(s, Concat(c.pieces))))
  {
    hide Polls, Sending, Delivered, FromSite;
    PollsFromSite(s, ios);
    AnswerDelivered(s, Polls(s, ios));
  }

  function Receives(ps: seq<string>): (ios: seq<Io>)
    ensures |ios| == |ps|
  {
    seq(|ps|, i requires 0 <= i < |ps| => Received(ps[i]))
  }

  ghost predicate NoEmpty(ps: seq<string>) {
    forall i :: 0 <= i < |ps| ==> ps[i] != ""
  }

  lemma LastPoll(s: Site, ios: seq<Io>)
    requires ValidSite(s) && ios != []
    ensures var c := Polls(s, ios[..|ios| - 1]);
            Valid(c) && Polls(s, ios) == if c.phase == Done then c else Poll(s, c, ios[|ios| - 1])
  {
    hide Poll, Valid;
  }

  lemma CollectsOne(s: Site, c: Conn, p: string)
    requires Valid(c) && FromSite(s, c) && c.phase == RecvRequest && p != ""
    ensures var d := Poll(s, c, Received(p));
            && d.pieces == c.pieces + [p] && (d.phase == RecvRequest <==> Undecided(Concat(d.pieces)))
            && d.broken == c.broken
  {
    hide Undecided, Concat, Header, Complete;
    OneMorePiece(c.pieces, p);
    Deciding(c.request + p);
  }

  /** While nothing is decided the connection only collects. */
  lemma {:induction false} Collects(s: Site, ps: seq<string>)
    requires ValidSite(s) && NoEmpty(ps) && UndecidedBefore(ps)
    ensures var c := Polls(s, Receives(ps));
            && c.pieces == ps && FromSite(s, c) && (c.phase == RecvRequest <==> Undecided(Concat(ps)))
            && !c.broken
  {
    hide Undecided, Concat, Poll, Valid, FromSite, ValidSite, UndecidedBefore, NoEmpty, Receives;
    PollsFromSite(s, Receives(ps));
    if ps == [] {
      NothingYet();
      assert Polls(s, Receives(ps)) == NEW_CONN && Concat(ps) == "";
    } else {
      hide Polls;
      var n := |ps| - 1;
      PiecesFront(ps);
      Collects(s, ps[..n]);
      LastPoll(s, Receives(ps));
      CollectsOne(s, Polls(s, Receives(ps[..n])), ps[n]);
    }
  }

  lemma PiecesFront(ps: seq<string>)
    requires ps != [] && NoEmpty(ps) && UndecidedBefore(ps)
    ensures var n := |ps| - 1;
            && NoEmpty(ps[..n]) && UndecidedBefore(ps[..n]) && Undecided(Concat(ps[..n])) && ps[n] != ""
            && Receives(ps)[..n] == Receives(ps[..n]) && Receives(ps)[n] == Received(ps[n]) && ps[..n] + [ps[n]] == ps
  {
    hide Undecided, Concat;
    var n := |ps| - 1;
    forall k | 0 <= k < n
      ensures Undecided(Concat(ps[..n][..k]))
    {
      assert ps[..n][..k] == ps[..k];
    }
  }

  lemma NothingYet()
    ensures Undecided("") && Concat([]) == "" && NEW_CONN.pieces == [] && !NEW_CONN.broken
  {
  }

  /** What is decided stays decided. */
  lemma {:induction false} StaysDecided(s: Site, ios: seq<Io>, more: seq<Io>)
    requires ValidSite(s) && Polls(s, ios).phase != RecvRequest
    ensures var c, d := Polls(s, ios), Polls(s, ios + more);
            && d.phase != RecvRequest && d.pieces == c.pieces
            && d.header == c.header && d.reply == c.reply && d.headerOnly == c.headerOnly
  {
    hide Poll, Polls, Valid, ValidSite;
    if more == [] {
      assert ios + more == ios;
    } else {
      var n := |more| - 1;
      var all := ios + more;
      assert all[..|all| - 1] == ios + more[..n] && all[|all| - 1] == more[n];
      StaysDecided(s, ios, more[..n]);
      LastPoll(s, all);
      var c := Polls(s, ios + more[..n]);
      if c.phase != Done {
        PollKeeps(s, c, more[n]);
      }
    }
  }

  /**
   Whatever pieces a request comes in: as soon as what has come in ends with a blank line, or exceeds 4000
   characters, the connection sends the answer to all of it, or the complaint about its length, whatever
   happens then; and before that it does not answer.
   */
  lemma AnswersRequest(s: Site, ps: seq<string>, more: seq<Io>)
    requires ValidSite(s) && NoEmpty(ps) && UndecidedBefore(ps)
    ensures var r := Concat(ps);
            var c := Polls(s, Receives(ps) + more);
            var a := if |r| > 4000 then s.tooLong else s.answer(r);
            |r| > 4000 || EndsBlank(r) ==>
              c.header == Header(a.meta, |a.reply|) && c.reply == a.reply && c.headerOnly == a.headerOnly
    ensures |Concat(ps)| <= 4000 && !EndsBlank(Concat(ps)) ==>
              Polls(s, Receives(ps)).header == "" && Polls(s, Receives(ps)).wire == ""
  {
    hide Polls, EndsBlank, Concat;
    Collects(s, ps);
    if !Undecided(Concat(ps)) {
      StaysDecided(s, Receives(ps), more);
    }
  }

  // ----- That everything is sent -----

  /** The socket takes something at every poll. */
  ghost predicate Accepting(ws: seq<Io>) {
    forall i :: 0 <= i < |ws| ==> ws[i].Wrote? && ws[i].result >= 1
  }

  /** A poll that can write sends something, does not break the connection, and ends it only when all is sent. */
  lemma PollSends(s: Site, c: Conn, io: Io)
    requires Valid(c) && c.phase != Done && c.phase != RecvRequest && io.Wrote? && io.result >= 1
    ensures var d := Poll(s, c, io);
            && d.broken == c.broken && |d.wire| > |c.wire| && (d.phase == Done <==> |d.wire| == |Whole(c)|)
  {
    hide Add32;
  }

  /** A poll breaks the connection exactly if it has not received or written anything. */
  lemma BreaksExactly(s: Site, c: Conn, io: Io)
    requires Valid(c) && c.phase != Done && !c.broken
    ensures Poll(s, c, io).broken
            <==> if c.phase == RecvRequest then !io.Received? || io.data == "" else !io.Wrote? || io.result < 1
  {
    hide Header, Add32;
  }

  lemma {:induction false} SendsOn(s: Site, ios: seq<Io>, ws: seq<Io>)
    requires ValidSite(s) && Accepting(ws) && Polls(s, ios).phase != RecvRequest && !Polls(s, ios).broken
    ensures var c, d := Polls(s, ios), Polls(s, ios + ws);
            && !d.broken && d.phase != RecvRequest && Whole(d) == Whole(c)
            && (d.phase == Done || |d.wire| >= |c.wire| + |ws|)
  {
    hide Poll, Polls, Valid, ValidSite;
    StaysDecided(s, ios, ws);
    if ws == [] {
      assert ios + ws == ios;
    } else {
      var n := |ws| - 1;
      var all := ios + ws;
      assert all[..|all| - 1] == ios + ws[..n] && all[|all| - 1] == ws[n];
      SendsOn(s, ios, ws[..n]);
      LastPoll(s, all);
      var c := Polls(s, ios + ws[..n]);
      if c.phase != Done {
        PollSends(s, c, ws[n]);
      }
    }
  }

  /** A request whose bytes all arrive is answered in full if the socket keeps taking at least one byte at a time. */
  lemma EverythingArrives(s: Site, ps: seq<string>, ws: seq<Io>)
    requires ValidSite(s) && NoEmpty(ps) && UndecidedBefore(ps) && !Undecided(Concat(ps))
    requires Accepting(ws) && |ws| >= |Whole(Polls(s, Receives(ps)))|
    ensures var c := Polls(s, Receives(ps) + ws);
            c.phase == Done && !c.broken && Delivered(c, RightAnswer(s, Concat(ps)))
  {
    hide Polls, Undecided, Concat, Delivered, ValidSite, FromSite, RightAnswer;
    Collects(s, ps);
    SendsOn(s, Receives(ps), ws);
    StaysDecided(s, Receives(ps), ws);
    var c := Polls(s, Receives(ps) + ws);
    PollsFromSite(s, Receives(ps) + ws);
    AnswerDelivered(s, c);
    if c.phase != Done {
      Unfinished(c);
    }
  }

  /** Before the end something is left to be sent. */
  lemma Unfinished(c: Conn)
    requires Valid(c) && c.phase != Done && c.phase != RecvRequest
    ensures |c.wire| < |Whole(c)|
  {
  }
}
