/**
 The HTTP client against a peer of any kind, which may send whatever segments it likes: the
 pieces of the request under any sequence of timer ticks and arrivals.
 */
module WebPeer {
  import opened Bytes
  import opened Wrappers
  import opened UipOpt
  import opened Tcp
  import opened TcpNet
  import opened WebClient
  import opened WebRequest

  /** The client on its engine, with what the two have sent. */
  datatype Talk = Talk(
    conn: Conn,
    web: Client,
    sent: seq<byte>,      // put in flight for the first time, in order
    wire: set<Segment>)   // every packet so far

  /** One invocation of the engine, and what the client makes of the response in it. */
  datatype Turn = Turn(i: Invocation, parsed: Parsed)

  predicate TalkStep(t: Talk, turn: Turn, request: seq<byte>, t': Talk) {
    && ConnInv(t.conn) && turn.i.reply.Valid() && t.web.ptr + t.web.left < 0x1_0000
    && var o := Invoked(t.conn, turn.i);
    && Reacts(t.web, o, turn.parsed, request, t'.web, turn.i.reply)
    && t' == Talk(o.conn, t'.web, t.sent + NewlySent(t.conn, o), Sent(t.wire, o.out))
  }

  /** The connection has been asked for, and the request is due. */
  predicate Asked(t: Talk, iss: u32, request: seq<byte>) {
    && ConnInv(t.conn) && t.conn.state == SynSent && t.conn.sndNxt == iss
    && t.web.ptr == 0 && t.web.left == |request| && t.sent == []
  }

  predicate TalkRun(states: seq<Talk>, turns: seq<Turn>, iss: u32, request: seq<byte>) {
    && |states| == |turns| + 1 && Asked(states[0], iss, request) && states[0].wire == {}
    && forall k :: 0 <= k < |turns| ==> TalkStep(states[k], turns[k], request, states[k + 1])
  }

  /** No segment changes the size of the piece in flight. */
  predicate SizesFit(states: seq<Talk>, turns: seq<Turn>)
    requires |states| == |turns| + 1
  {
    forall k :: 0 <= k < |turns| && turns[k].i.Arrival? ==> SizeFits(states[k].conn, states[k].web, turns[k].i.s)
  }

  predicate PieceOfSent(s: Segment, iss: u32, sent: seq<byte>, k: nat) {
    k + |s.data| <= |sent| && s.seqno == SeqOf(iss, 1 + k) && s.data == sent[k..k + |s.data|]
  }

  /** Every packet with data, repeated or not, is a piece of what has been sent, under its sequence number. */
  ghost predicate PiecesOnly(t: Talk, iss: u32) {
    forall s :: s in t.wire && s.data != [] ==> exists k: nat :: PieceOfSent(s, iss, t.sent, k)
  }

  /** What has been sent is the request as far as the client has counted, and what is in flight. */
  predicate SentIsRequest(t: Talk, request: seq<byte>) {
    && t.sent <= request && t.web.ptr <= |t.sent|
    && (t.conn.state == SynSent ==> t.sent == [])
    && (t.conn.state == Established ==> |t.sent| == t.web.ptr + t.conn.len)
  }

  /** What an invocation puts in flight is what is in flight afterwards and was not before. */
  lemma InFlightCounts(c: Conn, i: Invocation)
    requires ConnInv(c) && i.reply.Valid()
    ensures
      var o := Invoked(c, i);
      o.conn.state == Established ==>
        |NewlySent(c, o)| == o.conn.len - if c.state == Established then c.len - NewlyAcked(c, o.event) else 0
  {
    match i
    case Timer(reply) =>
      TickCounts(c, reply);
    case Arrival(s, rto, reply) =>
      if c.state != Closed {
        ReceiveCounts(c, s, rto, reply);
      }
  }

  lemma TickCounts(c: Conn, reply: AppReply)
    requires ConnInv(c) && reply.Valid()
    ensures
      var o := Tick(c, reply);
      o.conn.state == Established ==>
        c.state == Established && |NewlySent(c, o)| == o.conn.len - (c.len - NewlyAcked(c, o.event))
  {
  }

  lemma ReceiveCounts(c: Conn, s: Segment, rto: byte, reply: AppReply)
    requires ConnInv(c) && reply.Valid() && c.state != Closed
    ensures
      var o := Receive(c, s, rto, reply);
      o.conn.state == Established ==>
        |NewlySent(c, o)| == o.conn.len - if c.state == Established then c.len - NewlyAcked(c, o.event) else 0
  {
    if !s.rst && !Unexpected(c, s) && c.state == Established {
      EstablishedCounts(c, s, rto, reply);
    }
  }

  lemma EstablishedCounts(c: Conn, s: Segment, rto: byte, reply: AppReply)
    requires ConnInv(c) && c.state == Established && reply.Valid()
    ensures
      var o := InEstablished(AckedConn(c, s, rto), s, Acknowledges(c, s), reply);
      o.conn.state == Established ==> |NewlySent(c, o)| == o.conn.len - (c.len - NewlyAcked(c, o.event))
  {
  }

  lemma Reaction(c: Conn, w: Client, iss: u32, request: seq<byte>, turn: Turn, w': Client)
    requires ConnInv(c) && RequestInv(c, w, iss, request) && turn.i.reply.Valid()
    requires turn.i.Arrival? ==> SizeFits(c, w, turn.i.s)
    requires Reacts(w, Invoked(c, turn.i), turn.parsed, request, w', turn.i.reply)
    ensures
      var o := Invoked(c, turn.i);
      RequestInv(o.conn, w', iss, request) && SendsPiece(o.conn, w', iss, request, o.out) && PtrFollows(c, w, o, w')
  {
    match turn.i
    case Timer(reply) =>
      TickReaction(c, w, iss, request, turn.parsed, w', reply);
    case Arrival(s, rto, reply) =>
      if c.state != Closed {
        ReceiveReaction(c, w, iss, request, s, rto, turn.parsed, w', reply);
      }
  }

  lemma SentGrows(t: Talk, request: seq<byte>, o: Outcome, w': Client)
    requires SentIsRequest(t, request)
    requires o.conn.state == SynSent ==> t.conn.state == SynSent
    requires PtrFollows(t.conn, t.web, o, w')
    requires o.conn.state == Established ==>
      && (t.conn.state == Established || (t.conn.state == SynSent && t.web.ptr == 0))
      && |NewlySent(t.conn, o)| ==
           o.conn.len - (if t.conn.state == Established then t.conn.len - NewlyAcked(t.conn, o.event) else 0)
    requires NewlySent(t.conn, o) != [] ==>
      w'.ptr + o.conn.len <= |request| && NewlySent(t.conn, o) == request[w'.ptr..w'.ptr + o.conn.len]
    ensures SentIsRequest(Talk(o.conn, w', t.sent + NewlySent(t.conn, o), t.wire), request)
  {
  }

  /** What the engine does to the connection, as far as the history is concerned. */
  lemma InvokedStates(c: Conn, w: Client, iss: u32, request: seq<byte>, i: Invocation)
    requires ConnInv(c) && RequestInv(c, w, iss, request) && i.reply.Valid()
    ensures
      var o := Invoked(c, i);
      && (o.conn.state == SynSent ==> c.state == SynSent)
      && (o.conn.state == Established ==> c.state == Established || (c.state == SynSent && w.ptr == 0))
  {
  }

  ghost predicate TalkInv(t: Talk, iss: u32, request: seq<byte>) {
    && ConnInv(t.conn) && RequestInv(t.conn, t.web, iss, request)
    && SentIsRequest(t, request) && PiecesOnly(t, iss)
  }

  lemma PieceStays(s: Segment, iss: u32, sent: seq<byte>, k: nat, more: seq<byte>)
    requires PieceOfSent(s, iss, sent, k)
    ensures PieceOfSent(s, iss, sent + more, k)
  {
  }

  lemma PiecesStay(t: Talk, iss: u32, request: seq<byte>, t': Talk, out: Option<Segment>)
    requires PiecesOnly(t, iss) && t.sent <= t'.sent && t'.wire == Sent(t.wire, out)
    requires SentIsRequest(t', request) && SendsPiece(t'.conn, t'.web, iss, request, out)
    ensures PiecesOnly(t', iss)
  {
    forall s | s in t'.wire && s.data != [] ensures exists k: nat :: PieceOfSent(s, iss, t'.sent, k) {
      if s in t.wire {
        var k: nat :| PieceOfSent(s, iss, t.sent, k);
        PieceStays(s, iss, t.sent, k, t'.sent[|t.sent|..]);
        assert t.sent + t'.sent[|t.sent|..] == t'.sent;
      } else {
        assert t'.sent == request[..|t'.sent|];
        assert PieceOfSent(s, iss, t'.sent, t'.web.ptr);
      }
    }
  }

  lemma TalkStepInv(t: Talk, turn: Turn, iss: u32, request: seq<byte>, t': Talk)
    requires TalkInv(t, iss, request) && TalkStep(t, turn, request, t')
    requires turn.i.Arrival? ==> SizeFits(t.conn, t.web, turn.i.s)
    ensures TalkInv(t', iss, request)
  {
    var o := Invoked(t.conn, turn.i);
    InvokedKeeps(t.conn, turn.i);
    InvokedStates(t.conn, t.web, iss, request, turn.i);
    InFlightCounts(t.conn, turn.i);
    Reaction(t.conn, t.web, iss, request, turn, t'.web);
    SentGrows(t, request, o, t'.web);
    PiecesStay(t, iss, request, t', o.out);
  }

  lemma {:induction false} TalkRunInv(states: seq<Talk>, turns: seq<Turn>, iss: u32, request: seq<byte>, k: nat)
    requires TalkRun(states, turns, iss, request) && SizesFit(states, turns) && |request| < 0x1_0000 && k <= |turns|
    ensures TalkInv(states[k], iss, request)
  {
    if k > 0 {
      TalkRunInv(states, turns, iss, request, k - 1);
      TalkStepInv(states[k - 1], turns[k - 1], iss, request, states[k]);
    }
  }

  /**
   Whatever the peer sends and however often the timer runs: the pieces sent for the first time
   are the request from its beginning, up to the end of what is in flight, and everything
   else that is sent repeats a piece of it.
   */
  lemma PiecesAreTheRequest(states: seq<Talk>, turns: seq<Turn>, iss: u32, request: seq<byte>)
    requires TalkRun(states, turns, iss, request) && SizesFit(states, turns) && |request| < 0x1_0000
    ensures
      var t := states[|turns|];
      && t.sent <= request && t.web.ptr <= |t.sent|
      && (t.conn.state == Established ==> |t.sent| == t.web.ptr + t.conn.len)
      && PiecesOnly(t, iss)
  {
    TalkRunInv(states, turns, iss, request, |turns|);
  }

  // ---------- A window that becomes smaller ----------

  const TICK := Turn(Timer(Carrying([])), Aborts)

  /** An answer that carries `data`. */
  function Carrying(data: seq<byte>): AppReply
    requires |data| <= UIP_TCP_MSS
  {
    AppReply(Continue, |data|, data + seq(UIP_TCP_MSS - |data|, _ => 0))
  }

  /** The SYNACK of a peer that takes segments of 100 bytes. */
  function PeerSynAck(iss: u32, peerIss: u32): Segment {
    Segment(peerIss, SeqOf(iss, 1), true, true, false, false, false, 100, Some(100), [])
  }

  /** Its acknowledgment of the first 100 bytes, with room for 50 more. */
  function PeerAck(iss: u32, peerIss: u32): Segment {
    Segment(SeqOf(peerIss, 1), SeqOf(iss, 101), false, true, false, false, false, 50, None, [])
  }

  /** The SYN goes out with the second tick. */
  lemma SynIsSent(t: Talk, iss: u32, request: seq<byte>) returns (t1: Talk, t2: Talk)
    requires Asked(t, iss, request) && |request| < 0x1_0000 && t.conn.timer == 1 && t.conn.nrtx == 0
    ensures TalkStep(t, TICK, request, t1) && TalkStep(t1, TICK, request, t2)
    ensures Asked(t2, iss, request) && SynPacket(t.conn) in t2.wire
  {
    t1 := t.(conn := t.conn.(timer := 0));
    t2 := t1.(conn := t1.conn.(timer := 3, nrtx := 1), wire := t1.wire + {SynPacket(t.conn)});
  }

  /** The SYNACK draws the first 100 bytes. */
  lemma FirstPiece(t: Talk, iss: u32, peerIss: u32, request: seq<byte>, rto: byte) returns (turn: Turn, t': Talk)
    requires Asked(t, iss, request) && 100 <= |request| < 0x1_0000
    ensures turn.i == Arrival(PeerSynAck(iss, peerIss), rto, Carrying(request[..100]))
    ensures TalkStep(t, turn, request, t') && HundredSent(t', iss, peerIss, request)
  {
    var s, reply := PeerSynAck(iss, peerIss), Carrying(request[..100]);
    turn := Turn(Arrival(s, rto, reply), Aborts);
    var o := Receive(t.conn, s, rto, reply);
    SeqAdd(iss, 0, 1);
    ReceiveKeeps(t.conn, s, rto, reply);
    t' := Talk(o.conn, t.web.(timer := 0, phase := StatusLine), t.sent + NewlySent(t.conn, o), Sent(t.wire, o.out));
    assert reply.buffer[..100] == request[..100];
  }

  /** The acknowledgment of them draws a piece that begins 50 bytes too early. */
  lemma SecondPiece(t: Talk, iss: u32, peerIss: u32, request: seq<byte>, rto: byte) returns (turn: Turn, t': Talk)
    requires HundredSent(t, iss, peerIss, request)
    ensures turn.i == Arrival(PeerAck(iss, peerIss), rto, Carrying(request[50..100]))
    ensures TalkStep(t, turn, request, t') && Repeated(t', iss, request)
  {
    var s, reply := PeerAck(iss, peerIss), Carrying(request[50..100]);
    turn := Turn(Arrival(s, rto, reply), Aborts);
    var o := Receive(t.conn, s, rto, reply);
    SeqAdd(iss, 1, 100);
    t' := Talk(o.conn, Acked(t.web, 50).(timer := 0), t.sent + NewlySent(t.conn, o), Sent(t.wire, o.out));
    assert reply.buffer[..50] == request[50..100];
  }

  lemma RequestLength(file: seq<byte>, host: seq<byte>)
    ensures |Request(file, host)| == 99 + |file| + |host|
  {
  }

  lemma TalkExtended(states: seq<Talk>, turns: seq<Turn>, iss: u32, request: seq<byte>, turn: Turn, t: Talk)
    requires TalkRun(states, turns, iss, request) && TalkStep(states[|turns|], turn, request, t)
    ensures TalkRun(states + [t], turns + [turn], iss, request)
  {
    var longer, more := states + [t], turns + [turn];
    forall k | 0 <= k < |more| ensures TalkStep(longer[k], more[k], request, longer[k + 1]) {
      if k < |turns| {
        assert longer[k] == states[k] && longer[k + 1] == states[k + 1] && more[k] == turns[k];
      }
    }
  }

  lemma SynRun(t0: Talk, iss: u32, request: seq<byte>) returns (states: seq<Talk>)
    requires Asked(t0, iss, request) && t0.wire == {} && t0.conn.timer == 1 && t0.conn.nrtx == 0
    requires |request| < 0x1_0000
    ensures TalkRun(states, [TICK, TICK], iss, request) && states[0] == t0 && Asked(states[2], iss, request)
  {
    var t1, t2 := SynIsSent(t0, iss, request);
    TalkExtended([t0], [], iss, request, TICK, t1);
    TalkExtended([t0] + [t1], [] + [TICK], iss, request, TICK, t2);
    states := [t0] + [t1] + [t2];
    assert [] + [TICK] + [TICK] == [TICK, TICK];
  }

  /** The peer has been sent its first 100 bytes. */
  predicate HundredSent(t: Talk, iss: u32, peerIss: u32, request: seq<byte>) {
    && ConnInv(t.conn) && t.conn.state == Established && t.conn.len == t.conn.mss == t.conn.initialMss == 100
    && t.conn.sndNxt == SeqOf(iss, 1) && t.conn.rcvNxt == SeqOf(peerIss, 1)
    && t.web.phase == StatusLine && t.web.ptr == 0 && t.web.left == |request|
    && 100 <= |request| < 0x1_0000 && t.sent == request[..100]
  }

  lemma FirstRun(states: seq<Talk>, turns: seq<Turn>, iss: u32, peerIss: u32, request: seq<byte>, rto: byte)
    returns (turn: Turn, t: Talk)
    requires TalkRun(states, turns, iss, request) && Asked(states[|turns|], iss, request)
    requires 100 <= |request| < 0x1_0000
    ensures turn.i.Arrival? && turn.i.s == PeerSynAck(iss, peerIss)
    ensures TalkRun(states + [t], turns + [turn], iss, request) && HundredSent(t, iss, peerIss, request)
  {
    turn, t := FirstPiece(states[|turns|], iss, peerIss, request, rto);
    TalkExtended(states, turns, iss, request, turn, t);
  }

  /** It has been sent 50 of them again. */
  predicate Repeated(t: Talk, iss: u32, request: seq<byte>) {
    && t.conn.state == Established && t.conn.sndNxt == SeqOf(iss, 101) && |request| >= 100
    && DataPacket(t.conn, request[50..100]) in t.wire
    && t.sent == request[..100] + request[50..100]
  }

  lemma SecondRun(states: seq<Talk>, turns: seq<Turn>, iss: u32, peerIss: u32, request: seq<byte>, rto: byte)
    returns (turn: Turn, t: Talk)
    requires TalkRun(states, turns, iss, request) && HundredSent(states[|turns|], iss, peerIss, request)
    ensures turn.i.Arrival? && turn.i.s == PeerAck(iss, peerIss)
    ensures TalkRun(states + [t], turns + [turn], iss, request) && Repeated(t, iss, request)
  {
    turn, t := SecondPiece(states[|turns|], iss, peerIss, request, rto);
    TalkExtended(states, turns, iss, request, turn, t);
  }

  /** Two timer ticks, the SYNACK and the acknowledgment have led to the repetition. */
  predicate Spoilt(states: seq<Talk>, turns: seq<Turn>, iss: u32, peerIss: u32, request: seq<byte>) {
    && TalkRun(states, turns, iss, request) && |turns| == 4
    && turns[0] == turns[1] == TICK
    && turns[2].i.Arrival? && turns[2].i.s == PeerSynAck(iss, peerIss)
    && turns[3].i.Arrival? && turns[3].i.s == PeerAck(iss, peerIss)
    && Repeated(states[4], iss, request)
  }

  lemma SpoiltRun(t0: Talk, iss: u32, peerIss: u32, request: seq<byte>, rto: byte)
    returns (states: seq<Talk>, turns: seq<Turn>)
    requires Asked(t0, iss, request) && t0.wire == {} && t0.conn.timer == 1 && t0.conn.nrtx == 0
    requires 100 <= |request| < 0x1_0000
    ensures Spoilt(states, turns, iss, peerIss, request) && states[0] == t0
  {
    states := SynRun(t0, iss, request);
    turns := [TICK, TICK];
    var first, t3 := FirstRun(states, turns, iss, peerIss, request, rto);
    states, turns := states + [t3], turns + [first];
    var second, t4 := SecondRun(states, turns, iss, peerIss, request, rto);
    states, turns := states + [t4], turns + [second];
  }

  /**
   Every request of 100 bytes or more can be spoilt: a peer that takes segments of 100 bytes and
   acknowledges the first one with a window of 50 is sent 50 of its bytes again, as new ones.
   */
  lemma SmallerWindowRepeatsBytes(file: seq<byte>, host: seq<byte>, slot: Conn, iss: u32, peerIss: u32, rto: byte)
    returns (states: seq<Talk>, turns: seq<Turn>)
    requires |file| < 100 && |host| < 40 && |file| + |host| > 0
    ensures Spoilt(states, turns, iss, peerIss, Request(file, host))
    ensures states[0].conn == ActiveOpen(slot, iss, slot.lport, slot.rport, slot.ripaddr)
    ensures |file| + |host| <= 50 ==> !(states[4].sent <= Request(file, host))
  {
    RequestLength(file, host);
    var t0 := Talk(ActiveOpen(slot, iss, slot.lport, slot.rport, slot.ripaddr),
                   Client(StatusLine, 0, 0, |Request(file, host)|), [], {});
    states, turns := SpoiltRun(t0, iss, peerIss, Request(file, host), rto);
  }
}
