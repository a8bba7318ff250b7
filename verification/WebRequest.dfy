/**
 The HTTP client on top of the TCP engine: whatever arrives and however often segments have
 to be repeated, what is sent are the right pieces of the request.
 */
module WebRequest {
  import opened Bytes
  import opened Wrappers
  import opened Tcp
  import opened TcpNet
  import opened WebClient

  /** The client answers the event of one invocation of the engine, if there is one. */
  predicate Reacts(w: Client, o: Outcome, parsed: Parsed, request: seq<byte>, w': Client, reply: AppReply)
    requires w.ptr + w.left < 0x1_0000
  {
    if o.event.Some? then Answers(w, o.event.value, o.conn.mss, parsed, request, w', reply) else w' == w
  }

  /** The engine's and the client's idea of how far the request has got agree. */
  predicate RequestInv(c: Conn, w: Client, iss: u32, request: seq<byte>) {
    && |request| < 0x1_0000
    && w.ptr + w.left == |request|
    && c.state != SynRcvd
    && (c.state == SynSent ==> w.ptr == 0 && c.sndNxt == SeqOf(iss, 0))
    && (c.state == Established ==> c.sndNxt == SeqOf(iss, 1 + w.ptr) && c.len == ChunkLen(w, c.mss))
  }

  /** Data on the wire is the due piece of the request, under the sequence number of that piece. */
  predicate SendsPiece(c: Conn, w: Client, iss: u32, request: seq<byte>, out: Option<Segment>) {
    out.Some? && out.value.data != [] ==>
      && c.state == Established
      && w.ptr + c.len <= |request|
      && out.value.seqno == SeqOf(iss, 1 + w.ptr)
      && out.value.data == request[w.ptr..w.ptr + c.len]
  }

  /** The client counts what the engine has seen acknowledged, unless it has given the connection up. */
  predicate PtrFollows(c: Conn, w: Client, o: Outcome, w': Client) {
    && w'.ptr <= w.ptr + NewlyAcked(c, o.event)
    && (o.conn.state == Established ==> w'.ptr == w.ptr + NewlyAcked(c, o.event))
  }

  /** After the acknowledgment has been dealt with, an answer with the due chunk keeps the agreement. */
  lemma ChunkAnswer(c: Conn, w: Client, iss: u32, request: seq<byte>, event: AppEvent, reply: AppReply)
    requires ConnInv(c) && c.state == Established && RequestInv(c.(len := ChunkLen(w, c.mss)), w, iss, request)
    requires c.len == 0 || c.len == ChunkLen(w, c.mss)
    requires SendsChunk(w, c.mss, request, reply)
    requires event.acked ==> c.len == 0
    ensures
      var o := AppSend(c, event, reply);
      RequestInv(o.conn, w, iss, request) && SendsPiece(o.conn, w, iss, request, o.out)
  {
  }

  /** The due piece is repeated, however often. */
  lemma RexmitReaction(c: Conn, w: Client, iss: u32, request: seq<byte>, parsed: Parsed, w': Client, reply: AppReply)
    requires ConnInv(c) && c.state == Established && RequestInv(c, w, iss, request) && reply.Valid()
    requires Answers(w, QUIET.(rexmit := true), c.mss, parsed, request, w', reply)
    ensures RequestInv(c, w', iss, request) && SendsPiece(c, w', iss, request, Transmit(c, reply.slen, false, reply))
  {
  }

  /** A poll comes only when everything has been acknowledged; the client has nothing to add. */
  lemma PollReaction(c: Conn, w: Client, iss: u32, request: seq<byte>, parsed: Parsed, w': Client, reply: AppReply)
    requires ConnInv(c) && c.state == Established && c.len == 0 && RequestInv(c, w, iss, request) && reply.Valid()
    requires Answers(w, QUIET.(poll := true), c.mss, parsed, request, w', reply)
    ensures
      var o := AppSend(c, QUIET.(poll := true), reply);
      RequestInv(o.conn, w', iss, request) && SendsPiece(o.conn, w', iss, request, o.out)
  {
  }

  /** Outside ESTABLISHED nothing is due. */
  lemma TickElsewhere(c: Conn, w: Client, iss: u32, request: seq<byte>, parsed: Parsed, w': Client, reply: AppReply)
    requires ConnInv(c) && c.state != Established && RequestInv(c, w, iss, request) && reply.Valid()
    requires Reacts(w, Tick(c, reply), parsed, request, w', reply)
    ensures
      var o := Tick(c, reply);
      RequestInv(o.conn, w', iss, request) && SendsPiece(o.conn, w', iss, request, o.out) && PtrFollows(c, w, o, w')
  {
  }

  /** While the timer runs, or when it gives up, no data is sent. */
  lemma TickWaiting(c: Conn, w: Client, iss: u32, request: seq<byte>, parsed: Parsed, w': Client, reply: AppReply)
    requires ConnInv(c) && c.state == Established && c.len > 0 && RequestInv(c, w, iss, request) && reply.Valid()
    requires c.timer > 0 || GivesUp(c)
    requires Reacts(w, Tick(c, reply), parsed, request, w', reply)
    ensures
      var o := Tick(c, reply);
      RequestInv(o.conn, w', iss, request) && SendsPiece(o.conn, w', iss, request, o.out) && PtrFollows(c, w, o, w')
  {
  }

  lemma TickPolls(c: Conn, w: Client, iss: u32, request: seq<byte>, parsed: Parsed, w': Client, reply: AppReply)
    requires ConnInv(c) && c.state == Established && c.len == 0 && RequestInv(c, w, iss, request) && reply.Valid()
    requires Reacts(w, Tick(c, reply), parsed, request, w', reply)
    ensures
      var o := Tick(c, reply);
      RequestInv(o.conn, w', iss, request) && SendsPiece(o.conn, w', iss, request, o.out) && PtrFollows(c, w, o, w')
  {
    PollReaction(c, w, iss, request, parsed, w', reply);
  }

  lemma TickRepeats(c: Conn, w: Client, iss: u32, request: seq<byte>, parsed: Parsed, w': Client, reply: AppReply)
    requires ConnInv(c) && c.state == Established && c.len > 0 && RequestInv(c, w, iss, request) && reply.Valid()
    requires c.timer == 0 && !GivesUp(c)
    requires Reacts(w, Tick(c, reply), parsed, request, w', reply)
    ensures
      var o := Tick(c, reply);
      RequestInv(o.conn, w', iss, request) && SendsPiece(o.conn, w', iss, request, o.out) && PtrFollows(c, w, o, w')
  {
    RexmitReaction(c.(timer := Backoff(c.nrtx), nrtx := (c.nrtx + 1) % 256), w, iss, request, parsed, w', reply);
  }

  lemma TickReaction(c: Conn, w: Client, iss: u32, request: seq<byte>, parsed: Parsed, w': Client, reply: AppReply)
    requires ConnInv(c) && RequestInv(c, w, iss, request) && reply.Valid()
    requires Reacts(w, Tick(c, reply), parsed, request, w', reply)
    ensures
      var o := Tick(c, reply);
      RequestInv(o.conn, w', iss, request) && SendsPiece(o.conn, w', iss, request, o.out) && PtrFollows(c, w, o, w')
  {
    if c.state != Established {
      TickElsewhere(c, w, iss, request, parsed, w', reply);
    } else if c.len == 0 {
      TickPolls(c, w, iss, request, parsed, w', reply);
    } else if c.timer == 0 && !GivesUp(c) {
      TickRepeats(c, w, iss, request, parsed, w', reply);
    } else {
      TickWaiting(c, w, iss, request, parsed, w', reply);
    }
  }

  /**
   The peer's window may change the size of a segment. The client then takes what has been
   acknowledged for a piece of the new size, so that this must be what was in flight.
   */
  predicate SizeFits(c: Conn, w: Client, s: Segment) {
    c.state == Established && !s.rst && !Unexpected(c, s) && !s.fin ==>
      ChunkLen(w, WindowMss(c, s.wnd)) == c.len || (c.len == 0 && s.data != [])
  }

  /** What the acknowledgment in a segment does to both: they stay in step. */
  lemma AckedInStep(c: Conn, w: Client, iss: u32, request: seq<byte>, s: Segment, rto: byte)
    requires ConnInv(c) && c.state == Established && RequestInv(c, w, iss, request)
    requires !s.rst && !Unexpected(c, s) && !s.fin && SizeFits(c, w, s)
    ensures
      var w1 := if Acknowledges(c, s) then Acked(w, WindowMss(c, s.wnd)) else w;
      var c1 := AckedConn(c, s, rto);
      && w1.ptr + w1.left == |request| && c1.sndNxt == SeqOf(iss, 1 + w1.ptr)
      && w1.ptr == w.ptr + (if Acknowledges(c, s) then c.len else 0)
      && (c1.len == 0 || c1.len == ChunkLen(w1, WindowMss(c, s.wnd)))
      && (!Acknowledges(c, s) && s.data == [] ==> c1.len == ChunkLen(w1, WindowMss(c, s.wnd)))
  {
    SeqAdd(iss, 1 + w.ptr, c.len);
  }

  /** The application is called with the connection `c1` after acknowledgment and data. */
  lemma DataReaction(c1: Conn, w: Client, w1: Client, iss: u32, request: seq<byte>, event: AppEvent,
                     parsed: Parsed, w': Client, reply: AppReply)
    requires ConnInv(c1) && c1.state == Established && |request| < 0x1_0000 && reply.Valid()
    requires w.ptr + w.left == w1.ptr + w1.left == |request|
    requires event.acked || event.newdata
    requires !event.connected && !event.rexmit && !event.poll
    requires w1 == if event.acked then Acked(w, c1.mss) else w
    requires c1.sndNxt == SeqOf(iss, 1 + w1.ptr)
    requires c1.len == 0 || (!event.acked && c1.len == ChunkLen(w1, c1.mss))
    requires Answers(w, event, c1.mss, parsed, request, w', reply)
    ensures
      var o := AppSend(c1, event, reply);
      && RequestInv(o.conn, w', iss, request) && SendsPiece(o.conn, w', iss, request, o.out)
      && w'.ptr <= w1.ptr && (o.conn.state == Established ==> w'.ptr == w1.ptr)
  {
    if Handle(w, event, c1.mss, parsed).1 == Chunk {
      ChunkAnswer(c1, w', iss, request, event, reply);
    }
  }

  /** The server's FIN ends the sending side; the connection is past its established state. */
  lemma FinReaction(c1: Conn, w: Client, iss: u32, request: seq<byte>, s: Segment, acked: bool,
                    parsed: Parsed, w': Client, reply: AppReply)
    requires ConnInv(c1) && c1.state == Established && s.fin && reply.Valid()
    requires w.ptr + w.left == |request| < 0x1_0000
    requires c1.len > 0 ==> RequestInv(c1, w, iss, request)
    requires Reacts(w, InEstablished(c1, s, acked, reply), parsed, request, w', reply)
    ensures
      var o := InEstablished(c1, s, acked, reply);
      && RequestInv(o.conn, w', iss, request) && SendsPiece(o.conn, w', iss, request, o.out)
      && w'.ptr <= w.ptr + (if acked then ChunkLen(w, c1.mss) else 0)
      && (o.conn.state == Established ==> w' == w && o.event == None)
      && (o.event.Some? ==> o.event.value.acked == acked)
  {
  }

  lemma EstablishedReaction(c: Conn, w: Client, iss: u32, request: seq<byte>, s: Segment, rto: byte,
                            parsed: Parsed, w': Client, reply: AppReply)
    requires ConnInv(c) && c.state == Established && RequestInv(c, w, iss, request) && reply.Valid()
    requires !s.rst && !Unexpected(c, s) && SizeFits(c, w, s)
    requires
      var acked := Acknowledges(c, s);
      Reacts(w, InEstablished(AckedConn(c, s, rto), s, acked, reply), parsed, request, w', reply)
    ensures
      var o := InEstablished(AckedConn(c, s, rto), s, Acknowledges(c, s), reply);
      RequestInv(o.conn, w', iss, request) && SendsPiece(o.conn, w', iss, request, o.out) && PtrFollows(c, w, o, w')
  {
    if s.fin {
      FinReaction(AckedConn(c, s, rto), w, iss, request, s, Acknowledges(c, s), parsed, w', reply);
    } else {
      WithoutFin(c, w, iss, request, s, rto, parsed, w', reply);
    }
  }

  lemma WithoutFin(c: Conn, w: Client, iss: u32, request: seq<byte>, s: Segment, rto: byte,
                   parsed: Parsed, w': Client, reply: AppReply)
    requires ConnInv(c) && c.state == Established && RequestInv(c, w, iss, request) && reply.Valid()
    requires !s.rst && !Unexpected(c, s) && !s.fin && SizeFits(c, w, s)
    requires
      var acked := Acknowledges(c, s);
      Reacts(w, InEstablished(AckedConn(c, s, rto), s, acked, reply), parsed, request, w', reply)
    ensures
      var o := InEstablished(AckedConn(c, s, rto), s, Acknowledges(c, s), reply);
      RequestInv(o.conn, w', iss, request) && SendsPiece(o.conn, w', iss, request, o.out) && PtrFollows(c, w, o, w')
  {
    var acked, c1 := Acknowledges(c, s), AckedConn(c, s, rto);
    AckedInStep(c, w, iss, request, s, rto);
    DataOrNothing(c1, w, if acked then Acked(w, WindowMss(c, s.wnd)) else w, iss, request, s, acked, parsed, w', reply);
  }

  lemma DataOrNothing(c1: Conn, w: Client, w1: Client, iss: u32, request: seq<byte>, s: Segment, acked: bool,
                      parsed: Parsed, w': Client, reply: AppReply)
    requires ConnInv(c1) && c1.state == Established && !s.fin && reply.Valid()
    requires w.ptr + w.left == w1.ptr + w1.left == |request| < 0x1_0000
    requires w1 == if acked then Acked(w, WindowMss(c1, s.wnd)) else w
    requires c1.sndNxt == SeqOf(iss, 1 + w1.ptr)
    requires c1.len == 0 || (!acked && c1.len == ChunkLen(w1, WindowMss(c1, s.wnd)))
    requires !acked && s.data == [] ==> c1.len == ChunkLen(w1, WindowMss(c1, s.wnd))
    requires Reacts(w, InEstablished(c1, s, acked, reply), parsed, request, w', reply)
    ensures
      var o := InEstablished(c1, s, acked, reply);
      && RequestInv(o.conn, w', iss, request) && SendsPiece(o.conn, w', iss, request, o.out)
      && w'.ptr <= w1.ptr && (o.conn.state == Established ==> w'.ptr == w1.ptr)
      && (acked ==> o.event.Some?) && (o.event.Some? ==> o.event.value.acked == acked)
  {
    if s.data != [] || acked {
      var c2 := c1.(rcvNxt := Add32(c1.rcvNxt, |s.data|), mss := WindowMss(c1, s.wnd));
      var event := QUIET.(acked := acked, newdata := s.data != [], data := s.data);
      DataReaction(c2, w, w1, iss, request, event, parsed, w', reply);
    }
  }

  /** The first piece goes out with the acknowledgment of the SYNACK. */
  lemma ConnectedReaction(c: Conn, w: Client, iss: u32, request: seq<byte>, s: Segment, rto: byte,
                          parsed: Parsed, w': Client, reply: AppReply)
    requires ConnInv(c) && c.state == SynSent && RequestInv(c, w, iss, request) && reply.Valid()
    requires
      var acked := Acknowledges(c, s);
      Reacts(w, InSynSent(AckedConn(c, s, rto), s, acked, reply), parsed, request, w', reply)
    ensures
      var o := InSynSent(AckedConn(c, s, rto), s, Acknowledges(c, s), reply);
      RequestInv(o.conn, w', iss, request) && SendsPiece(o.conn, w', iss, request, o.out) && PtrFollows(c, w, o, w')
  {
    if Acknowledges(c, s) && s.IsSynAck() {
      var c1 := OfferedMss(AfterAck(c, rto), s).(state := Established, rcvNxt := Add32(s.seqno, 1));
      SeqAdd(iss, 0, 1);
      ChunkAnswer(c1, w', iss, request, QUIET.(connected := true, newdata := true), reply);
    }
  }

  /** Whatever segment arrives, from whatever peer, as long as the segment size fits what is in flight. */
  lemma ReceiveReaction(c: Conn, w: Client, iss: u32, request: seq<byte>, s: Segment, rto: byte,
                        parsed: Parsed, w': Client, reply: AppReply)
    requires ConnInv(c) && c.state != Closed && RequestInv(c, w, iss, request) && reply.Valid()
    requires SizeFits(c, w, s)
    requires Reacts(w, Receive(c, s, rto, reply), parsed, request, w', reply)
    ensures
      var o := Receive(c, s, rto, reply);
      RequestInv(o.conn, w', iss, request) && SendsPiece(o.conn, w', iss, request, o.out) && PtrFollows(c, w, o, w')
  {
    if !s.rst && !Unexpected(c, s) {
      if c.state == Established {
        EstablishedReaction(c, w, iss, request, s, rto, parsed, w', reply);
      } else if c.state == SynSent {
        ConnectedReaction(c, w, iss, request, s, rto, parsed, w', reply);
      }
    }
  }

  /** And only then: otherwise the client and the engine disagree afterwards, unless the connection has ended. */
  lemma SizeMustFit(c: Conn, w: Client, iss: u32, request: seq<byte>, s: Segment, rto: byte,
                    parsed: Parsed, w': Client, reply: AppReply)
    requires ConnInv(c) && c.state == Established && RequestInv(c, w, iss, request) && reply.Valid()
    requires Reacts(w, Receive(c, s, rto, reply), parsed, request, w', reply)
    requires Receive(c, s, rto, reply).conn.state == Established
    ensures RequestInv(Receive(c, s, rto, reply).conn, w', iss, request) <==> SizeFits(c, w, s)
  {
    if SizeFits(c, w, s) {
      ReceiveReaction(c, w, iss, request, s, rto, parsed, w', reply);
    } else if Acknowledges(c, s) {
      AckedOutOfStep(c, w, iss, request, s, rto, parsed, w', reply);
    } else if s.data != [] {
      LenStays(c.(rcvNxt := Add32(c.rcvNxt, |s.data|), mss := WindowMss(c, s.wnd)),
               QUIET.(newdata := true, data := s.data), reply);
    }
  }

  lemma LenStays(c: Conn, event: AppEvent, reply: AppReply)
    requires ConnInv(c) && c.len > 0 && !event.acked && reply.Valid()
    ensures AppSend(c, event, reply).conn.state == FinWait1 || AppSend(c, event, reply).conn.len == c.len
  {
  }

  /** The client has taken another number of bytes for acknowledged than the engine. */
  lemma AckedOutOfStep(c: Conn, w: Client, iss: u32, request: seq<byte>, s: Segment, rto: byte,
                       parsed: Parsed, w': Client, reply: AppReply)
    requires ConnInv(c) && c.state == Established && RequestInv(c, w, iss, request) && reply.Valid()
    requires Reacts(w, Receive(c, s, rto, reply), parsed, request, w', reply)
    requires Receive(c, s, rto, reply).conn.state == Established
    requires Acknowledges(c, s) && !SizeFits(c, w, s)
    ensures !RequestInv(Receive(c, s, rto, reply).conn, w', iss, request)
  {
    AckedCounts(c, w, iss, request, s, rto, parsed, w', reply);
    if SeqOf(iss, 1 + w.ptr + c.len) == SeqOf(iss, 1 + w'.ptr) {
      SeqUnique(iss, 1 + w.ptr + c.len, 1 + w'.ptr);
    }
  }

  lemma AckedCounts(c: Conn, w: Client, iss: u32, request: seq<byte>, s: Segment, rto: byte,
                    parsed: Parsed, w': Client, reply: AppReply)
    requires ConnInv(c) && c.state == Established && RequestInv(c, w, iss, request) && reply.Valid()
    requires Reacts(w, Receive(c, s, rto, reply), parsed, request, w', reply)
    requires Receive(c, s, rto, reply).conn.state == Established
    requires Acknowledges(c, s) && !s.rst && !Unexpected(c, s) && !s.fin
    ensures w'.ptr == w.ptr + ChunkLen(w, WindowMss(c, s.wnd)) && w'.ptr <= |request|
    ensures Receive(c, s, rto, reply).conn.sndNxt == SeqOf(iss, 1 + w.ptr + c.len)
  {
    SeqAdd(iss, 1 + w.ptr, c.len);
  }

  // ---------- The client as one endpoint of the network ----------

  datatype WebNet = WebNet(net: Net, web: Client)

  predicate WebTick(n: WebNet, n': WebNet, request: seq<byte>, parsed: Parsed, reply: AppReply)
    requires ConnInv(n.net.a.conn) && reply.Valid() && n.web.ptr + n.web.left < 0x1_0000
  {
    && TickMove(n.net, n'.net, reply)
    && Reacts(n.web, Tick(n.net.a.conn, reply), parsed, request, n'.web, reply)
  }

  predicate WebReceive(n: WebNet, n': WebNet, request: seq<byte>, s: Segment, rto: byte,
                       parsed: Parsed, reply: AppReply)
    requires ConnInv(n.net.a.conn) && reply.Valid() && n.web.ptr + n.web.left < 0x1_0000
  {
    && ReceiveMove(n.net, n'.net, s, rto, reply)
    && Reacts(n.web, Receive(n.net.a.conn, s, rto, reply), parsed, request, n'.web, reply)
  }

  ghost predicate WebStep(n: WebNet, n': WebNet, request: seq<byte>) {
    && ConnInv(n.net.a.conn) && n.web.ptr + n.web.left < 0x1_0000
    && ( || (exists parsed, reply: AppReply :: reply.Valid() && WebTick(n, n', request, parsed, reply))
         || (exists s, rto: byte, parsed, reply: AppReply ::
               reply.Valid() && WebReceive(n, n', request, s, rto, parsed, reply))
         || (n'.web == n.web && exists s :: RefuseStep(n.net, n'.net, s))
         || (n'.web == n.web && StepOfA(Swapped(n.net), Swapped(n'.net))))
  }

  ghost predicate WebRun(states: seq<WebNet>, request: seq<byte>) {
    && |states| > 0 && |request| < 0x1_0000
    && Init(states[0].net) && states[0].net.a.active
    && states[0].web.ptr == 0 && states[0].web.left == |request|
    && forall i :: 0 <= i < |states| - 1 ==> WebStep(states[i], states[i + 1], request)
  }

  /** What the endpoint has been given to send is the request, as far as the client has got. */
  predicate StreamIsRequest(a: Endpoint, w: Client, request: seq<byte>) {
    && a.active && RequestInv(a.conn, w, a.iss, request)
    && a.out <= request && w.ptr <= a.acked
    && (a.conn.state == Established ==> a.acked == w.ptr)
  }

  ghost predicate WebInv(n: WebNet, request: seq<byte>) {
    Inv(n.net) && StreamIsRequest(n.net.a, n.web, request)
  }

  /** The client always repeats exactly the bytes in flight. */
  lemma ClientIsOkay(a: Endpoint, w: Client, request: seq<byte>, peerIss: u32, o: Outcome,
                     parsed: Parsed, w': Client, reply: AppReply)
    requires LocalInv(a, peerIss) && StreamIsRequest(a, w, request) && reply.Valid()
    requires Reacts(w, o, parsed, request, w', reply) && o.conn.mss == a.conn.mss
    requires o.event.Some? && a.conn.state == Established ==> !o.event.value.connected
    ensures AppOkay(a, o.event, reply)
  {
    if a.conn.state == Established && a.conn.len > 0 && o.event.Some? && !o.event.value.acked && reply.slen > 0 {
      assert a.out[a.acked..] == request[w.ptr..w.ptr + a.conn.len];
    }
  }

  /** The history of the endpoint moves with the client. */
  lemma RecordsRequest(a: Endpoint, w: Client, request: seq<byte>, peerIss: u32, o: Outcome,
                       s: Option<Segment>, w': Client)
    requires StreamIsRequest(a, w, request) && a.acked <= |a.out|
    requires RequestInv(o.conn, w', a.iss, request) && SendsPiece(o.conn, w', a.iss, request, o.out)
    requires PtrFollows(a.conn, w, o, w')
    requires LocalInv(Record(a, o, s), peerIss)
    requires o.conn.state == Established && a.conn.state != Established ==> a.acked == w.ptr
    ensures StreamIsRequest(Record(a, o, s), w', request)
  {
    var x := Record(a, o, s);
    if NewlySent(a.conn, o) != [] {
      assert x.out == request[..w'.ptr] + request[w'.ptr..w'.ptr + o.conn.len];
    }
  }

  lemma WebTickInv(n: WebNet, n': WebNet, request: seq<byte>, parsed: Parsed, reply: AppReply)
    requires WebInv(n, request) && Small(n.net) && reply.Valid()
    requires WebTick(n, n', request, parsed, reply)
    ensures WebInv(n', request)
  {
    var a, o := n.net.a, Tick(n.net.a.conn, reply);
    WebTickNet(n, n', request, parsed, reply);
    TickReaction(a.conn, n.web, a.iss, request, parsed, n'.web, reply);
    RecordsRequest(a, n.web, request, n.net.b.iss, o, None, n'.web);
  }

  lemma WebTickNet(n: WebNet, n': WebNet, request: seq<byte>, parsed: Parsed, reply: AppReply)
    requires WebInv(n, request) && Small(n.net) && reply.Valid()
    requires WebTick(n, n', request, parsed, reply)
    ensures Inv(n'.net)
  {
    TickKeepsSize(n.net.a.conn, reply);
    ClientIsOkay(n.net.a, n.web, request, n.net.b.iss, Tick(n.net.a.conn, reply), parsed, n'.web, reply);
    TickStepInv(n.net, n'.net, reply);
  }

  lemma TickKeepsSize(c: Conn, reply: AppReply)
    requires ConnInv(c) && reply.Valid()
    ensures Tick(c, reply).conn.mss == c.mss
    ensures Tick(c, reply).event.Some? ==> !Tick(c, reply).event.value.connected
  {
  }

  /** The peer is a uIP too, so that the segment size never changes. */
  lemma SizeStays(g: Net, s: Segment, rto: byte, reply: AppReply)
    requires Inv(g) && g.a.conn.state != Closed && s in g.ba && reply.Valid()
    ensures g.a.conn.state == Established && !s.rst ==> WindowMss(g.a.conn, s.wnd) == g.a.conn.mss
    ensures Receive(g.a.conn, s, rto, reply).conn.mss == g.a.conn.mss
    ensures
      var o := Receive(g.a.conn, s, rto, reply);
      o.event.Some? && g.a.conn.state == Established ==> !o.event.value.connected
  {
    assert SegmentInv(g.b, g.a.iss, s);
  }

  lemma WebReceiveInv(n: WebNet, n': WebNet, request: seq<byte>, s: Segment, rto: byte, parsed: Parsed, reply: AppReply)
    requires WebInv(n, request) && Small(n.net) && reply.Valid()
    requires WebReceive(n, n', request, s, rto, parsed, reply)
    ensures WebInv(n', request)
  {
    var a, o := n.net.a, Receive(n.net.a.conn, s, rto, reply);
    SizeStays(n.net, s, rto, reply);
    ReceiveReaction(a.conn, n.web, a.iss, request, s, rto, parsed, n'.web, reply);
    ClientIsOkay(a, n.web, request, n.net.b.iss, o, parsed, n'.web, reply);
    ReceiveStepInv(n.net, n'.net, s, rto, reply);
    RecordsRequest(a, n.web, request, n.net.b.iss, o, Some(s), n'.web);
  }

  lemma WebStepInv(n: WebNet, n': WebNet, request: seq<byte>)
    requires WebInv(n, request) && Small(n.net) && WebStep(n, n', request)
    ensures WebInv(n', request)
  {
    if parsed, reply: AppReply :| reply.Valid() && WebTick(n, n', request, parsed, reply) {
      WebTickInv(n, n', request, parsed, reply);
    } else if s, rto: byte, parsed, reply: AppReply :|
        reply.Valid() && WebReceive(n, n', request, s, rto, parsed, reply) {
      WebReceiveInv(n, n', request, s, rto, parsed, reply);
    } else if n'.web == n.web && exists s :: RefuseStep(n.net, n'.net, s) {
      var s :| RefuseStep(n.net, n'.net, s);
      RefuseStepInv(n.net, n'.net, s);
    } else {
      StepOfAInv(Swapped(n.net), Swapped(n'.net));
    }
  }

  lemma WebInitInv(n: WebNet, request: seq<byte>)
    requires Init(n.net) && n.net.a.active && n.web.ptr == 0 && n.web.left == |request| < 0x1_0000
    ensures WebInv(n, request)
  {
    InitInv(n.net);
  }

  lemma {:induction false} WebRunInv(states: seq<WebNet>, request: seq<byte>, k: nat)
    requires WebRun(states, request) && k < |states| && forall n :: n in states ==> Small(n.net)
    ensures WebInv(states[k], request)
  {
    if k == 0 {
      WebInitInv(states[0], request);
    } else {
      WebRunInv(states, request, k - 1);
      WebStepInv(states[k - 1], states[k], request);
    }
  }

  /**
   The server is given exactly the beginning of the request, and the whole request once the
   client sees nothing left, however the network cuts, repeats, loses and reorders it.
   */
  lemma RequestIsDelivered(states: seq<WebNet>, request: seq<byte>)
    requires WebRun(states, request) && forall n :: n in states ==> Small(n.net)
    ensures
      var n := states[|states| - 1];
      && n.net.b.delivered <= n.net.b.received <= request
      && n.web.ptr <= |n.net.b.received|
      && (n.web.left == 0 ==> n.net.b.received == request)
      && (n.web.left == 0 && !n.net.b.finSent ==> n.net.b.delivered == request)
  {
    WebRunInv(states, request, |states| - 1);
  }
}
