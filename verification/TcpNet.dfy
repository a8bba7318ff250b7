/**
 Two uIP endpoints, one opening actively and one passively, and a network between them that
 loses, duplicates, delays and reorders segments: everything ever sent may arrive at any
 later time, any number of times, or never.
 */
module TcpNet {
  import opened Bytes
  import opened Wrappers
  import opened Tcp
  import opened UipOpt

  /** A connection with its history. */
  datatype Endpoint = Endpoint(
    conn: Conn,
    active: bool,
    started: bool,           // it has left the initial state
    iss: u32,
    out: seq<byte>,         // what its application has handed over for sending
    acked: nat,             // how much of that has been acknowledged
    received: seq<byte>,    // what has been taken over from the peer, in sequence
    delivered: seq<byte>,   // what its application has been given
    synced: bool,           // it knows the peer's initial sequence number
    finSent: bool,
    finRcvd: bool)

  datatype Net = Net(a: Endpoint, b: Endpoint, ab: set<Segment>, ba: set<Segment>)

  function Swapped(g: Net): Net { Net(g.b, g.a, g.ba, g.ab) }

  // ---------- History ----------

  predicate Synchronized(state: State) { state != Closed && state != SynSent }

  predicate AfterFin(state: State) { state == Closing || state == TimeWait || state == LastAck }

  predicate Closes(state: State) { state == FinWait1 || state == FinWait2 || AfterFin(state) }

  /** The bytes of an incoming segment that the connection has taken over. */
  function TakenOver(before: Conn, after: Conn, s: Option<Segment>): seq<byte> {
    if s.Some? && before.state != SynSent && after.rcvNxt != before.rcvNxt then s.value.data else []
  }

  function NewlyAcked(before: Conn, event: Option<AppEvent>): nat {
    if before.state == Established && event.Some? && event.value.acked then before.len else 0
  }

  /** The bytes that have been put in flight for the first time. */
  function NewlySent(before: Conn, o: Outcome): seq<byte> {
    if o.conn.state == Established && o.conn.len > 0 && o.out.Some? && o.event.Some?
       && (before.state != Established || before.len == 0 || o.event.value.acked)
    then o.out.value.data else []
  }

  function Given(event: Option<AppEvent>): seq<byte> {
    if event.Some? && event.value.newdata then event.value.data else []
  }

  function Record(e: Endpoint, o: Outcome, s: Option<Segment>): Endpoint {
    e.(conn := o.conn,
       started := true,
       out := e.out + NewlySent(e.conn, o),
       acked := e.acked + NewlyAcked(e.conn, o.event),
       received := e.received + TakenOver(e.conn, o.conn, s),
       delivered := e.delivered + Given(o.event),
       synced := e.synced || Synchronized(o.conn.state) || (o.event.Some? && o.event.value.connected),
       finSent := e.finSent || Closes(o.conn.state),
       finRcvd := e.finRcvd || AfterFin(o.conn.state))
  }

  // ---------- Steps ----------

  /**
   What is asked of an application: a buffer for a segment; the unacknowledged bytes again when
   it answers while some are in flight; and `uip_close` only when nothing is in flight.
   */
  predicate AppOkay(e: Endpoint, event: Option<AppEvent>, reply: AppReply) {
    reply.Valid() && (event.Some? && !event.value.acked ==> MayAnswer(e, reply))
  }

  predicate MayAnswer(e: Endpoint, reply: AppReply) {
    e.conn.state == Established && e.conn.len > 0 ==>
      && (reply.slen > 0 ==> e.acked <= |e.out| && e.out[e.acked..] <= reply.buffer)
      && reply.action != Close
  }

  function Sent(net: set<Segment>, out: Option<Segment>): set<Segment> {
    if out.Some? then net + {out.value} else net
  }

  predicate TickMove(g: Net, g': Net, reply: AppReply)
    requires ConnInv(g.a.conn) && reply.Valid()
  {
    var o := Tick(g.a.conn, reply);
    && g.a.conn.state != Closed
    && g' == g.(a := Record(g.a, o, None), ab := Sent(g.ab, o.out))
  }

  predicate ReceiveMove(g: Net, g': Net, s: Segment, rto: byte, reply: AppReply)
    requires ConnInv(g.a.conn) && reply.Valid()
  {
    var o := Receive(g.a.conn, s, rto, reply);
    && g.a.conn.state != Closed
    && s in g.ba
    && g' == g.(a := Record(g.a, o, Some(s)), ab := Sent(g.ab, o.out))
  }

  predicate TickStep(g: Net, g': Net, reply: AppReply)
    requires ConnInv(g.a.conn) && reply.Valid()
  {
    TickMove(g, g', reply) && AppOkay(g.a, Tick(g.a.conn, reply).event, reply)
  }

  predicate ReceiveStep(g: Net, g': Net, s: Segment, rto: byte, reply: AppReply)
    requires ConnInv(g.a.conn) && reply.Valid()
  {
    ReceiveMove(g, g', s, rto, reply) && AppOkay(g.a, Receive(g.a.conn, s, rto, reply).event, reply)
  }

  /** A SYN that finds the listening side still unused. */
  predicate AcceptStep(g: Net, g': Net, s: Segment)
    requires ConnInv(g.a.conn)
  {
    var c := g.a.conn;
    var c1 := PassiveOpen(c, g.a.iss, c.lport, c.rport, c.ripaddr, s);
    && s in g.ba && s.IsSyn() && !g.a.active && !g.a.started
    && g' == g.(a := Record(g.a, Outcome(c1, None, None), None), ab := g.ab + {SynAckPacket(c1)})
  }

  /** A segment that finds no connection. */
  predicate RefuseStep(g: Net, g': Net, s: Segment) {
    && s in g.ba && g.a.conn.state == Closed && (g.a.started || !s.IsSyn())
    && g' == g.(ab := Sent(g.ab, ResetAnswer(s)))
  }

  ghost predicate StepOfA(g: Net, g': Net) {
    && ConnInv(g.a.conn)
    && ( || (exists reply: AppReply :: reply.Valid() && TickStep(g, g', reply))
         || (exists s, rto: byte, reply: AppReply :: reply.Valid() && ReceiveStep(g, g', s, rto, reply))
         || (exists s :: AcceptStep(g, g', s))
         || (exists s :: RefuseStep(g, g', s)))
  }

  ghost predicate Step(g: Net, g': Net) {
    StepOfA(g, g') || StepOfA(Swapped(g), Swapped(g'))
  }

  /** An endpoint before anything has happened. */
  predicate Pristine(e: Endpoint) {
    && ConnInv(e.conn)
    && e.out == [] && e.acked == 0 && e.received == [] && e.delivered == []
    && !e.synced && !e.finSent && !e.finRcvd
    && e.started == e.active
    && (if e.active
        then e.conn.state == SynSent && e.conn.sndNxt == e.iss && e.conn.mss == e.conn.initialMss == UIP_TCP_MSS
        else e.conn.state == Closed)
  }

  /** One side has called `uip_connect`, the other one listens. */
  predicate Init(g: Net) {
    && Pristine(g.a) && Pristine(g.b) && g.a.active != g.b.active
    && g.ab == {} && g.ba == {}
  }

  ghost predicate Run(states: seq<Net>) {
    && |states| > 0 && Init(states[0])
    && forall i :: 0 <= i < |states| - 1 ==> Step(states[i], states[i + 1])
  }

  const LIMIT := 0xffff_fff0

  /** So few bytes have been sent that sequence numbers have not come around. */
  predicate Small(g: Net) {
    |g.a.out| < LIMIT && |g.b.out| < LIMIT
  }

  // ---------- The invariant ----------

  function SeqOf(iss: u32, k: nat): u32 { (iss + k) % 0x1_0000_0000 }

  /** How far an endpoint has sent, from its initial sequence number, not counting what is in flight. */
  function SendOffset(e: Endpoint): nat {
    match e.conn.state
    case SynSent => 0
    case SynRcvd => 0
    case FinWait2 => 2 + |e.out|
    case TimeWait => 2 + |e.out|
    case _ => 1 + e.acked
  }

  /** How far it has received, from the peer's initial sequence number. */
  function RecvOffset(e: Endpoint): nat {
    1 + |e.received| + if e.finRcvd then 1 else 0
  }

  predicate LocalInv(e: Endpoint, peerIss: u32) {
    && ConnInv(e.conn)
    && e.acked <= |e.out|
    && e.delivered <= e.received
    && (e.conn.state != Closed ==>
          && e.conn.sndNxt == SeqOf(e.iss, SendOffset(e))
          && e.conn.mss == e.conn.initialMss == UIP_TCP_MSS)
    && (Synchronized(e.conn.state) ==> e.synced && e.conn.rcvNxt == SeqOf(peerIss, RecvOffset(e)))
    && (e.conn.state == SynSent ==> e.active && !e.synced)
    && (e.conn.state == SynRcvd ==> !e.active)
    && (e.conn.state == SynSent || e.conn.state == SynRcvd || !e.synced ==>
          e.out == [] && e.received == [] && !e.finSent && !e.finRcvd)
    && (e.conn.state == Established ==> !e.finSent && !e.finRcvd && e.acked + e.conn.len == |e.out|)
    && (Closes(e.conn.state) ==> e.finSent && e.acked == |e.out| && e.finRcvd == AfterFin(e.conn.state))
    && (!e.finSent || e.conn.state == LastAck ==> e.delivered == e.received)
    && (e.active || e.conn.state != Closed ==> e.started)
    && (!e.started ==> !e.synced)
  }

  /** From the sending endpoint `x` to the receiving endpoint `y`. */
  predicate StreamInv(x: Endpoint, y: Endpoint) {
    && y.received <= x.out
    && x.acked <= |y.received|
    && (y.finRcvd ==> x.finSent && y.received == x.out)
    && (x.conn.state == FinWait2 || x.conn.state == TimeWait ==> y.finRcvd)
    && (y.active && !y.synced ==>
          x.out == [] && !x.finSent && (x.conn.state == Closed || x.conn.state == SynRcvd))
  }

  /** The acknowledgment number of `s`, sent by `x`, covers something that `x` has taken over from its peer. */
  ghost predicate AckCovers(x: Endpoint, peerIss: u32, s: Segment) {
    x.synced && exists j: nat :: 1 <= j <= RecvOffset(x) && s.ackno == SeqOf(peerIss, j)
  }

  /** The sequence number and data of `s` are a piece of the stream of `x`. */
  ghost predicate PieceOf(x: Endpoint, s: Segment) {
    exists k: nat :: PieceAt(x, s, k)
  }

  predicate PieceAt(x: Endpoint, s: Segment, k: nat) {
    && k + |s.data| <= |x.out|
    && s.seqno == SeqOf(x.iss, 1 + k)
    && s.data == x.out[k..k + |s.data|]
    && (s.fin ==> x.finSent && s.data == [] && k == |x.out|)
  }

  ghost predicate SegmentInv(x: Endpoint, peerIss: u32, s: Segment) {
    s.rst ||
    (&& s.wnd == UIP_RECEIVE_WINDOW
     && (s.syn ==>
           && s.seqno == x.iss && s.data == [] && !s.fin && !s.psh && s.ack == !x.active
           && s.mssOption == Some(UIP_TCP_MSS))
     && (s.ack ==> AckCovers(x, peerIss, s))
     && (!s.ack ==> s.syn)
     && (!s.syn && (s.data != [] || s.fin) ==> PieceOf(x, s)))
  }

  ghost predicate TrafficInv(x: Endpoint, peerIss: u32, net: set<Segment>) {
    forall s :: s in net ==> SegmentInv(x, peerIss, s)
  }

  ghost predicate DirectionInv(x: Endpoint, y: Endpoint, net: set<Segment>) {
    LocalInv(x, y.iss) && StreamInv(x, y) && TrafficInv(x, y.iss, net)
  }

  ghost predicate Inv(g: Net) {
    && g.a.active != g.b.active
    && DirectionInv(g.a, g.b, g.ab)
    && DirectionInv(g.b, g.a, g.ba)
  }

  lemma InitInv(g: Net)
    requires Init(g)
    ensures Inv(g)
  {
  }

  // ---------- What has been said stays true ----------

  /** `x'` has the history of `x` and perhaps more. */
  predicate Extends(x: Endpoint, x': Endpoint) {
    && x'.iss == x.iss && x'.active == x.active
    && x.out <= x'.out
    && (x.synced ==> x'.synced) && RecvOffset(x) <= RecvOffset(x')
    && (x.finSent ==> x'.finSent && x'.out == x.out)
  }

  lemma PieceStays(x: Endpoint, x': Endpoint, s: Segment)
    requires Extends(x, x') && PieceOf(x, s)
    ensures PieceOf(x', s)
  {
    var k: nat :| PieceAt(x, s, k);
    assert x'.out[..|x.out|] == x.out;
    assert PieceAt(x', s, k);
  }

  lemma SegmentStays(x: Endpoint, x': Endpoint, peerIss: u32, s: Segment)
    requires Extends(x, x') && SegmentInv(x, peerIss, s)
    ensures SegmentInv(x', peerIss, s)
  {
    if !s.rst && !s.syn && (s.data != [] || s.fin) {
      PieceStays(x, x', s);
    }
  }

  lemma TrafficStays(x: Endpoint, x': Endpoint, peerIss: u32, net: set<Segment>, out: Option<Segment>)
    requires Extends(x, x') && TrafficInv(x, peerIss, net)
    requires out.Some? ==> SegmentInv(x', peerIss, out.value)
    ensures TrafficInv(x', peerIss, Sent(net, out))
  {
    forall s | s in Sent(net, out) ensures SegmentInv(x', peerIss, s) {
      if s in net {
        SegmentStays(x, x', peerIss, s);
      }
    }
  }

  // ---------- Packets sent ----------

  /** Packets without data or FIN acknowledge what has been received. */
  lemma AckSegmentInv(e: Endpoint, peerIss: u32)
    requires LocalInv(e, peerIss) && Synchronized(e.conn.state)
    ensures SegmentInv(e, peerIss, AckPacket(e.conn))
    ensures e.conn.state == SynRcvd ==> SegmentInv(e, peerIss, SynAckPacket(e.conn))
    ensures Closes(e.conn.state) && e.conn.len == 1 ==> SegmentInv(e, peerIss, FinAckPacket(e.conn))
  {
    assert AckCovers(e, peerIss, AckPacket(e.conn)) by {
      assert e.conn.rcvNxt == SeqOf(peerIss, RecvOffset(e));
    }
    if Closes(e.conn.state) && e.conn.len == 1 {
      assert PieceAt(e, FinAckPacket(e.conn), |e.out|);
    }
  }

  /** A data packet carries the bytes in flight. */
  lemma DataSegmentInv(e: Endpoint, peerIss: u32, data: seq<byte>)
    requires LocalInv(e, peerIss) && e.conn.state == Established
    requires data == e.out[e.acked..]
    ensures SegmentInv(e, peerIss, DataPacket(e.conn, data))
  {
    AckSegmentInv(e, peerIss);
    assert PieceAt(e, DataPacket(e.conn, data), e.acked);
    assert AckCovers(e, peerIss, DataPacket(e.conn, data)) by {
      assert AckCovers(e, peerIss, AckPacket(e.conn));
    }
  }

  // ---------- The answer of the application ----------

  function FirstSent(c: Conn, o: Outcome): seq<byte> {
    if o.conn.state == Established && o.conn.len > 0 && o.out.Some? && c.len == 0 then o.out.value.data else []
  }

  function Answered(e: Endpoint, o: Outcome): Endpoint {
    e.(conn := o.conn, out := e.out + FirstSent(e.conn, o), finSent := e.finSent || Closes(o.conn.state))
  }

  lemma AnswerInv(e: Endpoint, peerIss: u32, event: AppEvent, reply: AppReply)
    requires LocalInv(e, peerIss) && e.conn.state == Established && reply.Valid() && MayAnswer(e, reply)
    requires event.acked ==> e.conn.len == 0
    ensures
      var o := AppSend(e.conn, event, reply);
      var e' := Answered(e, o);
      && LocalInv(e', peerIss) && Extends(e, e')
      && (o.out.Some? ==> SegmentInv(e', peerIss, o.out.value))
      && (o.conn.state == Closed || o.conn.state == FinWait1 || o.conn.state == Established)
  {
    var c := e.conn;
    var o := AppSend(c, event, reply);
    var e' := Answered(e, o);
    AppSendKeeps(c, event, reply);
    match reply.action
    case Abort =>
    case Close =>
      AckSegmentInv(e', peerIss);
    case Continue =>
      if reply.slen > 0 && o.conn.len > 0 {
        if c.len > 0 {
          assert e.out[e.acked..] == reply.buffer[..c.len];
        } else {
          assert e'.out[e'.acked..] == reply.buffer[..o.conn.len];
        }
        DataSegmentInv(e', peerIss, reply.buffer[..o.conn.len]);
      } else {
        assert e'.out == e.out;
        AckSegmentInv(e', peerIss);
      }
  }

  // ---------- What an arriving segment means ----------

  ghost predicate Context(x: Endpoint, y: Endpoint) {
    && x.active != y.active
    && LocalInv(x, y.iss) && LocalInv(y, x.iss)
    && StreamInv(x, y) && StreamInv(y, x)
    && |x.out| < LIMIT && |y.out| < LIMIT
  }

  ghost predicate Advanced(x: Endpoint, x': Endpoint, y: Endpoint, out: Option<Segment>) {
    && LocalInv(x', y.iss) && Extends(x, x')
    && StreamInv(x', y) && StreamInv(y, x')
    && (out.Some? ==> SegmentInv(x', y.iss, out.value))
  }

  lemma SeqUnique(iss: u32, a: nat, b: nat)
    requires a < 0x1_0000_0000 && b < 0x1_0000_0000 && SeqOf(iss, a) == SeqOf(iss, b)
    ensures a == b
  {
  }

  lemma SeqAdd(iss: u32, a: nat, n: nat)
    ensures Add32(SeqOf(iss, a), n) == SeqOf(iss, a + n)
  {
  }

  /** A segment with data or FIN that passes the sequence check is the next piece of the peer's stream. */
  lemma NextPiece(x: Endpoint, y: Endpoint, s: Segment)
    requires Context(x, y) && Synchronized(x.conn.state)
    requires SegmentInv(y, x.iss, s) && !s.rst && !Unexpected(x.conn, s)
    requires s.data != [] || s.syn || s.fin
    ensures !s.syn && !x.finRcvd
    ensures |x.received| + |s.data| <= |y.out|
    ensures x.received + s.data == y.out[..|x.received| + |s.data|]
    ensures s.fin ==> y.finSent && s.data == [] && x.received == y.out
  {
    if s.syn {
      SeqUnique(y.iss, 0, RecvOffset(x));
      assert false;
    }
    var k: nat :| PieceAt(y, s, k);
    PieceOffset(x, y, s, k);
    PieceContinues(x.received, y.out, s.data);
  }

  /** A piece that passes the sequence check begins where the received part of the stream ends. */
  lemma PieceOffset(x: Endpoint, y: Endpoint, s: Segment, k: nat)
    requires LocalInv(x, y.iss) && Synchronized(x.conn.state) && |y.out| < LIMIT
    requires x.received <= y.out && (x.finRcvd ==> x.received == y.out)
    requires PieceAt(y, s, k) && s.seqno == x.conn.rcvNxt
    ensures k == |x.received| && !x.finRcvd
  {
    SeqUnique(y.iss, 1 + k, RecvOffset(x));
  }

  lemma PieceContinues(received: seq<byte>, out: seq<byte>, data: seq<byte>)
    requires received <= out && |received| + |data| <= |out|
    requires data == out[|received|..|received| + |data|]
    ensures received + data == out[..|received| + |data|]
  {
    assert received == out[..|received|];
  }

  /** An acknowledgment that matches means that the peer has taken over what was in flight. */
  lemma AckMeans(x: Endpoint, y: Endpoint, s: Segment)
    requires Context(x, y) && x.conn.state != Closed
    requires SegmentInv(y, x.iss, s) && !s.rst && Acknowledges(x.conn, s)
    ensures y.synced && SendOffset(x) + x.conn.len <= RecvOffset(y)
  {
    var j: nat :| 1 <= j <= RecvOffset(y) && s.ackno == SeqOf(x.iss, j);
    SeqAdd(x.iss, SendOffset(x), x.conn.len);
    SeqUnique(x.iss, j, SendOffset(x) + x.conn.len);
  }

  // ---------- Every step keeps the invariant ----------

  /** A step that leaves the history alone. */
  lemma HistoryKept(x: Endpoint, y: Endpoint, c: Conn, out: Option<Segment>)
    requires Context(x, y) && LocalInv(x.(conn := c), y.iss)
    requires c.state == Closed || c.state == x.conn.state
    requires out.Some? ==> SegmentInv(x.(conn := c), y.iss, out.value)
    ensures Advanced(x, x.(conn := c), y, out)
  {
  }

  /** The connection with its timers changed. */
  lemma TimersKept(x: Endpoint, peerIss: u32, c: Conn)
    requires LocalInv(x, peerIss) && ConnInv(c)
    requires c == x.conn.(timer := c.timer, nrtx := c.nrtx, state := c.state)
    requires c.state == Closed || c.state == x.conn.state
    ensures LocalInv(x.(conn := c), peerIss)
  {
  }

  lemma RetransmitInv(x: Endpoint, peerIss: u32, reply: AppReply)
    requires LocalInv(x, peerIss) && x.conn.len > 0 && x.conn.state != Closed && reply.Valid() && MayAnswer(x, reply)
    ensures
      var out := Retransmit(x.conn, reply).out;
      out.Some? ==> SegmentInv(x, peerIss, out.value)
  {
    if Synchronized(x.conn.state) {
      AckSegmentInv(x, peerIss);
      if x.conn.state == Established && reply.slen > 0 {
        assert x.out[x.acked..] == reply.buffer[..x.conn.len];
        DataSegmentInv(x, peerIss, reply.buffer[..x.conn.len]);
      }
    }
  }

  lemma PollAdvances(x: Endpoint, y: Endpoint, reply: AppReply)
    requires Context(x, y) && x.conn.state == Established && x.conn.len == 0 && reply.Valid()
    ensures
      var o := Tick(x.conn, reply);
      Advanced(x, Record(x, o, None), y, o.out)
  {
    AnswerInv(x, y.iss, QUIET.(poll := true), reply);
    assert Record(x, Tick(x.conn, reply), None) == Answered(x, Tick(x.conn, reply));
  }

  /** The timer changes nothing but timers, unless it polls the application or gives the connection up. */
  lemma TimerOutcome(x: Endpoint, reply: AppReply)
    requires ConnInv(x.conn) && x.conn.state != Closed && !(x.conn.state == Established && x.conn.len == 0)
    requires reply.Valid() && x.started && (Synchronized(x.conn.state) ==> x.synced)
    requires Closes(x.conn.state) ==> x.finSent && x.finRcvd == AfterFin(x.conn.state)
    ensures
      var o := Tick(x.conn, reply);
      && o.conn == x.conn.(timer := o.conn.timer, nrtx := o.conn.nrtx, state := o.conn.state)
      && (o.conn.state == Closed || o.conn.state == x.conn.state)
      && Record(x, o, None) == x.(conn := o.conn)
      && (o.out.Some? ==>
            if o.conn.state == Closed then o.out.value.rst
            else x.conn.len > 0 && o.out == Retransmit(o.conn, reply).out)
  {
    TimerConn(x.conn, reply);
    TimerRecord(x, Tick(x.conn, reply));
  }

  lemma TimerConn(c: Conn, reply: AppReply)
    requires ConnInv(c) && c.state != Closed && !(c.state == Established && c.len == 0) && reply.Valid()
    ensures
      var o := Tick(c, reply);
      && o.conn == c.(timer := o.conn.timer, nrtx := o.conn.nrtx, state := o.conn.state)
      && (o.conn.state == Closed || o.conn.state == c.state)
      && NewlySent(c, o) == [] && NewlyAcked(c, o.event) == 0 && Given(o.event) == []
      && (o.event.Some? ==> !o.event.value.connected)
      && (o.out.Some? ==>
            if o.conn.state == Closed then o.out.value.rst
            else c.len > 0 && o.out == Retransmit(o.conn, reply).out)
  {
  }

  lemma TimerRecord(x: Endpoint, o: Outcome)
    requires x.started && (Synchronized(x.conn.state) ==> x.synced)
    requires Closes(x.conn.state) ==> x.finSent && x.finRcvd == AfterFin(x.conn.state)
    requires o.conn.state == Closed || o.conn.state == x.conn.state
    requires NewlySent(x.conn, o) == [] && NewlyAcked(x.conn, o.event) == 0 && Given(o.event) == []
    requires o.event.Some? ==> !o.event.value.connected
    ensures Record(x, o, None) == x.(conn := o.conn)
  {
    assert x.received + [] == x.received && x.delivered + [] == x.delivered && x.out + [] == x.out;
  }

  lemma TimerAdvances(x: Endpoint, y: Endpoint, reply: AppReply)
    requires Context(x, y) && x.conn.state != Closed && !(x.conn.state == Established && x.conn.len == 0)
    requires reply.Valid() && AppOkay(x, Tick(x.conn, reply).event, reply)
    ensures
      var o := Tick(x.conn, reply);
      Advanced(x, Record(x, o, None), y, o.out)
  {
    var o := Tick(x.conn, reply);
    TickKeeps(x.conn, reply);
    TimerOutcome(x, reply);
    TimerStep(x, y, reply, o.conn, o.out);
  }

  lemma TimerStep(x: Endpoint, y: Endpoint, reply: AppReply, c: Conn, out: Option<Segment>)
    requires Context(x, y) && x.conn.state != Closed && reply.Valid()
    requires out.Some? && c.state != Closed ==> MayAnswer(x, reply)
    requires ConnInv(c) && c == x.conn.(timer := c.timer, nrtx := c.nrtx, state := c.state)
    requires c.state == Closed || c.state == x.conn.state
    requires out.Some? ==>
      if c.state == Closed then out.value.rst else x.conn.len > 0 && out == Retransmit(c, reply).out
    ensures Advanced(x, x.(conn := c), y, out)
  {
    TimersKept(x, y.iss, c);
    if out.Some? && c.state != Closed {
      RetransmitInv(x.(conn := c), y.iss, reply);
    }
    HistoryKept(x, y, c, out);
  }

  lemma TickAdvances(x: Endpoint, y: Endpoint, reply: AppReply)
    requires Context(x, y) && x.conn.state != Closed
    requires reply.Valid() && AppOkay(x, Tick(x.conn, reply).event, reply)
    ensures
      var o := Tick(x.conn, reply);
      Advanced(x, Record(x, o, None), y, o.out)
  {
    if x.conn.state == Established && x.conn.len == 0 {
      PollAdvances(x, y, reply);
    } else {
      TimerAdvances(x, y, reply);
    }
  }

  /** The connection after the acknowledgment in `s`, if it is one. */
  function AckedConn(c: Conn, s: Segment, rto: byte): Conn {
    if Acknowledges(c, s) then AfterAck(c, rto) else c
  }

  /** The endpoint once the data of `s` has been taken over and given to the application. */
  function Absorbed(e: Endpoint, c: Conn, s: Segment): Endpoint {
    e.(conn := c, started := true, synced := true,
       received := e.received + s.data, delivered := e.delivered + s.data)
  }

  lemma TakenOverAll(before: Conn, after: Conn, s: Segment)
    requires before.state != SynSent && after.rcvNxt == Add32(before.rcvNxt, |s.data|) && |s.data| < LIMIT
    ensures TakenOver(before, after, Some(s)) == s.data
  {
  }

  /** After the connection has taken in what the segment brings, the application answers. */
  lemma AnswerAdvances(x: Endpoint, e: Endpoint, y: Endpoint, event: AppEvent, reply: AppReply)
    requires Advanced(x, e, y, None) && e.conn.state == Established && reply.Valid() && MayAnswer(e, reply)
    requires event.acked ==> e.conn.len == 0
    requires y.active ==> y.synced
    ensures
      var o := AppSend(e.conn, event, reply);
      Advanced(x, Answered(e, o), y, o.out)
  {
    AnswerInv(e, y.iss, event, reply);
  }

  lemma SynRcvdTakesIn(x: Endpoint, y: Endpoint, s: Segment, rto: byte)
    requires Context(x, y) && x.conn.state == SynRcvd && SegmentInv(y, x.iss, s)
    requires !s.rst && !Unexpected(x.conn, s) && Acknowledges(x.conn, s)
    ensures Advanced(x, ConnectionTaken(x, s, rto), y, None) && |s.data| < LIMIT && y.synced
  {
    AckMeans(x, y, s);
    if s.data != [] {
      NextPiece(x, y, s);
    }
    SeqAdd(x.iss, 0, 1);
    SeqAdd(y.iss, RecvOffset(x), |s.data|);
  }

  /** The endpoint after the acknowledgment of its SYNACK, before the application answers. */
  function ConnectionTaken(x: Endpoint, s: Segment, rto: byte): Endpoint {
    Absorbed(x, AfterAck(x.conn, rto).(state := Established, rcvNxt := Add32(x.conn.rcvNxt, |s.data|)), s)
  }

  lemma RecordSynRcvd(x: Endpoint, s: Segment, rto: byte, reply: AppReply)
    requires ConnInv(x.conn) && x.conn.state == SynRcvd && reply.Valid() && |s.data| < LIMIT
    requires Acknowledges(x.conn, s)
    ensures
      var o, e := InSynRcvd(AfterAck(x.conn, rto), s, true, reply), ConnectionTaken(x, s, rto);
      && o == AppSend(e.conn, QUIET.(connected := true, newdata := s.data != [], data := s.data), reply)
      && Record(x, o, Some(s)) == Answered(e, o)
  {
    var o := InSynRcvd(AfterAck(x.conn, rto), s, true, reply);
    TakenOverAll(x.conn, o.conn, s);
    assert Given(o.event) == s.data;
  }

  lemma SynRcvdConnects(x: Endpoint, y: Endpoint, s: Segment, rto: byte, reply: AppReply)
    requires Context(x, y) && x.conn.state == SynRcvd && SegmentInv(y, x.iss, s)
    requires !s.rst && !Unexpected(x.conn, s) && Acknowledges(x.conn, s) && reply.Valid()
    ensures
      var o := InSynRcvd(AfterAck(x.conn, rto), s, true, reply);
      Advanced(x, Record(x, o, Some(s)), y, o.out)
  {
    SynRcvdTakesIn(x, y, s, rto);
    RecordSynRcvd(x, s, rto, reply);
    var event := QUIET.(connected := true, newdata := s.data != [], data := s.data);
    AnswerAdvances(x, ConnectionTaken(x, s, rto), y, event, reply);
  }

  lemma SynRcvdWaits(x: Endpoint, y: Endpoint, s: Segment)
    requires Context(x, y) && x.conn.state == SynRcvd
    ensures Advanced(x, Record(x, Outcome(x.conn, None, None), Some(s)), y, None)
  {
    assert x.received + [] == x.received && x.delivered + [] == x.delivered && x.out + [] == x.out;
    assert Record(x, Outcome(x.conn, None, None), Some(s)) == x.(conn := x.conn);
    HistoryKept(x, y, x.conn, None);
  }

  lemma SynRcvdAdvances(x: Endpoint, y: Endpoint, s: Segment, rto: byte, reply: AppReply)
    requires Context(x, y) && x.conn.state == SynRcvd && SegmentInv(y, x.iss, s)
    requires !s.rst && !Unexpected(x.conn, s) && reply.Valid()
    ensures
      var o := InSynRcvd(AckedConn(x.conn, s, rto), s, Acknowledges(x.conn, s), reply);
      Advanced(x, Record(x, o, Some(s)), y, o.out)
  {
    if Acknowledges(x.conn, s) {
      SynRcvdConnects(x, y, s, rto, reply);
    } else {
      SynRcvdWaits(x, y, s);
    }
  }

  lemma SynSentTakesIn(x: Endpoint, y: Endpoint, s: Segment, rto: byte)
    requires Context(x, y) && x.conn.state == SynSent && SegmentInv(y, x.iss, s)
    requires !s.rst && Acknowledges(x.conn, s) && s.IsSynAck()
    ensures Advanced(x, SynAckTaken(x, s, rto), y, None) && y.synced
  {
    AckMeans(x, y, s);
    SeqAdd(x.iss, 0, 1);
    SeqAdd(y.iss, 0, 1);
  }

  /** The endpoint after the SYNACK, before the application answers. */
  function SynAckTaken(x: Endpoint, s: Segment, rto: byte): Endpoint {
    var c := OfferedMss(AfterAck(x.conn, rto), s).(state := Established, rcvNxt := Add32(s.seqno, 1));
    x.(conn := c, synced := true)
  }

  lemma RecordSynAck(x: Endpoint, s: Segment, rto: byte, reply: AppReply)
    requires ConnInv(x.conn) && x.conn.state == SynSent && x.started && reply.Valid()
    requires Acknowledges(x.conn, s) && s.IsSynAck()
    ensures
      var o, e := InSynSent(AfterAck(x.conn, rto), s, true, reply), SynAckTaken(x, s, rto);
      && o == AppSend(e.conn, QUIET.(connected := true, newdata := true), reply)
      && Record(x, o, Some(s)) == Answered(e, o)
  {
    assert x.received + [] == x.received && x.delivered + [] == x.delivered;
  }

  lemma SynAckAdvances(x: Endpoint, y: Endpoint, s: Segment, rto: byte, reply: AppReply)
    requires Context(x, y) && x.conn.state == SynSent && SegmentInv(y, x.iss, s)
    requires !s.rst && Acknowledges(x.conn, s) && s.IsSynAck() && reply.Valid()
    ensures
      var o := InSynSent(AfterAck(x.conn, rto), s, true, reply);
      Advanced(x, Record(x, o, Some(s)), y, o.out)
  {
    SynSentTakesIn(x, y, s, rto);
    RecordSynAck(x, s, rto, reply);
    AnswerAdvances(x, SynAckTaken(x, s, rto), y, QUIET.(connected := true, newdata := true), reply);
  }

  lemma SynSentAborts(x: Endpoint, y: Endpoint, s: Segment, rto: byte, reply: AppReply)
    requires Context(x, y) && x.conn.state == SynSent && !s.rst && reply.Valid()
    requires !(Acknowledges(x.conn, s) && s.IsSynAck())
    ensures
      var o := InSynSent(AckedConn(x.conn, s, rto), s, Acknowledges(x.conn, s), reply);
      Advanced(x, Record(x, o, Some(s)), y, o.out)
  {
    var o := InSynSent(AckedConn(x.conn, s, rto), s, Acknowledges(x.conn, s), reply);
    assert x.received + [] == x.received && x.delivered + [] == x.delivered && x.out + [] == x.out;
    assert Record(x, o, Some(s)) == x.(conn := o.conn);
    HistoryKept(x, y, o.conn, o.out);
  }

  lemma SynSentAdvances(x: Endpoint, y: Endpoint, s: Segment, rto: byte, reply: AppReply)
    requires Context(x, y) && x.conn.state == SynSent && SegmentInv(y, x.iss, s)
    requires !s.rst && reply.Valid()
    ensures
      var o := InSynSent(AckedConn(x.conn, s, rto), s, Acknowledges(x.conn, s), reply);
      Advanced(x, Record(x, o, Some(s)), y, o.out)
  {
    if Acknowledges(x.conn, s) && s.IsSynAck() {
      SynAckAdvances(x, y, s, rto, reply);
    } else {
      SynSentAborts(x, y, s, rto, reply);
    }
  }

  /** While opening, nothing but a SYNACK is out of the ordinary: the peer has nothing to send yet. */
  lemma SynSentExpects(x: Endpoint, y: Endpoint, s: Segment)
    requires Context(x, y) && x.conn.state == SynSent && SegmentInv(y, x.iss, s) && !s.rst
    ensures !Unexpected(x.conn, s)
  {
  }

  /** An established endpoint after the acknowledgment in `s`. */
  function AckedBy(x: Endpoint, s: Segment, rto: byte): Endpoint {
    if Acknowledges(x.conn, s) then x.(conn := AfterAck(x.conn, rto), acked := x.acked + x.conn.len) else x
  }

  lemma EstablishedAcks(x: Endpoint, y: Endpoint, s: Segment, rto: byte)
    requires Context(x, y) && x.conn.state == Established && SegmentInv(y, x.iss, s) && !s.rst
    ensures
      var e := AckedBy(x, s, rto);
      Advanced(x, e, y, None) && Context(e, y)
  {
    if Acknowledges(x.conn, s) {
      AckMeans(x, y, s);
      SeqAdd(x.iss, 1 + x.acked, x.conn.len);
    }
  }

  lemma EstablishedTakesIn(x: Endpoint, e: Endpoint, y: Endpoint, s: Segment)
    requires Advanced(x, e, y, None) && Context(e, y) && e.conn.state == Established
    requires SegmentInv(y, e.iss, s) && !s.rst && !Unexpected(e.conn, s) && !s.fin
    ensures
      var c := e.conn.(rcvNxt := Add32(e.conn.rcvNxt, |s.data|), mss := WindowMss(e.conn, s.wnd));
      Advanced(x, Absorbed(e, c, s), y, None) && |s.data| < LIMIT
  {
    if s.data != [] {
      NextPiece(e, y, s);
    }
    SeqAdd(y.iss, RecvOffset(e), |s.data|);
  }

  /** The endpoint after the FIN of the peer, and after the data of another segment. */
  function FinTaken(e: Endpoint): Endpoint {
    var c := e.conn.(rcvNxt := Add32(e.conn.rcvNxt, 1), len := 1, state := LastAck, nrtx := 0);
    e.(conn := c, finSent := true, finRcvd := true)
  }

  lemma EstablishedFin(x: Endpoint, e: Endpoint, y: Endpoint, s: Segment)
    requires Advanced(x, e, y, None) && Context(e, y) && e.conn.state == Established && e.conn.len == 0
    requires SegmentInv(y, e.iss, s) && !s.rst && !Unexpected(e.conn, s) && s.fin
    ensures s.data == []
    ensures Advanced(x, FinTaken(e), y, Some(FinAckPacket(FinTaken(e).conn)))
  {
    NextPiece(e, y, s);
    SeqAdd(y.iss, RecvOffset(e), 1);
    AckSegmentInv(FinTaken(e), y.iss);
  }

  function DataTaken(e: Endpoint, s: Segment): Endpoint {
    Absorbed(e, e.conn.(rcvNxt := Add32(e.conn.rcvNxt, |s.data|), mss := WindowMss(e.conn, s.wnd)), s)
  }

  lemma RecordFin(x: Endpoint, s: Segment, rto: byte, reply: AppReply)
    requires ConnInv(x.conn) && x.conn.state == Established && x.started && x.synced && reply.Valid()
    requires !s.rst && !Unexpected(x.conn, s) && s.fin && s.data == []
    ensures
      var e := AckedBy(x, s, rto);
      var o := InEstablished(e.conn, s, Acknowledges(x.conn, s), reply);
      if e.conn.len == 0 then
        Record(x, o, Some(s)) == FinTaken(e) && o.out == Some(FinAckPacket(FinTaken(e).conn))
      else Record(x, o, Some(s)) == e && o.out == None
  {
    if AckedBy(x, s, rto).conn.len == 0 {
      RecordFinTaken(x, s, rto, reply);
    } else {
      assert x.received + [] == x.received && x.delivered + [] == x.delivered && x.out + [] == x.out;
    }
  }

  lemma RecordFinTaken(x: Endpoint, s: Segment, rto: byte, reply: AppReply)
    requires ConnInv(x.conn) && x.conn.state == Established && x.started && x.synced && reply.Valid()
    requires !s.rst && !Unexpected(x.conn, s) && s.fin && s.data == [] && AckedBy(x, s, rto).conn.len == 0
    ensures
      var e := AckedBy(x, s, rto);
      var o := InEstablished(e.conn, s, Acknowledges(x.conn, s), reply);
      Record(x, o, Some(s)) == FinTaken(e) && o.out == Some(FinAckPacket(FinTaken(e).conn))
  {
    assert x.received + [] == x.received && x.delivered + [] == x.delivered && x.out + [] == x.out;
  }

  lemma RecordData(x: Endpoint, s: Segment, rto: byte, reply: AppReply)
    requires ConnInv(x.conn) && x.conn.state == Established && x.started && x.synced && reply.Valid()
    requires !s.rst && !Unexpected(x.conn, s) && !s.fin && |s.data| < LIMIT
    ensures
      var acked, a := Acknowledges(x.conn, s), AckedBy(x, s, rto);
      var o, e := InEstablished(a.conn, s, acked, reply), DataTaken(a, s);
      if s.data != [] || acked then
        && o == AppSend(e.conn, QUIET.(acked := acked, newdata := s.data != [], data := s.data), reply)
        && Record(x, o, Some(s)) == Answered(e, o)
      else Record(x, o, Some(s)) == e && o.out == None
  {
    if s.data != [] || Acknowledges(x.conn, s) {
      RecordAnswered(x, s, rto, reply);
    } else {
      assert x.received + [] == x.received && x.delivered + [] == x.delivered && x.out + [] == x.out;
    }
  }

  /** The application is called. */
  lemma RecordAnswered(x: Endpoint, s: Segment, rto: byte, reply: AppReply)
    requires ConnInv(x.conn) && x.conn.state == Established && x.started && x.synced && reply.Valid()
    requires !s.rst && !Unexpected(x.conn, s) && !s.fin && |s.data| < LIMIT
    requires s.data != [] || Acknowledges(x.conn, s)
    ensures
      var acked, a := Acknowledges(x.conn, s), AckedBy(x, s, rto);
      var o, e := InEstablished(a.conn, s, acked, reply), DataTaken(a, s);
      && o == AppSend(e.conn, QUIET.(acked := acked, newdata := s.data != [], data := s.data), reply)
      && Record(x, o, Some(s)) == Answered(e, o)
  {
    var o := InEstablished(AckedBy(x, s, rto).conn, s, Acknowledges(x.conn, s), reply);
    TakenOverAll(x.conn, o.conn, s);
    assert NewlyAcked(x.conn, o.event) == if Acknowledges(x.conn, s) then x.conn.len else 0;
    assert Given(o.event) == s.data;
  }

  lemma EstablishedAdvances(x: Endpoint, y: Endpoint, s: Segment, rto: byte, reply: AppReply)
    requires Context(x, y) && x.conn.state == Established && SegmentInv(y, x.iss, s)
    requires !s.rst && !Unexpected(x.conn, s)
    requires reply.Valid()
    requires AppOkay(x, InEstablished(AckedConn(x.conn, s, rto), s, Acknowledges(x.conn, s), reply).event, reply)
    ensures
      var o := InEstablished(AckedConn(x.conn, s, rto), s, Acknowledges(x.conn, s), reply);
      Advanced(x, Record(x, o, Some(s)), y, o.out)
  {
    var acked, e := Acknowledges(x.conn, s), AckedBy(x, s, rto);
    EstablishedAcks(x, y, s, rto);
    if s.fin {
      NextPiece(e, y, s);
      RecordFin(x, s, rto, reply);
      if e.conn.len == 0 {
        EstablishedFin(x, e, y, s);
      }
    } else {
      EstablishedTakesIn(x, e, y, s);
      RecordData(x, s, rto, reply);
      if s.data != [] || acked {
        var event := QUIET.(acked := acked, newdata := s.data != [], data := s.data);
        AnswerAdvances(x, DataTaken(e, s), y, event, reply);
      }
    }
  }

  lemma FinWaitRecord(x: Endpoint, s: Segment, rto: byte)
    requires ConnInv(x.conn) && (x.conn.state == FinWait1 || x.conn.state == FinWait2)
    requires x.started && x.synced && x.finSent && !x.finRcvd
    requires !s.rst && !Unexpected(x.conn, s) && |s.data| < LIMIT && (s.fin ==> s.data == [])
    ensures
      var o := InFinWait(AckedConn(x.conn, s, rto), s, Acknowledges(x.conn, s));
      Record(x, o, Some(s)) == x.(conn := o.conn, received := x.received + s.data, finRcvd := s.fin)
  {
    var o := InFinWait(AckedConn(x.conn, s, rto), s, Acknowledges(x.conn, s));
    assert x.received + [] == x.received && x.delivered + [] == x.delivered && x.out + [] == x.out;
    if s.fin {
      assert o.conn.rcvNxt != x.conn.rcvNxt;
    } else {
      TakenOverAll(x.conn, o.conn, s);
    }
  }

  /** The endpoint in FIN_WAIT_1 or FIN_WAIT_2 after a segment, and the acknowledgment it sends. */
  lemma FinWaitHistory(x: Endpoint, y: Endpoint, x': Endpoint, s: Segment)
    requires Context(x, y) && (x.conn.state == FinWait1 || x.conn.state == FinWait2)
    requires SegmentInv(y, x.iss, s) && !s.rst && !Unexpected(x.conn, s)
    requires x' == x.(conn := x'.conn, received := x.received + s.data, finRcvd := s.fin)
    requires Closes(x'.conn.state) && x'.conn.state != LastAck && AfterFin(x'.conn.state) == s.fin && ConnInv(x'.conn)
    requires if x'.conn.state == FinWait2 || x'.conn.state == TimeWait
      then x'.conn.sndNxt == SeqOf(x.iss, 2 + |x.out|) && y.finRcvd
      else x'.conn.sndNxt == x.conn.sndNxt && x.conn.state == FinWait1
    requires x'.conn.rcvNxt == Add32(Add32(x.conn.rcvNxt, |s.data|), if s.fin then 1 else 0)
    requires x'.conn.mss == x.conn.mss && x'.conn.initialMss == x.conn.initialMss
    ensures Advanced(x, x', y, Some(AckPacket(x'.conn)))
  {
    FinWaitExpects(x, y.iss, s);
    FinWaitLocal(x, y, x', s);
    if s.data != [] || s.fin {
      NextPiece(x, y, s);
    }
    assert x.received <= x'.received;
    AckSegmentInv(x', y.iss);
  }

  lemma FinWaitExpects(x: Endpoint, peerIss: u32, s: Segment)
    requires x.conn.rcvNxt == SeqOf(peerIss, 1 + |x.received|)
    ensures Add32(Add32(x.conn.rcvNxt, |s.data|), if s.fin then 1 else 0)
         == SeqOf(peerIss, 1 + |x.received + s.data| + if s.fin then 1 else 0)
  {
    SeqAdd(peerIss, 1 + |x.received|, |s.data|);
    SeqAdd(peerIss, 1 + |x.received| + |s.data|, if s.fin then 1 else 0);
  }

  lemma FinWaitLocal(x: Endpoint, y: Endpoint, x': Endpoint, s: Segment)
    requires LocalInv(x, y.iss) && (x.conn.state == FinWait1 || x.conn.state == FinWait2)
    requires x' == x.(conn := x'.conn, received := x.received + s.data, finRcvd := s.fin)
    requires Closes(x'.conn.state) && x'.conn.state != LastAck && AfterFin(x'.conn.state) == s.fin && ConnInv(x'.conn)
    requires if x'.conn.state == FinWait2 || x'.conn.state == TimeWait
      then x'.conn.sndNxt == SeqOf(x.iss, 2 + |x.out|)
      else x'.conn.sndNxt == x.conn.sndNxt && x.conn.state == FinWait1
    requires x'.conn.rcvNxt == SeqOf(y.iss, RecvOffset(x'))
    requires x'.conn.mss == x.conn.mss && x'.conn.initialMss == x.conn.initialMss
    ensures LocalInv(x', y.iss)
  {
  }

  /** In FIN_WAIT_1 and FIN_WAIT_2 data is still taken over, but not given to the application any more. */
  lemma FinWaitAdvances(x: Endpoint, y: Endpoint, s: Segment, rto: byte)
    requires Context(x, y) && (x.conn.state == FinWait1 || x.conn.state == FinWait2)
    requires SegmentInv(y, x.iss, s) && !s.rst && !Unexpected(x.conn, s)
    ensures
      var o := InFinWait(AckedConn(x.conn, s, rto), s, Acknowledges(x.conn, s));
      Advanced(x, Record(x, o, Some(s)), y, o.out)
  {
    var o := InFinWait(AckedConn(x.conn, s, rto), s, Acknowledges(x.conn, s));
    FinWaitAck(x, y, s, rto);
    if s.data != [] || s.fin {
      NextPiece(x, y, s);
    }
    FinWaitRecord(x, s, rto);
    FinWaitOutcome(x.conn, s, rto);
    FinWaitHistory(x, y, x.(conn := o.conn, received := x.received + s.data, finRcvd := s.fin), s);
  }

  lemma FinWaitOutcome(c: Conn, s: Segment, rto: byte)
    requires ConnInv(c) && (c.state == FinWait1 || c.state == FinWait2) && (s.fin ==> s.data == [])
    ensures
      var acked, c1 := Acknowledges(c, s), AckedConn(c, s, rto);
      var o := InFinWait(c1, s, acked);
      && ConnInv(o.conn) && Closes(o.conn.state) && o.conn.state != LastAck
      && AfterFin(o.conn.state) == s.fin
      && (o.conn.state == FinWait2 || o.conn.state == TimeWait <==> acked || c.state == FinWait2)
      && o.conn.sndNxt == c1.sndNxt && o.conn.mss == c.mss && o.conn.initialMss == c.initialMss
      && o.conn.rcvNxt == Add32(Add32(c.rcvNxt, |s.data|), if s.fin then 1 else 0)
      && (o.out.Some? ==> o.out.value == AckPacket(o.conn))
  {
  }

  /** The acknowledgment of our FIN: everything has arrived. */
  lemma FinWaitAck(x: Endpoint, y: Endpoint, s: Segment, rto: byte)
    requires Context(x, y) && (x.conn.state == FinWait1 || x.conn.state == FinWait2)
    requires SegmentInv(y, x.iss, s) && !s.rst
    ensures Acknowledges(x.conn, s) ==>
      y.finRcvd && x.conn.state == FinWait1 && AfterAck(x.conn, rto).sndNxt == SeqOf(x.iss, 2 + |x.out|)
  {
    if Acknowledges(x.conn, s) {
      AckMeans(x, y, s);
      SeqAdd(x.iss, 1 + x.acked, 1);
    }
  }

  /** After the FIN of the peer nothing more is taken over. */
  lemma AfterFinAdvances(x: Endpoint, y: Endpoint, s: Segment, rto: byte, reply: AppReply)
    requires Context(x, y) && AfterFin(x.conn.state)
    requires SegmentInv(y, x.iss, s) && !s.rst && !Unexpected(x.conn, s) && reply.Valid()
    ensures
      var o := Receive(x.conn, s, rto, reply);
      Advanced(x, Record(x, o, Some(s)), y, o.out)
  {
    var o := Receive(x.conn, s, rto, reply);
    var x' := Record(x, o, Some(s));
    ReceiveKeeps(x.conn, s, rto, reply);
    if s.data != [] || s.fin {
      NextPiece(x, y, s);
      assert false;
    }
    if Acknowledges(x.conn, s) {
      AckMeans(x, y, s);
      SeqAdd(x.iss, 1 + x.acked, 1);
    }
    assert x' == x.(conn := o.conn);
    assert LocalInv(x', y.iss);
    if Synchronized(o.conn.state) {
      AckSegmentInv(x', y.iss);
    }
  }

  /** Resets close the connection; segments out of sequence are answered with what is expected. */
  lemma OutOfSequenceAdvances(x: Endpoint, y: Endpoint, s: Segment, rto: byte, reply: AppReply)
    requires Context(x, y) && x.conn.state != Closed && SegmentInv(y, x.iss, s)
    requires (s.rst || Unexpected(x.conn, s)) && reply.Valid()
    ensures
      var o := Receive(x.conn, s, rto, reply);
      Advanced(x, Record(x, o, Some(s)), y, o.out)
  {
    var o := Receive(x.conn, s, rto, reply);
    assert Record(x, o, Some(s)) == x.(conn := o.conn);
    if !s.rst {
      if x.conn.state == SynSent {
        SynSentExpects(x, y, s);
      } else {
        AckSegmentInv(x, y.iss);
      }
    }
    HistoryKept(x, y, o.conn, o.out);
  }

  lemma ReceiveAdvances(x: Endpoint, y: Endpoint, s: Segment, rto: byte, reply: AppReply)
    requires Context(x, y) && x.conn.state != Closed && SegmentInv(y, x.iss, s)
    requires reply.Valid() && AppOkay(x, Receive(x.conn, s, rto, reply).event, reply)
    ensures
      var o := Receive(x.conn, s, rto, reply);
      Advanced(x, Record(x, o, Some(s)), y, o.out)
  {
    if s.rst || Unexpected(x.conn, s) {
      OutOfSequenceAdvances(x, y, s, rto, reply);
    } else {
      match x.conn.state
      case SynRcvd => SynRcvdAdvances(x, y, s, rto, reply);
      case SynSent => SynSentAdvances(x, y, s, rto, reply);
      case Established => EstablishedAdvances(x, y, s, rto, reply);
      case FinWait1 => FinWaitAdvances(x, y, s, rto);
      case FinWait2 => FinWaitAdvances(x, y, s, rto);
      case _ => AfterFinAdvances(x, y, s, rto, reply);
    }
  }

  // ---------- Whole runs ----------

  lemma AcceptAdvances(x: Endpoint, y: Endpoint, s: Segment)
    requires Context(x, y) && !x.started && !x.active && s.IsSyn() && SegmentInv(y, x.iss, s)
    ensures
      var c := PassiveOpen(x.conn, x.iss, x.conn.lport, x.conn.rport, x.conn.ripaddr, s);
      Advanced(x, Record(x, Outcome(c, None, None), None), y, Some(SynAckPacket(c)))
  {
    var c := PassiveOpen(x.conn, x.iss, x.conn.lport, x.conn.rport, x.conn.ripaddr, s);
    var x' := Record(x, Outcome(c, None, None), None);
    OpenKeeps(x.conn, x.iss, x.conn.lport, x.conn.rport, x.conn.ripaddr, s);
    SeqAdd(y.iss, 0, 1);
    assert x' == x.(conn := c, started := true, synced := true);
    AckSegmentInv(x', y.iss);
  }

  /** Advancing one side and adding what it sends to the network keeps the invariant. */
  lemma AdvancedInv(g: Net, g': Net, out: Option<Segment>)
    requires Inv(g) && g' == g.(a := g'.a, ab := Sent(g.ab, out))
    requires Advanced(g.a, g'.a, g.b, out)
    ensures Inv(g')
  {
    TrafficStays(g.a, g'.a, g.b.iss, g.ab, out);
  }

  lemma TickStepInv(g: Net, g': Net, reply: AppReply)
    requires Inv(g) && Small(g) && reply.Valid() && TickStep(g, g', reply)
    ensures Inv(g')
  {
    TickAdvances(g.a, g.b, reply);
    AdvancedInv(g, g', Tick(g.a.conn, reply).out);
  }

  lemma ReceiveStepInv(g: Net, g': Net, s: Segment, rto: byte, reply: AppReply)
    requires Inv(g) && Small(g) && reply.Valid() && ReceiveStep(g, g', s, rto, reply)
    ensures Inv(g')
  {
    ReceiveAdvances(g.a, g.b, s, rto, reply);
    AdvancedInv(g, g', Receive(g.a.conn, s, rto, reply).out);
  }

  lemma AcceptStepInv(g: Net, g': Net, s: Segment)
    requires Inv(g) && Small(g) && AcceptStep(g, g', s)
    ensures Inv(g')
  {
    AcceptAdvances(g.a, g.b, s);
    AdvancedInv(g, g', Some(SynAckPacket(g'.a.conn)));
  }

  lemma RefuseStepInv(g: Net, g': Net, s: Segment)
    requires Inv(g) && Small(g) && RefuseStep(g, g', s)
    ensures Inv(g')
  {
    AdvancedInv(g, g', ResetAnswer(s));
  }

  lemma StepOfAInv(g: Net, g': Net)
    requires Inv(g) && Small(g) && StepOfA(g, g')
    ensures Inv(g')
  {
    if reply: AppReply :| reply.Valid() && TickStep(g, g', reply) {
      TickStepInv(g, g', reply);
    } else if s, rto: byte, reply: AppReply :| reply.Valid() && ReceiveStep(g, g', s, rto, reply) {
      ReceiveStepInv(g, g', s, rto, reply);
    } else if s :| AcceptStep(g, g', s) {
      AcceptStepInv(g, g', s);
    } else {
      var s :| RefuseStep(g, g', s);
      RefuseStepInv(g, g', s);
    }
  }

  lemma StepInv(g: Net, g': Net)
    requires Inv(g) && Small(g) && Step(g, g')
    ensures Inv(g')
  {
    if StepOfA(g, g') {
      StepOfAInv(g, g');
    } else {
      StepOfAInv(Swapped(g), Swapped(g'));
    }
  }

  /** The invariant holds in every state of every run, as long as sequence numbers do not come around. */
  lemma {:induction false} RunInv(states: seq<Net>, k: nat)
    requires Run(states) && k < |states| && forall g :: g in states ==> Small(g)
    ensures Inv(states[k])
  {
    if k == 0 {
      InitInv(states[0]);
    } else {
      RunInv(states, k - 1);
      StepInv(states[k - 1], states[k]);
    }
  }

  /** What holds, at any moment of any run, between a sender `x` and a receiver `y`. */
  ghost predicate Faithful(x: Endpoint, y: Endpoint) {
    // The receiving application has been given a prefix of what was handed over for sending.
    && y.delivered <= y.received <= x.out
    // What counts as acknowledged has arrived, and been delivered unless the receiver has closed.
    && x.acked <= |y.received|
    && (!y.finSent ==> x.acked <= |y.delivered|)
    // The receiver expects exactly the byte after the last one it has taken over.
    && (y.conn.state == SynRcvd || y.conn.state == Established ==>
          y.conn.rcvNxt == Add32(x.iss, 1 + |y.received|))
    // A FIN is taken over after everything else, and acknowledged only then.
    && (y.finRcvd ==> x.finSent && y.received == x.out)
    && (x.conn.state == FinWait2 || x.conn.state == TimeWait ==> y.finRcvd)
  }

  /** Data transfer is faithful in both directions, whatever the network does. */
  lemma DeliveryIsFaithful(states: seq<Net>)
    requires Run(states) && forall g :: g in states ==> Small(g)
    ensures
      var g := states[|states| - 1];
      Faithful(g.a, g.b) && Faithful(g.b, g.a)
  {
    RunInv(states, |states| - 1);
    var g := states[|states| - 1];
    SeqAdd(g.a.iss, 0, RecvOffset(g.b));
    SeqAdd(g.b.iss, 0, RecvOffset(g.a));
  }

  // ---------- A run in which data arrives ----------

  function Ticked(g: Net, reply: AppReply): Net
    requires ConnInv(g.a.conn) && reply.Valid()
  {
    var o := Tick(g.a.conn, reply);
    g.(a := Record(g.a, o, None), ab := Sent(g.ab, o.out))
  }

  function Received(g: Net, s: Segment, rto: byte, reply: AppReply): Net
    requires ConnInv(g.a.conn) && reply.Valid()
  {
    var o := Receive(g.a.conn, s, rto, reply);
    g.(a := Record(g.a, o, Some(s)), ab := Sent(g.ab, o.out))
  }

  function SynAccepted(g: Net, s: Segment): Net {
    var c := PassiveOpen(g.a.conn, g.a.iss, g.a.conn.lport, g.a.conn.rport, g.a.conn.ripaddr, s);
    g.(a := Record(g.a, Outcome(c, None, None), None), ab := g.ab + {SynAckPacket(c)})
  }

  lemma TickIsStep(g: Net, reply: AppReply)
    requires ConnInv(g.a.conn) && reply.Valid() && g.a.conn.state == SynSent
    ensures Step(g, Ticked(g, reply)) && ConnInv(Ticked(g, reply).a.conn)
  {
    TickKeeps(g.a.conn, reply);
    assert TickStep(g, Ticked(g, reply), reply);
  }

  lemma ReceiveIsStep(g: Net, s: Segment, rto: byte, reply: AppReply)
    requires ConnInv(g.a.conn) && reply.Valid() && s in g.ba
    requires g.a.conn.state == SynSent || g.a.conn.state == SynRcvd
    ensures StepOfA(g, Received(g, s, rto, reply)) && ConnInv(Received(g, s, rto, reply).a.conn)
  {
    ReceiveKeeps(g.a.conn, s, rto, reply);
    assert ReceiveStep(g, Received(g, s, rto, reply), s, rto, reply);
  }

  lemma ReceiveIdleIsStep(g: Net, s: Segment, rto: byte, reply: AppReply)
    requires ConnInv(g.a.conn) && reply.Valid() && s in g.ba
    requires g.a.conn.state == Established && g.a.conn.len == 0
    ensures StepOfA(g, Received(g, s, rto, reply)) && ConnInv(Received(g, s, rto, reply).a.conn)
  {
    ReceiveKeeps(g.a.conn, s, rto, reply);
    assert ReceiveStep(g, Received(g, s, rto, reply), s, rto, reply);
  }

  lemma AcceptIsStep(g: Net, s: Segment)
    requires ConnInv(g.a.conn) && s in g.ba && s.IsSyn() && !g.a.active && !g.a.started
    ensures StepOfA(g, SynAccepted(g, s)) && ConnInv(SynAccepted(g, s).a.conn)
  {
    OpenKeeps(g.a.conn, g.a.iss, g.a.conn.lport, g.a.conn.rport, g.a.conn.ripaddr, s);
    assert AcceptStep(g, SynAccepted(g, s), s);
  }

  ghost predicate SmallRun(states: seq<Net>) {
    Run(states) && forall n :: n in states ==> Small(n)
  }

  function Last(states: seq<Net>): Net
    requires |states| > 0
  {
    states[|states| - 1]
  }

  lemma RunExtended(states: seq<Net>, g: Net)
    requires SmallRun(states) && Step(Last(states), g) && Small(g)
    ensures SmallRun(states + [g])
  {
    var longer := states + [g];
    forall i | 0 <= i < |longer| - 1 ensures Step(longer[i], longer[i + 1]) {
      if i < |states| - 1 {
        assert longer[i] == states[i] && longer[i + 1] == states[i + 1];
      }
    }
  }

  lemma RunTicks(states: seq<Net>, reply: AppReply) returns (g: Net)
    requires SmallRun(states) && reply.Valid()
    requires ConnInv(Last(states).a.conn) && Last(states).a.conn.state == SynSent && !GivesUp(Last(states).a.conn)
    ensures SmallRun(states + [g]) && ConnInv(g.a.conn) && g == Ticked(Last(states), reply)
  {
    var before := Last(states);
    TickIsStep(before, reply);
    g := Ticked(before, reply);
    assert g.a.out == before.a.out + [];
    assert before in states && Small(before);
    RunExtended(states, g);
  }

  /** Two ticks after `uip_connect` the SYN is on the wire. */
  lemma SynGoesOut(g: Net, reply: AppReply) returns (states: seq<Net>)
    requires Init(g) && g.a.active && g.a.conn.timer == 1 && g.a.conn.nrtx == 0 && reply.Valid()
    ensures SmallRun(states) && states[0] == g
    ensures Opening(Last(states)) && Numbered(Last(states))
  {
    assert Run([g]);
    var g1 := RunTicks([g], reply);
    assert Record(g.a, Tick(g.a.conn, reply), None) == g.a.(conn := g.a.conn.(timer := 0));
    var g2 := RunTicks([g, g1], reply);
    states := [g, g1, g2];
    assert [g] + [g1] == [g, g1] && [g, g1] + [g2] == states;
  }

  /** The SYN has been sent. */
  predicate Opening(g: Net) {
    && ConnInv(g.a.conn) && ConnInv(g.b.conn)
    && g.a.conn.state == SynSent && g.a.out == [] && SynPacket(g.a.conn) in g.ab
    && g.b.conn.state == Closed && g.b.out == [] && g.b.delivered == [] && !g.b.active && !g.b.started
  }

  /** The opening side has not been given anything and uses the segment size of uIP. */
  predicate Numbered(g: Net) {
    && g.a.conn.mss == g.a.conn.initialMss == UIP_TCP_MSS && g.a.received == []
    && (g.a.conn.state == SynSent ==> g.a.conn.sndNxt == g.a.iss)
    && (g.b.conn.state == SynRcvd ==> g.b.conn.sndNxt == g.b.iss && g.b.conn.mss == UIP_TCP_MSS)
  }

  /** The handshake is under way: the listener has answered the SYN. */
  predicate Answering(g: Net) {
    && ConnInv(g.a.conn) && ConnInv(g.b.conn)
    && g.a.conn.state == SynSent && !g.b.active && g.b.conn.state == SynRcvd
    && g.b.conn.rcvNxt == Add32(g.a.conn.sndNxt, 1)
    && g.a.out == [] && g.b.out == [] && g.b.delivered == []
    && SynPacket(g.a.conn) in g.ab && SynAckPacket(g.b.conn) in g.ba
  }

  /** A SYN is accepted. */
  lemma SynIsAccepted(states: seq<Net>) returns (g: Net)
    requires SmallRun(states) && Opening(Last(states))
    ensures SmallRun(states + [g]) && Answering(g)
    ensures g.ab == Last(states).ab && g.a == Last(states).a && (Numbered(Last(states)) ==> Numbered(g))
  {
    var before := Last(states);
    AcceptIsStep(Swapped(before), SynPacket(before.a.conn));
    g := Swapped(SynAccepted(Swapped(before), SynPacket(before.a.conn)));
    RunExtended(states, g);
  }

  /** The data of the opening side is on the wire. */
  predicate Sending(g: Net, data: seq<byte>) {
    && ConnInv(g.b.conn) && g.b.conn.state == SynRcvd && !g.b.active
    && g.b.out == g.b.delivered == [] && g.a.out == data
    && DataPacket(g.a.conn, data) in g.ab
    && g.a.conn.sndNxt == g.b.conn.rcvNxt && g.a.conn.rcvNxt == Add32(g.b.conn.sndNxt, 1)
  }

  /** The SYNACK is answered with data. */
  lemma DataGoesOut(states: seq<Net>, rto: byte, data: seq<byte>, reply: AppReply) returns (g: Net)
    requires SmallRun(states) && Answering(Last(states))
    requires 0 < |data| <= UIP_TCP_MSS && reply.Valid() && reply.action == Continue
    requires reply.slen == |data| && reply.buffer[..|data|] == data
    ensures SmallRun(states + [g]) && Sending(g, data)
  {
    var before := Last(states);
    ReceiveIsStep(before, SynAckPacket(before.b.conn), rto, reply);
    g := Received(before, SynAckPacket(before.b.conn), rto, reply);
    RunExtended(states, g);
  }

  /** The listener takes the data together with the acknowledgment of its SYNACK. */
  lemma DataIsTaken(before: Net, data: seq<byte>, rto: byte, reply: AppReply) returns (g: Net)
    requires Sending(before, data) && data != [] && |data| < LIMIT && reply.Valid()
    ensures Step(before, g) && Small(g) && g.a.out == data && g.b.delivered == data
  {
    var s := DataPacket(before.a.conn, data);
    assert !Unexpected(before.b.conn, s) && Acknowledges(before.b.conn, s);
    ReceiveIsStep(Swapped(before), s, rto, reply);
    var o := Receive(before.b.conn, s, rto, reply);
    assert Given(o.event) == data && before.b.delivered + data == data;
    assert |NewlySent(before.b.conn, o)| <= UIP_TCP_MSS;
    g := Swapped(Received(Swapped(before), s, rto, reply));
  }

  lemma DataComesIn(states: seq<Net>, data: seq<byte>, rto: byte, reply: AppReply) returns (g: Net)
    requires SmallRun(states) && Sending(Last(states), data) && 0 < |data| < LIMIT && reply.Valid()
    ensures SmallRun(states + [g]) && g.a.out == data && g.b.delivered == data
  {
    g := DataIsTaken(Last(states), data, rto, reply);
    RunExtended(states, g);
  }

  /** Runs that deliver something exist: up to a segment of any data can get through with the handshake. */
  lemma DataGetsThrough(g: Net, data: seq<byte>, rto: byte, reply: AppReply) returns (states: seq<Net>)
    requires Init(g) && g.a.active && g.a.conn.timer == 1 && g.a.conn.nrtx == 0
    requires 0 < |data| <= UIP_TCP_MSS && reply.Valid() && reply.action == Continue
    requires reply.slen == |data| && reply.buffer[..|data|] == data
    ensures Run(states) && states[0] == g && forall n :: n in states ==> Small(n)
    ensures Last(states).a.out == data && Last(states).b.delivered == data
  {
    states := SynGoesOut(g, reply);
    var g1 := SynIsAccepted(states);
    states := states + [g1];
    var g2 := DataGoesOut(states, rto, data, reply);
    states := states + [g2];
    var g3 := DataComesIn(states, data, rto, reply);
    states := states + [g3];
  }

  /**
   Taken-over data reaches the application exactly when the receiver has not closed: after
   `uip_close` it is acknowledged all the same, but dropped.
   */
  lemma TakenOverIsGivenUnlessClosing(c: Conn, s: Segment, rto: byte, reply: AppReply)
    requires ConnInv(c) && reply.Valid()
    requires TakenOver(c, Receive(c, s, rto, reply).conn, Some(s)) != []
    requires !AfterFin(c.state)
    ensures Given(Receive(c, s, rto, reply).event) == s.data <==> c.state != FinWait1 && c.state != FinWait2
  {
    assert !s.rst && !Unexpected(c, s);
    var c1 := if Acknowledges(c, s) then AfterAck(c, rto) else c;
    if c.state == Established && !s.fin {
      var c2 := c1.(rcvNxt := Add32(c1.rcvNxt, |s.data|), mss := WindowMss(c1, s.wnd));
      var event := QUIET.(acked := Acknowledges(c, s), newdata := s.data != [], data := s.data);
      assert AppSend(c2, event, reply).event.value.data == s.data;
    }
  }

  /** A SYN that arrives twice makes the listener answer with an ACK that aborts the opening side. */
  lemma DuplicateSynAborts(a: Conn, b: Conn, rto: byte, reply: AppReply)
    requires ConnInv(a) && ConnInv(b) && reply.Valid()
    requires a.state == SynSent && b.state == SynRcvd && b.rcvNxt == Add32(a.sndNxt, 1)
    ensures Receive(b, SynPacket(a), rto, reply) == Outcome(b, Some(AckPacket(b)), None)
    ensures Receive(a, AckPacket(b), rto, reply).conn.state == Closed
    ensures Receive(a, AckPacket(b), rto, reply).out.Some? && Receive(a, AckPacket(b), rto, reply).out.value.rst
  {
  }

  /** For the side that is opening, among two uIP endpoints: only a SYNACK keeps the connection alive. */
  lemma OpeningIsAborted(x: Endpoint, y: Endpoint, s: Segment, rto: byte, reply: AppReply)
    requires Context(x, y) && x.conn.state == SynSent && SegmentInv(y, x.iss, s)
    requires reply.Valid() && reply.action != Abort
    ensures Receive(x.conn, s, rto, reply).conn.state == Closed <==> s.rst || !s.syn
  {
    OpeningFails(x.conn, s, rto, reply);
    if !s.rst {
      SynSentExpects(x, y, s);
      if s.syn {
        SynAckAcknowledges(x, y, s);
      }
    }
  }

  /** The listener's SYNACK can acknowledge nothing but the SYN. */
  lemma SynAckAcknowledges(x: Endpoint, y: Endpoint, s: Segment)
    requires Context(x, y) && x.conn.state == SynSent && SegmentInv(y, x.iss, s) && !s.rst && s.syn
    ensures s.IsSynAck() && Acknowledges(x.conn, s)
  {
    assert s.ack && x.out == [] && y.received == [] && !y.finRcvd;
    var j: nat :| 1 <= j <= RecvOffset(y) && s.ackno == SeqOf(x.iss, j);
    assert j == 1;
    SeqAdd(x.iss, 0, 1);
  }

  /** After the SYN has been accepted it arrives once more. */
  lemma SynArrivesAgain(states: seq<Net>, rto: byte, reply: AppReply) returns (g: Net)
    requires SmallRun(states) && Answering(Last(states)) && reply.Valid()
    ensures SmallRun(states + [g]) && Answering(g) && AckPacket(g.b.conn) in g.ba
  {
    var before := Last(states);
    DuplicateSynAborts(before.a.conn, before.b.conn, rto, reply);
    ReceiveIsStep(Swapped(before), SynPacket(before.a.conn), rto, reply);
    g := Swapped(Received(Swapped(before), SynPacket(before.a.conn), rto, reply));
    RunExtended(states, g);
  }

  /** The answer to it aborts the side that is opening. */
  lemma AckAborts(states: seq<Net>, rto: byte, reply: AppReply) returns (g: Net)
    requires SmallRun(states) && Answering(Last(states)) && AckPacket(Last(states).b.conn) in Last(states).ba
    requires reply.Valid()
    ensures SmallRun(states + [g]) && g.a.conn.state == Closed && g.b.conn.state == SynRcvd
  {
    var before := Last(states);
    DuplicateSynAborts(before.a.conn, before.b.conn, rto, reply);
    ReceiveIsStep(before, AckPacket(before.b.conn), rto, reply);
    g := Received(before, AckPacket(before.b.conn), rto, reply);
    RunExtended(states, g);
  }

  /** From every initial state there is a run in which a duplicated SYN, and nothing else, ends the connection. */
  lemma DuplicateSynAbortsRun(g: Net, rto: byte, reply: AppReply) returns (states: seq<Net>)
    requires Init(g) && g.a.active && g.a.conn.timer == 1 && g.a.conn.nrtx == 0 && reply.Valid()
    ensures Run(states) && states[0] == g && forall n :: n in states ==> Small(n)
    ensures Last(states).a.conn.state == Closed && Last(states).b.conn.state == SynRcvd
  {
    states := SynGoesOut(g, reply);
    var g1 := SynIsAccepted(states);
    states := states + [g1];
    var g2 := SynArrivesAgain(states, rto, reply);
    states := states + [g2];
    var g3 := AckAborts(states, rto, reply);
    states := states + [g3];
  }

  /** A byte that arrives in sequence after `uip_close` is acknowledged and not given to the application. */
  lemma ByteAfterCloseIsDropped(c: Conn, b: byte, ackno: u32, rto: byte, reply: AppReply)
    requires ConnInv(c) && c.state == FinWait1 && ackno != Add32(c.sndNxt, 1) && reply.Valid()
    ensures
      var s := Segment(c.rcvNxt, ackno, false, true, false, false, true, UIP_RECEIVE_WINDOW, None, [b]);
      var o := Receive(c, s, rto, reply);
      && TakenOver(c, o.conn, Some(s)) == [b] && Given(o.event) == []
      && o.out.Some? && o.out.value.ack && o.out.value.ackno == Add32(c.rcvNxt, 1)
  {
  }
}
