/**
 What one invocation of the uIP TCP engine does to one connection: the periodic timer and
 the processing of a segment that has been matched with the connection.

 The application is called at most once per invocation. What it is told is an `AppEvent`;
 what it answers is an `AppReply`, an input here. The round-trip estimate computed from
 measured times is an input too.
 */
module Tcp {
  import opened Bytes
  import opened Wrappers
  import opened UipOpt

  datatype State = Closed | SynRcvd | SynSent | Established | FinWait1 | FinWait2 | Closing | TimeWait | LastAck

  datatype Conn = Conn(
    state: State, ripaddr: u32, lport: u16, rport: u16,
    sndNxt: u32, rcvNxt: u32, len: u16, mss: u16, initialMss: u16,
    rto: byte, timer: byte, nrtx: byte)

  /** A segment on the wire, without its addresses. URG is never set. */
  datatype Segment = Segment(
    seqno: u32, ackno: u32, syn: bool, ack: bool, fin: bool, rst: bool, psh: bool,
    wnd: u16, mssOption: Option<u16>, data: seq<byte>)
  {
    predicate IsSyn() { syn && !ack && !fin && !rst && !psh }
    predicate IsSynAck() { syn && ack && !fin && !rst && !psh }

    /** The bytes the packet takes in the packet buffer, without the link-level header. */
    function Size(): nat { UIP_TCPIP_HLEN + (if mssOption.Some? then 4 else 0) + |data| }
  }

  /** The flags and the data that the application is called with. */
  datatype AppEvent = AppEvent(
    acked: bool, newdata: bool, rexmit: bool, poll: bool,
    closed: bool, aborted: bool, connected: bool, timedout: bool, data: seq<byte>)

  const QUIET := AppEvent(false, false, false, false, false, false, false, false, [])

  datatype Action = Continue | Close | Abort

  /** `slen` bytes to be sent, from a buffer that holds one full segment. */
  datatype AppReply = AppReply(action: Action, slen: u16, buffer: seq<byte>)
  {
    predicate Valid() { |buffer| == UIP_TCP_MSS }
  }

  datatype Outcome = Outcome(conn: Conn, out: Option<Segment>, event: Option<AppEvent>)

  function Min(a: nat, b: nat): nat { if a < b then a else b }

  // ---------- Packets of a connection ----------

  function Packet(c: Conn, syn: bool, ack: bool, fin: bool, rst: bool, data: seq<byte>): Segment {
    Segment(c.rcvNxt, c.rcvNxt, syn, ack, fin, rst, data != [], UIP_RECEIVE_WINDOW,
            if syn then Some(UIP_TCP_MSS) else None, data).(seqno := c.sndNxt)
  }

  function SynPacket(c: Conn): Segment { Packet(c, true, false, false, false, []) }
  function SynAckPacket(c: Conn): Segment { Packet(c, true, true, false, false, []) }
  function AckPacket(c: Conn): Segment { Packet(c, false, true, false, false, []) }
  function FinAckPacket(c: Conn): Segment { Packet(c, false, true, true, false, []) }
  function RstAckPacket(c: Conn): Segment { Packet(c, false, true, false, true, []) }
  function DataPacket(c: Conn, data: seq<byte>): Segment { Packet(c, false, true, false, false, data) }

  /** The reset in answer to a segment that belongs to no connection; resets are not answered. */
  function ResetAnswer(s: Segment): Option<Segment> {
    if s.rst then None
    else Some(Segment(s.ackno, Add32(s.seqno, 1), false, true, false, true, false, s.wnd, None, []))
  }

  // ---------- After the application has been called ----------

  /** The part of the send path that a retransmission joins. */
  function Transmit(c: Conn, slen: nat, newdata: bool, reply: AppReply): Option<Segment>
    requires reply.Valid() && c.len <= UIP_TCP_MSS
  {
    if slen > 0 && c.len > 0 then Some(DataPacket(c, reply.buffer[..c.len]))
    else if newdata then Some(AckPacket(c))
    else None
  }

  /** How many bytes are in flight once the application has answered. */
  function InFlight(c: Conn, acked: bool, slen: nat): nat {
    if slen == 0 then c.len
    else if acked || c.len == 0 then Min(slen, c.mss)
    else c.len
  }

  function AppSend(c: Conn, event: AppEvent, reply: AppReply): Outcome
    requires reply.Valid() && c.len <= UIP_TCP_MSS && c.mss <= UIP_TCP_MSS
  {
    match reply.action
    case Abort =>
      var c1 := c.(state := Closed);
      Outcome(c1, Some(RstAckPacket(c1)), Some(event))
    case Close =>
      var c1 := c.(state := FinWait1, len := 1, nrtx := 0);
      Outcome(c1, Some(FinAckPacket(c1)), Some(event))
    case Continue =>
      var c1 := c.(len := InFlight(c, event.acked, reply.slen), nrtx := 0);
      Outcome(c1, Transmit(c1, reply.slen, event.newdata, reply), Some(event))
  }

  // ---------- The periodic timer ----------

  function Backoff(nrtx: nat): byte {
    if nrtx == 0 then 3 else if nrtx == 1 then 6 else if nrtx == 2 then 12 else if nrtx == 3 then 24 else 48
  }

  predicate GivesUp(c: Conn) {
    c.nrtx == UIP_MAXRTX || ((c.state == SynSent || c.state == SynRcvd) && c.nrtx == UIP_MAXSYNRTX)
  }

  function Retransmit(c: Conn, reply: AppReply): Outcome
    requires reply.Valid() && c.len <= UIP_TCP_MSS
  {
    match c.state
    case SynRcvd => Outcome(c, Some(SynAckPacket(c)), None)
    case SynSent => Outcome(c, Some(SynPacket(c)), None)
    case Established =>
      Outcome(c, Transmit(c, reply.slen, false, reply), Some(QUIET.(rexmit := true)))
    case FinWait1 => Outcome(c, Some(FinAckPacket(c)), None)
    case Closing => Outcome(c, Some(FinAckPacket(c)), None)
    case LastAck => Outcome(c, Some(FinAckPacket(c)), None)
    case _ => Outcome(c, None, None)
  }

  function Tick(c: Conn, reply: AppReply): Outcome
    requires reply.Valid() && c.len <= UIP_TCP_MSS && c.mss <= UIP_TCP_MSS
  {
    if c.state == TimeWait || c.state == FinWait2 then
      var timer := (c.timer + 1) % 256;
      Outcome(c.(timer := timer, state := if timer == UIP_TIME_WAIT_TIMEOUT then Closed else c.state), None, None)
    else if c.state == Closed then
      Outcome(c, None, None)
    else if c.len > 0 then
      if c.timer > 0 then
        Outcome(c.(timer := c.timer - 1), None, None)
      else if GivesUp(c) then
        var c1 := c.(timer := 255, state := Closed);
        Outcome(c1, Some(RstAckPacket(c1)), Some(QUIET.(timedout := true)))
      else
        Retransmit(c.(timer := Backoff(c.nrtx), nrtx := (c.nrtx + 1) % 256), reply)
    else if c.state == Established then
      AppSend(c, QUIET.(poll := true), reply)
    else
      Outcome(c, None, None)
  }

  // ---------- A segment for the connection ----------

  /** Out of sequence, as far as the segment occupies sequence numbers at all. */
  predicate Unexpected(c: Conn, s: Segment) {
    && !(c.state == SynSent && s.IsSynAck())
    && (s.data != [] || s.syn || s.fin)
    && s.seqno != c.rcvNxt
  }

  predicate Acknowledges(c: Conn, s: Segment) {
    s.ack && c.len > 0 && s.ackno == Add32(c.sndNxt, c.len)
  }

  /** The connection after its outstanding data has been acknowledged. */
  function AfterAck(c: Conn, rto: byte): Conn {
    var r := if c.nrtx == 0 then rto else c.rto;
    c.(sndNxt := Add32(c.sndNxt, c.len), rto := r, timer := r, len := 0)
  }

  function OfferedMss(c: Conn, s: Segment): Conn {
    match s.mssOption
    case None => c
    case Some(offered) => c.(initialMss := Min(offered, UIP_TCP_MSS), mss := Min(offered, UIP_TCP_MSS))
  }

  function WindowMss(c: Conn, wnd: u16): u16 {
    if wnd > c.initialMss || wnd == 0 then c.initialMss else wnd
  }

  function InSynRcvd(c: Conn, s: Segment, acked: bool, reply: AppReply): Outcome
    requires reply.Valid() && c.len <= UIP_TCP_MSS && c.mss <= UIP_TCP_MSS
  {
    if acked then
      AppSend(c.(state := Established, rcvNxt := Add32(c.rcvNxt, |s.data|)),
              QUIET.(connected := true, newdata := s.data != [], data := s.data), reply)
    else Outcome(c, None, None)
  }

  function InSynSent(c: Conn, s: Segment, acked: bool, reply: AppReply): Outcome
    requires reply.Valid() && c.len <= UIP_TCP_MSS && c.mss <= UIP_TCP_MSS
  {
    if acked && s.IsSynAck() then
      AppSend(OfferedMss(c, s).(state := Established, rcvNxt := Add32(s.seqno, 1)),
              QUIET.(connected := true, newdata := true), reply)
    else
      Outcome(c.(state := Closed), ResetAnswer(s), Some(QUIET.(aborted := true)))
  }

  function InEstablished(c: Conn, s: Segment, acked: bool, reply: AppReply): Outcome
    requires reply.Valid() && c.len <= UIP_TCP_MSS && c.initialMss <= UIP_TCP_MSS
  {
    if s.fin then
      if c.len > 0 then Outcome(c, None, None)
      else
        var c1 := c.(rcvNxt := Add32(c.rcvNxt, 1 + |s.data|), len := 1, state := LastAck, nrtx := 0);
        Outcome(c1, Some(FinAckPacket(c1)),
                Some(QUIET.(acked := acked, closed := true, newdata := s.data != [], data := s.data)))
    else
      var c1 := c.(rcvNxt := Add32(c.rcvNxt, |s.data|), mss := WindowMss(c, s.wnd));
      if s.data != [] || acked then
        AppSend(c1, QUIET.(acked := acked, newdata := s.data != [], data := s.data), reply)
      else Outcome(c1, None, None)
  }

  function InFinWait(c: Conn, s: Segment, acked: bool): Outcome {
    var c1 := c.(rcvNxt := Add32(c.rcvNxt, |s.data|));
    if s.fin then
      var c2 := c1.(rcvNxt := Add32(c1.rcvNxt, 1));
      var c3 := if acked || c.state == FinWait2 then c2.(state := TimeWait, timer := 0, len := 0)
                else c2.(state := Closing);
      Outcome(c3, Some(AckPacket(c3)), Some(QUIET.(closed := true)))
    else if acked then Outcome(c1.(state := FinWait2, len := 0), None, None)
    else if s.data != [] then Outcome(c1, Some(AckPacket(c1)), None)
    else Outcome(c1, None, None)
  }

  /** An acceptable segment, after the acknowledgment in it has been accounted for. */
  function InState(c: Conn, s: Segment, acked: bool, reply: AppReply): Outcome
    requires reply.Valid() && c.len <= UIP_TCP_MSS && c.mss <= UIP_TCP_MSS && c.initialMss <= UIP_TCP_MSS
  {
    match c.state
    case SynRcvd => InSynRcvd(c, s, acked, reply)
    case SynSent => InSynSent(c, s, acked, reply)
    case Established => InEstablished(c, s, acked, reply)
    case LastAck =>
      if acked then Outcome(c.(state := Closed), None, Some(QUIET.(closed := true)))
      else Outcome(c, None, None)
    case FinWait1 => InFinWait(c, s, acked)
    case FinWait2 => InFinWait(c, s, acked)
    case TimeWait => Outcome(c, Some(AckPacket(c)), None)
    case Closing => Outcome(if acked then c.(state := TimeWait, timer := 0) else c, None, None)
    case Closed => Outcome(c, None, None)
  }

  function Receive(c: Conn, s: Segment, rto: byte, reply: AppReply): Outcome
    requires reply.Valid() && c.len <= UIP_TCP_MSS && c.mss <= UIP_TCP_MSS && c.initialMss <= UIP_TCP_MSS
  {
    if s.rst then
      Outcome(c.(state := Closed), None, Some(QUIET.(aborted := true)))
    else if Unexpected(c, s) then
      Outcome(c, Some(AckPacket(c)), None)
    else
      var acked := Acknowledges(c, s);
      var c1 := if acked then AfterAck(c, rto) else c;
      InState(c1, s, acked, reply)
  }

  // ---------- Opening ----------

  /** A connection that has been asked for; its SYN goes out with the next timer tick. */
  function ActiveOpen(slot: Conn, iss: u32, lport: u16, rport: u16, ripaddr: u32): Conn {
    slot.(state := SynSent, sndNxt := iss, initialMss := UIP_TCP_MSS, mss := UIP_TCP_MSS,
          len := 1, nrtx := 0, timer := 1, rto := UIP_RTO, lport := lport, rport := rport, ripaddr := ripaddr)
  }

  /** A connection made for a SYN; without an MSS option the slot keeps the sizes it had. */
  function PassiveOpen(slot: Conn, iss: u32, lport: u16, rport: u16, ripaddr: u32, s: Segment): Conn {
    OfferedMss(slot.(state := SynRcvd, rto := UIP_RTO, timer := UIP_RTO, nrtx := 0,
                     lport := lport, rport := rport, ripaddr := ripaddr,
                     sndNxt := iss, len := 1, rcvNxt := Add32(s.seqno, 1)), s)
  }

  // ---------- What every step keeps ----------

  /** One sequence number is outstanding while a SYN or FIN is, none after the FIN has been acknowledged. */
  predicate LenFits(c: Conn) {
    match c.state
    case SynSent => c.len == 1
    case SynRcvd => c.len == 1
    case FinWait1 => c.len == 1
    case Closing => c.len == 1
    case LastAck => c.len == 1
    case FinWait2 => c.len == 0
    case TimeWait => c.len == 0
    case Established => c.len <= UIP_TCP_MSS
    case Closed => true
  }

  predicate ConnInv(c: Conn) {
    && LenFits(c)
    && c.mss <= c.initialMss <= UIP_TCP_MSS
    && c.len <= UIP_TCP_MSS
    && c.nrtx <= UIP_MAXRTX
    && (c.state == SynSent || c.state == SynRcvd ==> c.nrtx <= UIP_MAXSYNRTX)
    && (c.state == TimeWait ==> c.timer < UIP_TIME_WAIT_TIMEOUT)
  }

  predicate Fits(out: Option<Segment>) {
    out.Some? ==> out.value.Size() <= UIP_BUFSIZE - UIP_LLH_LEN
  }

  lemma TickKeeps(c: Conn, reply: AppReply)
    requires ConnInv(c) && reply.Valid()
    ensures ConnInv(Tick(c, reply).conn) && Fits(Tick(c, reply).out)
  {
  }

  lemma AppSendKeeps(c: Conn, event: AppEvent, reply: AppReply)
    requires ConnInv(c) && c.state == Established && reply.Valid()
    ensures ConnInv(AppSend(c, event, reply).conn) && Fits(AppSend(c, event, reply).out)
  {
  }

  lemma InEstablishedKeeps(c: Conn, s: Segment, acked: bool, reply: AppReply)
    requires ConnInv(c) && c.state == Established && reply.Valid()
    ensures ConnInv(InEstablished(c, s, acked, reply).conn) && Fits(InEstablished(c, s, acked, reply).out)
  {
    var c1 := c.(rcvNxt := Add32(c.rcvNxt, |s.data|), mss := WindowMss(c, s.wnd));
    AppSendKeeps(c1, QUIET.(acked := acked, newdata := s.data != [], data := s.data), reply);
  }

  lemma InSynRcvdKeeps(c: Conn, s: Segment, acked: bool, reply: AppReply)
    requires ConnInv(c.(len := 1)) && c.state == SynRcvd && c.len == (if acked then 0 else 1) && reply.Valid()
    ensures ConnInv(InSynRcvd(c, s, acked, reply).conn) && Fits(InSynRcvd(c, s, acked, reply).out)
  {
    AppSendKeeps(c.(state := Established, rcvNxt := Add32(c.rcvNxt, |s.data|)),
                 QUIET.(connected := true, newdata := s.data != [], data := s.data), reply);
  }

  lemma InSynSentKeeps(c: Conn, s: Segment, acked: bool, reply: AppReply)
    requires ConnInv(c.(len := 1)) && c.state == SynSent && c.len == (if acked then 0 else 1) && reply.Valid()
    ensures ConnInv(InSynSent(c, s, acked, reply).conn) && Fits(InSynSent(c, s, acked, reply).out)
  {
    AppSendKeeps(OfferedMss(c, s).(state := Established, rcvNxt := Add32(s.seqno, 1)),
                 QUIET.(connected := true, newdata := true), reply);
  }

  lemma ReceiveKeeps(c: Conn, s: Segment, rto: byte, reply: AppReply)
    requires ConnInv(c) && reply.Valid()
    ensures ConnInv(Receive(c, s, rto, reply).conn) && Fits(Receive(c, s, rto, reply).out)
  {
    var acked := Acknowledges(c, s);
    var c1 := if acked then AfterAck(c, rto) else c;
    match c.state
    case SynRcvd => InSynRcvdKeeps(c1, s, acked, reply);
    case SynSent => InSynSentKeeps(c1, s, acked, reply);
    case Established => InEstablishedKeeps(c1, s, acked, reply);
    case _ =>
  }

  lemma OpenKeeps(slot: Conn, iss: u32, lport: u16, rport: u16, ripaddr: u32, s: Segment)
    requires ConnInv(slot)
    ensures ConnInv(ActiveOpen(slot, iss, lport, rport, ripaddr))
    ensures ConnInv(PassiveOpen(slot, iss, lport, rport, ripaddr, s))
  {
  }

  // ---------- A silent peer ----------

  /** The connection after one timer tick for each reply of the application, and nothing else. */
  function Ticks(c: Conn, replies: seq<AppReply>): Conn
    requires ConnInv(c) && forall r :: r in replies ==> r.Valid()
    decreases |replies|
  {
    if replies == [] then c
    else
      TickKeeps(c, replies[0]);
      Ticks(Tick(c, replies[0]).conn, replies[1..])
  }

  function RetryLimit(c: Conn): nat {
    if c.state == SynSent || c.state == SynRcvd then UIP_MAXSYNRTX else UIP_MAXRTX
  }

  /** The ticks taken by retransmissions number `nrtx` up to the last one. */
  function BackoffTicks(nrtx: nat, limit: nat): nat
    decreases limit - nrtx
  {
    if nrtx >= limit then 0 else Backoff(nrtx) + 1 + BackoffTicks(nrtx + 1, limit)
  }

  /** The number of ticks after which an unanswered connection is given up. */
  function GiveUpTicks(c: Conn): nat {
    c.timer + 1 + BackoffTicks(c.nrtx, RetryLimit(c))
  }

  predicate Waiting(c: Conn) {
    c.len > 0 && c.state != Closed && c.state != TimeWait && c.state != FinWait2
  }

  lemma {:induction false} ClosedStays(c: Conn, replies: seq<AppReply>)
    requires ConnInv(c) && c.state == Closed && forall r :: r in replies ==> r.Valid()
    ensures Ticks(c, replies).state == Closed
    decreases |replies|
  {
    if replies != [] {
      ClosedStays(c, replies[1..]);
    }
  }

  /** One tick of waiting uses up one of the remaining ticks. */
  lemma GiveUpStep(c: Conn, reply: AppReply)
    requires ConnInv(c) && Waiting(c) && reply.Valid()
    ensures
      var c1 := Tick(c, reply).conn;
      if GiveUpTicks(c) == 1 then c1.state == Closed
      else ConnInv(c1) && Waiting(c1) && GiveUpTicks(c1) == GiveUpTicks(c) - 1
  {
    TickKeeps(c, reply);
  }

  /** A connection with outstanding data and a silent peer is closed after exactly this many ticks. */
  lemma {:induction false} SilentPeerCloses(c: Conn, replies: seq<AppReply>)
    requires ConnInv(c) && Waiting(c) && forall r :: r in replies ==> r.Valid()
    ensures Ticks(c, replies).state == Closed <==> |replies| >= GiveUpTicks(c)
    decreases |replies|
  {
    if replies != [] {
      GiveUpStep(c, replies[0]);
      TickKeeps(c, replies[0]);
      var c1 := Tick(c, replies[0]).conn;
      if GiveUpTicks(c) == 1 {
        ClosedStays(c1, replies[1..]);
      } else {
        SilentPeerCloses(c1, replies[1..]);
      }
    }
  }

  lemma GiveUpBound(c: Conn)
    requires ConnInv(c)
    ensures GiveUpTicks(c) <= c.timer + 246
    ensures c.nrtx == 0 && c.state == Established ==> GiveUpTicks(c) == c.timer + 246
  {
    assert BackoffTicks(8, 8) == 0;
    assert BackoffTicks(7, 8) == 49;
    assert BackoffTicks(6, 8) == 98;
    assert BackoffTicks(5, 8) == 147;
    assert BackoffTicks(4, 8) == 196;
    assert BackoffTicks(3, 8) == 221;
    assert BackoffTicks(2, 8) == 234;
    assert BackoffTicks(1, 8) == 241;
    assert BackoffTicks(5, 5) == 0;
    assert BackoffTicks(4, 5) == 49;
    assert BackoffTicks(3, 5) == 74;
    assert BackoffTicks(2, 5) == 87;
    assert BackoffTicks(1, 5) == 94;
    assert BackoffTicks(0, 5) == 98;
  }

  /** The ticks left in the states that only wait; the 8-bit timer may have to wrap around first. */
  function WaitTicks(c: Conn): (n: nat)
    ensures 1 <= n <= 256
  {
    if c.timer < UIP_TIME_WAIT_TIMEOUT then UIP_TIME_WAIT_TIMEOUT - c.timer
    else UIP_TIME_WAIT_TIMEOUT + 256 - c.timer
  }

  /** FIN_WAIT_2 and TIME_WAIT close by themselves after exactly this many ticks. */
  lemma {:induction false} WaitStateCloses(c: Conn, replies: seq<AppReply>)
    requires ConnInv(c) && (c.state == TimeWait || c.state == FinWait2)
    requires forall r :: r in replies ==> r.Valid()
    ensures Ticks(c, replies).state == Closed <==> |replies| >= WaitTicks(c)
    decreases |replies|
  {
    if replies != [] {
      TickKeeps(c, replies[0]);
      var c1 := Tick(c, replies[0]).conn;
      if c1.state == Closed {
        ClosedStays(c1, replies[1..]);
      } else {
        assert WaitTicks(c1) == WaitTicks(c) - 1;
        WaitStateCloses(c1, replies[1..]);
      }
    }
  }

  // ---------- A segment size of zero ----------

  /** The segment size after a passive opening is the offered one or, without an offer, that of the table entry. */
  lemma PassiveSize(slot: Conn, iss: u32, lport: u16, rport: u16, ripaddr: u32, s: Segment)
    ensures
      var c := PassiveOpen(slot, iss, lport, rport, ripaddr, s);
      && (c.mss > 0 <==> if s.mssOption.Some? then s.mssOption.value > 0 else slot.mss > 0)
      && (c.initialMss > 0 <==> if s.mssOption.Some? then s.mssOption.value > 0 else slot.initialMss > 0)
  {
  }

  /** Nothing in flight is data, and the size of a segment is zero. */
  predicate Mute(c: Conn) {
    c.initialMss == 0 && c.state != SynSent && (c.state == Established ==> c.len == 0)
  }

  datatype Invocation = Timer(reply: AppReply) | Arrival(s: Segment, rto: byte, reply: AppReply)

  function Invoked(c: Conn, i: Invocation): Outcome
    requires ConnInv(c) && i.reply.Valid()
  {
    match i
    case Timer(reply) => Tick(c, reply)
    case Arrival(s, rto, reply) => if c.state == Closed then Outcome(c, None, None) else Receive(c, s, rto, reply)
  }

  lemma InvokedKeeps(c: Conn, i: Invocation)
    requires ConnInv(c) && i.reply.Valid()
    ensures ConnInv(Invoked(c, i).conn)
  {
    match i
    case Timer(reply) => TickKeeps(c, reply);
    case Arrival(s, rto, reply) => ReceiveKeeps(c, s, rto, reply);
  }

  /** No packet of the connection carries data, whatever the application and the peer do. */
  ghost predicate NeverSends(c: Conn, run: seq<Invocation>)
    requires ConnInv(c) && forall i :: i in run ==> i.reply.Valid()
    decreases |run|
  {
    run == [] ||
    (var o := Invoked(c, run[0]);
     InvokedKeeps(c, run[0]);
     (o.out.Some? ==> o.out.value.data == []) && NeverSends(o.conn, run[1..]))
  }

  lemma MuteStays(c: Conn, i: Invocation)
    requires ConnInv(c) && Mute(c) && i.reply.Valid()
    ensures
      var o := Invoked(c, i);
      Mute(o.conn) && (o.out.Some? ==> o.out.value.data == [])
  {
  }

  lemma {:induction false} MuteForever(c: Conn, run: seq<Invocation>)
    requires ConnInv(c) && Mute(c) && forall i :: i in run ==> i.reply.Valid()
    ensures NeverSends(c, run)
    decreases |run|
  {
    if run != [] {
      MuteStays(c, run[0]);
      InvokedKeeps(c, run[0]);
      MuteForever(Invoked(c, run[0]).conn, run[1..]);
    }
  }

  /** A connection can put data in flight exactly when its segment size is not zero. */
  lemma SendsExactlyWhen(c: Conn, reply: AppReply)
    requires ConnInv(c) && c.state == Established && c.len == 0
    requires reply.Valid() && reply.action == Continue && reply.slen > 0
    ensures Tick(c, reply).conn.len > 0 <==> c.mss > 0
  {
  }

  /** A table entry that has never been used, opened by a SYN without the option, never sends a byte. */
  lemma FreshEntryIsMute(slot: Conn, iss: u32, lport: u16, rport: u16, ripaddr: u32, s: Segment, run: seq<Invocation>)
    requires slot.state == Closed && slot.mss == slot.initialMss == slot.len == slot.nrtx == 0 && s.mssOption.None?
    requires forall i :: i in run ==> i.reply.Valid()
    ensures
      var c := PassiveOpen(slot, iss, lport, rport, ripaddr, s);
      ConnInv(c) && NeverSends(c, run)
  {
    OpenKeeps(slot, iss, lport, rport, ripaddr, s);
    MuteForever(PassiveOpen(slot, iss, lport, rport, ripaddr, s), run);
  }

  // ---------- Opening that fails ----------

  /** What ends an attempt to connect. */
  lemma OpeningFails(c: Conn, s: Segment, rto: byte, reply: AppReply)
    requires ConnInv(c) && c.state == SynSent && reply.Valid()
    ensures Receive(c, s, rto, reply).conn.state == Closed <==>
      || s.rst
      || (!Unexpected(c, s) && (!(Acknowledges(c, s) && s.IsSynAck()) || reply.action == Abort))
  {
  }
}
