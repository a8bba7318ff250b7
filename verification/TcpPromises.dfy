/**
 What one invocation owes the peer and the application, in terms of packets and fields: what is
 sent again, what is acknowledged, what the application is told.
 */
module TcpPromises {
  import opened Bytes
  import opened Wrappers
  import opened UipOpt
  import opened Tcp

  // ---------- Sending again ----------

  predicate Opens(state: State) { state == SynSent || state == SynRcvd }

  predicate AwaitsFinAck(state: State) { state == FinWait1 || state == Closing || state == LastAck }

  /** The timer has run out with something outstanding. */
  predicate Expires(c: Conn) {
    c.len > 0 && c.timer == 0 && c.state != Closed
  }

  /** All retries have been used up: 5 while opening, 8 afterwards. */
  predicate Exhausted(c: Conn) {
    c.nrtx == 8 || (Opens(c.state) && c.nrtx == 5)
  }

  /** What was outstanding goes out again: SYN, SYNACK, FIN, or the bytes the application hands over once more. */
  lemma ExpiryRepeats(c: Conn, reply: AppReply)
    requires ConnInv(c) && reply.Valid() && Expires(c) && !Exhausted(c)
    ensures
      var o := Tick(c, reply);
      && o.conn == c.(nrtx := c.nrtx + 1, timer := 3 * Pow2(if c.nrtx < 4 then c.nrtx else 4))
      && o.event == (if c.state == Established then Some(QUIET.(rexmit := true)) else None)
      && (o.out == None <==> c.state == Established && reply.slen == 0)
      && (o.out.Some? ==>
            var s := o.out.value;
            && s.seqno == c.sndNxt && !s.rst
            && (s.syn <==> c.state == SynSent || c.state == SynRcvd)
            && (s.fin <==> c.state == FinWait1 || c.state == Closing || c.state == LastAck)
            && (s.ack <==> c.state != SynSent) && (s.ack ==> s.ackno == c.rcvNxt)
            && (s.syn ==> s.mssOption == Some(UIP_TCP_MSS))
            && s.data == if c.state == Established then reply.buffer[..c.len] else [])
  {
    assert Pow2(1) == 2;
    assert Pow2(2) == 4;
    assert Pow2(3) == 8;
    assert Pow2(4) == 16;
  }

  /** The peer is told with a reset, and the application with an event of its own. */
  lemma GivingUpIsTold(c: Conn, reply: AppReply)
    requires ConnInv(c) && reply.Valid() && Expires(c) && Exhausted(c)
    ensures
      var o := Tick(c, reply);
      && o.conn.state == Closed && o.event == Some(QUIET.(timedout := true))
      && o.out.Some? && o.out.value.rst && o.out.value.ack
      && o.out.value.seqno == c.sndNxt && o.out.value.ackno == c.rcvNxt && o.out.value.data == []
  {
  }

  /** An unanswered opening is given up after 100 ticks by the active and 102 by the passive side. */
  lemma OpeningGivesUp(slot: Conn, iss: u32, lport: u16, rport: u16, ripaddr: u32, s: Segment, replies: seq<AppReply>)
    requires ConnInv(slot) && forall r :: r in replies ==> r.Valid()
    ensures
      var a, p := ActiveOpen(slot, iss, lport, rport, ripaddr), PassiveOpen(slot, iss, lport, rport, ripaddr, s);
      && ConnInv(a) && (Ticks(a, replies).state == Closed <==> |replies| >= 100)
      && ConnInv(p) && (Ticks(p, replies).state == Closed <==> |replies| >= 102)
  {
    var a, p := ActiveOpen(slot, iss, lport, rport, ripaddr), PassiveOpen(slot, iss, lport, rport, ripaddr, s);
    OpenKeeps(slot, iss, lport, rport, ripaddr, s);
    OpeningTicks();
    SilentPeerCloses(a, replies);
    SilentPeerCloses(p, replies);
  }

  lemma OpeningTicks()
    ensures BackoffTicks(0, UIP_MAXSYNRTX) == 98
  {
    assert BackoffTicks(4, 5) == 49;
    assert BackoffTicks(2, 5) == 87;
  }

  // ---------- Acknowledging ----------

  /**
   The segments in sequence that draw no answer: those that come before the acknowledgment of the
   SYNACK, or after the FIN of the peer; data together with the acknowledgment of our own FIN; and a FIN
   while data is in flight.
   */
  predicate Unanswered(c: Conn, s: Segment) {
    var acked := s.ack && c.len > 0 && s.ackno == Add32(c.sndNxt, c.len);
    && s.seqno == c.rcvNxt
    && match c.state
       case SynRcvd => !acked
       case Closing => true
       case LastAck => true
       case Established => s.fin && c.len > 0 && !acked
       case FinWait1 => acked && !s.fin
       case _ => false
  }

  /**
   Every other segment with data, and every other FIN, is answered at once with the number that is
   expected next. A FIN without data does not count in SYN_RCVD.
   */
  lemma AnswersAreCumulative(c: Conn, s: Segment, rto: byte, reply: AppReply)
    requires ConnInv(c) && c.state != Closed && c.state != SynSent && reply.Valid()
    requires !s.rst && (s.data != [] || (s.fin && c.state != SynRcvd))
    ensures
      var o := Receive(c, s, rto, reply);
      && (o.out.None? <==> Unanswered(c, s))
      && (o.out.Some? ==> o.out.value.ack && o.out.value.ackno == o.conn.rcvNxt)
  {
  }

  /** The acknowledgment of the own FIN, and only that, is what the states after it wait for. */
  lemma FinIsAcknowledged(c: Conn, s: Segment, rto: byte, reply: AppReply)
    requires ConnInv(c) && AwaitsFinAck(c.state) && reply.Valid()
    requires !s.rst && !s.syn && !s.fin && s.data == []
    ensures
      var o := Receive(c, s, rto, reply);
      if s.ack && s.ackno == Add32(c.sndNxt, 1) then
        && o.conn.sndNxt == Add32(c.sndNxt, 1) && o.conn.len == 0
        && match c.state
           case FinWait1 => o.conn.state == FinWait2
           case Closing => o.conn.state == TimeWait && o.conn.timer == 0
           case _ => o.conn.state == Closed
      else o == Outcome(c, None, None)
  {
  }

  // ---------- What the application is told ----------

  /** The application is told of every end that it has not brought about itself. */
  lemma EveryEndIsTold(c: Conn, i: Invocation)
    requires ConnInv(c) && i.reply.Valid() && c.state != Closed && Invoked(c, i).conn.state == Closed
    ensures
      var e := Invoked(c, i).event;
      if i.Timer? && (c.state == TimeWait || c.state == FinWait2) then e == None
      else
        && e.Some?
        && (i.reply.action != Abort ==>
              if i.Timer? then e.value.timedout
              else if c.state == LastAck && !i.s.rst then e.value.closed
              else e.value.aborted)
  {
  }

  /** The beginning is told exactly when the own SYN is acknowledged, by a SYNACK for the active side. */
  lemma ConnectionIsTold(c: Conn, s: Segment, rto: byte, reply: AppReply)
    requires ConnInv(c) && Opens(c.state) && reply.Valid()
    ensures
      var o := Receive(c, s, rto, reply);
      var connects :=
        && !s.rst && s.ack && s.ackno == Add32(c.sndNxt, 1)
        && if c.state == SynSent then s.syn && !s.fin && !s.psh
           else s.data != [] || s.syn || s.fin ==> s.seqno == c.rcvNxt;
      && (connects <==> o.event.Some? && o.event.value.connected)
      && (connects ==>
            && o.conn.sndNxt == Add32(c.sndNxt, 1)
            && o.conn.rcvNxt == (if c.state == SynSent then Add32(s.seqno, 1) else Add32(c.rcvNxt, |s.data|))
            && (reply.action == Continue ==> o.conn.state == Established))
  {
  }

  /** While connected it is told of every acknowledgment and given the data of every segment in sequence. */
  lemma ProgressIsTold(c: Conn, s: Segment, rto: byte, reply: AppReply)
    requires ConnInv(c) && c.state == Established && reply.Valid() && !s.rst && !s.fin
    requires s.data != [] || s.syn ==> s.seqno == c.rcvNxt
    ensures
      var acked := s.ack && c.len > 0 && s.ackno == Add32(c.sndNxt, c.len);
      Receive(c, s, rto, reply).event ==
        if acked || s.data != [] then Some(QUIET.(acked := acked, newdata := s.data != [], data := s.data)) else None
  {
  }

  /** With nothing in flight it is polled with every tick. */
  lemma IdleIsPolled(c: Conn, reply: AppReply)
    requires ConnInv(c) && c.state == Established && c.len == 0 && reply.Valid()
    ensures Tick(c, reply).event == Some(QUIET.(poll := true))
  {
  }

  /** The FIN of the peer is told as soon as it is taken over; the connection waits for nothing but its own. */
  lemma PeersFinIsTold(c: Conn, s: Segment, rto: byte, reply: AppReply)
    requires ConnInv(c) && reply.Valid()
    requires c.state == Established || c.state == FinWait1 || c.state == FinWait2
    ensures
      var o := Receive(c, s, rto, reply);
      var acked := s.ack && c.len > 0 && s.ackno == Add32(c.sndNxt, c.len);
      var taken := !s.rst && s.fin && s.seqno == c.rcvNxt && (c.state == Established ==> acked || c.len == 0);
      && (taken <==> o.event.Some? && o.event.value.closed)
      && (taken ==>
            && o.conn.rcvNxt == Add32(c.rcvNxt, |s.data| + 1)
            && o.conn.state == if c.state == Established then LastAck
                               else if c.state == FinWait1 && !acked then Closing else TimeWait)
  {
    var acked := Acknowledges(c, s);
    var c1 := if acked then AfterAck(c, rto) else c;
    if c.state == Established {
      EstablishedFinIsTold(c1, s, acked, reply);
    } else {
      HalfClosedFinIsTold(c1, s, acked);
    }
  }

  lemma EstablishedFinIsTold(c: Conn, s: Segment, acked: bool, reply: AppReply)
    requires ConnInv(c) && c.state == Established && reply.Valid()
    ensures
      var o := InEstablished(c, s, acked, reply);
      && (o.event.Some? && o.event.value.closed <==> s.fin && c.len == 0)
      && (s.fin && c.len == 0 ==> o.conn.rcvNxt == Add32(c.rcvNxt, |s.data| + 1) && o.conn.state == LastAck)
  {
  }

  lemma HalfClosedFinIsTold(c: Conn, s: Segment, acked: bool)
    requires c.state == FinWait1 || c.state == FinWait2
    ensures
      var o := InFinWait(c, s, acked);
      && (o.event.Some? && o.event.value.closed <==> s.fin)
      && (s.fin ==>
            && o.conn.rcvNxt == Add32(c.rcvNxt, |s.data| + 1)
            && o.conn.state == if c.state == FinWait1 && !acked then Closing else TimeWait)
  {
  }

  // ---------- The segment size ----------

  /** A window of the peer never brings the size of a segment down to zero, nor above what was agreed. */
  lemma SizeStaysPositive(c: Conn, i: Invocation)
    requires ConnInv(c) && i.reply.Valid()
    requires c.initialMss > 0 ==> c.mss > 0
    ensures
      var c' := Invoked(c, i).conn;
      && (c'.initialMss > 0 ==> c'.mss > 0) && c'.mss <= c'.initialMss
      && (c.state != SynSent ==> c'.initialMss == c.initialMss)
  {
    match i
    case Timer(reply) => TickKeepsSize(c, reply);
    case Arrival(s, rto, reply) => ReceiveKeepsSize(c, s, rto, reply);
  }

  lemma TickKeepsSize(c: Conn, reply: AppReply)
    requires ConnInv(c) && reply.Valid()
    ensures Tick(c, reply).conn.mss == c.mss && Tick(c, reply).conn.initialMss == c.initialMss
  {
  }

  lemma ReceiveKeepsSize(c: Conn, s: Segment, rto: byte, reply: AppReply)
    requires ConnInv(c) && reply.Valid() && (c.initialMss > 0 ==> c.mss > 0)
    ensures
      var c' := Receive(c, s, rto, reply).conn;
      && (c'.initialMss > 0 ==> c'.mss > 0) && c'.mss <= c'.initialMss
      && (c.state != SynSent ==> c'.initialMss == c.initialMss)
  {
  }

  /** In ESTABLISHED it is the window of the last acceptable segment, as far as that is in these bounds. */
  lemma WindowIsSize(c: Conn, s: Segment, rto: byte, reply: AppReply)
    requires ConnInv(c) && c.state == Established && reply.Valid()
    requires !s.rst && !s.fin && (s.data != [] || s.syn ==> s.seqno == c.rcvNxt)
    ensures
      var c' := Receive(c, s, rto, reply).conn;
      c'.mss == if 0 < s.wnd <= c.initialMss then s.wnd else c.initialMss
  {
  }

  // ---------- Opening and refusing ----------

  /** The first packet of the connection goes out with the second tick: a SYN with this number. */
  ghost predicate SynIsDue(c: Conn, iss: u32) {
    ConnInv(c) && forall r: AppReply, r': AppReply :: r.Valid() && r'.Valid() ==> SynAtSecondTick(c, iss, r, r')
  }

  predicate SynAtSecondTick(c: Conn, iss: u32, r: AppReply, r': AppReply)
    requires ConnInv(c) && r.Valid() && r'.Valid()
  {
    TickKeeps(c, r);
    var o := Tick(c, r);
    var o' := Tick(o.conn, r');
    && o.out == None && o.event == None
    && o'.event == None && o'.out.Some?
    && var s := o'.out.value;
    && s.syn && !s.ack && !s.fin && !s.rst && s.data == []
    && s.seqno == iss && s.mssOption == Some(UIP_TCP_MSS)
  }

  lemma SynBecomesDue(c: Conn, iss: u32)
    requires ConnInv(c) && c.state == SynSent && c.sndNxt == iss && c.timer == 1 && c.nrtx == 0
    ensures SynIsDue(c, iss)
  {
    forall r: AppReply, r': AppReply | r.Valid() && r'.Valid() ensures SynAtSecondTick(c, iss, r, r') {
      assert Tick(c, r).conn == c.(timer := 0);
      ExpiryRepeats(c.(timer := 0), r');
    }
  }

  /** The reset with which a packet is refused is in sequence for its sender and ends the connection there. */
  lemma RefusalEndsTheSender(c: Conn, s: Segment, rto: byte, reply: AppReply)
    requires ConnInv(c) && reply.Valid() && !s.rst && s.seqno == c.sndNxt && s.ackno == c.rcvNxt
    ensures
      var r := ResetAnswer(s);
      && r.Some? && r.value.rst && r.value.data == []
      && r.value.seqno == c.rcvNxt && (c.len == 1 ==> Acknowledges(c, r.value))
      && Receive(c, r.value, rto, reply).conn.state == Closed
      && ResetAnswer(r.value) == None
  {
  }
}
