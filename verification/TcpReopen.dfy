/**
 A listener that takes up an old SYN again, with a new initial sequence number. That number grows
 by one with every call of the timer, so that the acknowledgments of two incarnations can be the same.
 */
module TcpReopen {
  import opened Bytes
  import opened Wrappers
  import opened UipOpt
  import opened Tcp
  import opened TcpNet
  import opened TcpConversation

  /** The listener takes an old SYN up again and answers it with a new initial sequence number. */
  function Reopened(slot: Conn, syn: Segment, iss: u32): Conn {
    PassiveOpen(slot, iss, slot.lport, slot.rport, slot.ripaddr, syn)
  }

  /** `syn` is a SYN that `x` can have sent to the old incarnation. */
  ghost predicate OldSyn(x: Endpoint, oldIss: u32, syn: Segment) {
    syn.IsSyn() && SegmentInv(x, oldIss, syn)
  }

  /** How far `x` must have got with the old incarnation for one of its acknowledgments to fit the new one. */
  function Coincidence(oldIss: u32, newIss: u32): nat {
    (newIss as int + 1 - oldIss) % 0x1_0000_0000
  }

  /** `x` has taken over as much from the old incarnation as the initial sequence number has grown since. */
  predicate Coincides(x: Endpoint, oldIss: u32, newIss: u32) {
    x.synced && 1 <= Coincidence(oldIss, newIss) <= RecvOffset(x)
  }

  /** The arrivals of a run are packets that `x` can have sent to the old incarnation. */
  ghost predicate OldTraffic(x: Endpoint, oldIss: u32, run: seq<Invocation>) {
    forall i :: i in run ==> i.reply.Valid() && (i.Arrival? ==> SegmentInv(x, oldIss, i.s))
  }

  /** What the application is given during a run. */
  function GivenBy(c: Conn, run: seq<Invocation>): seq<byte>
    requires ConnInv(c) && forall i :: i in run ==> i.reply.Valid()
    decreases |run|
  {
    if run == [] then []
    else
      InvokedKeeps(c, run[0]);
      var o := Invoked(c, run[0]);
      Given(o.event) + GivenBy(o.conn, run[1..])
  }

  lemma CoincidenceFits(oldIss: u32, newIss: u32)
    ensures SeqOf(oldIss, Coincidence(oldIss, newIss)) == Add32(newIss, 1)
  {
  }

  lemma OldAckMeans(x: Endpoint, oldIss: u32, newIss: u32, ackno: u32)
    requires ackno == Add32(newIss, 1) && RecvOffset(x) < 0x1_0000_0000
    requires exists j: nat :: 1 <= j <= RecvOffset(x) && ackno == SeqOf(oldIss, j)
    ensures 1 <= Coincidence(oldIss, newIss) <= RecvOffset(x)
  {
    var j: nat :| 1 <= j <= RecvOffset(x) && ackno == SeqOf(oldIss, j);
    CoincidenceFits(oldIss, newIss);
    SeqUnique(oldIss, j, Coincidence(oldIss, newIss));
  }

  /** Without the coincidence the reopened connection stays as it is, or closes. */
  predicate Unmoved(c: Conn, newIss: u32) {
    c.state == Closed || (c.state == SynRcvd && c.len == 1 && c.sndNxt == newIss)
  }

  lemma StaysUnmoved(c: Conn, x: Endpoint, oldIss: u32, newIss: u32, i: Invocation)
    requires ConnInv(c) && Unmoved(c, newIss) && i.reply.Valid() && RecvOffset(x) < 0x1_0000_0000
    requires i.Arrival? ==> SegmentInv(x, oldIss, i.s)
    requires !Coincides(x, oldIss, newIss)
    ensures Unmoved(Invoked(c, i).conn, newIss) && Given(Invoked(c, i).event) == []
  {
    if i.Arrival? && c.state == SynRcvd && !i.s.rst && Acknowledges(c, i.s) {
      OldAckMeans(x, oldIss, newIss, i.s.ackno);
    }
  }

  lemma {:induction false} NothingEnters(c: Conn, x: Endpoint, oldIss: u32, newIss: u32, run: seq<Invocation>)
    requires ConnInv(c) && Unmoved(c, newIss) && OldTraffic(x, oldIss, run) && RecvOffset(x) < 0x1_0000_0000
    requires !Coincides(x, oldIss, newIss)
    ensures GivenBy(c, run) == []
    decreases |run|
  {
    if run != [] {
      StaysUnmoved(c, x, oldIss, newIss, run[0]);
      InvokedKeeps(c, run[0]);
      NothingEnters(Invoked(c, run[0]).conn, x, oldIss, newIss, run[1..]);
    }
  }

  /** An invocation gives the application nothing but the data of the segment. */
  lemma GivenIsData(c: Conn, i: Invocation)
    requires ConnInv(c) && i.reply.Valid()
    ensures Given(Invoked(c, i).event) == [] || (i.Arrival? && !i.s.rst && Given(Invoked(c, i).event) == i.s.data)
  {
  }

  lemma NoDataYet(x: Endpoint, oldIss: u32, s: Segment)
    requires SegmentInv(x, oldIss, s) && x.out == [] && !s.rst
    ensures s.data == []
  {
  }

  lemma {:induction false} NothingSent(c: Conn, x: Endpoint, oldIss: u32, run: seq<Invocation>)
    requires ConnInv(c) && OldTraffic(x, oldIss, run) && x.out == []
    ensures GivenBy(c, run) == []
    decreases |run|
  {
    if run != [] {
      GivenIsData(c, run[0]);
      InvokedKeeps(c, run[0]);
      if run[0].Arrival? && !run[0].s.rst {
        NoDataYet(x, oldIss, run[0].s);
      }
      NothingSent(Invoked(c, run[0]).conn, x, oldIss, run[1..]);
    }
  }

  /** The first byte of `x`, with an acknowledgment of the first `j - 1` bytes of the old incarnation. */
  function FirstByte(x: Endpoint, oldIss: u32, j: nat): Segment
    requires x.out != []
  {
    Segment(SeqOf(x.iss, 1), SeqOf(oldIss, j), false, true, false, false, true, UIP_RECEIVE_WINDOW, None, x.out[..1])
  }

  lemma FirstByteEnters(c: Conn, x: Endpoint, oldIss: u32, newIss: u32, reply: AppReply)
    requires ConnInv(c) && c.state == SynRcvd && c.sndNxt == newIss && c.rcvNxt == SeqOf(x.iss, 1) && reply.Valid()
    requires x.out != [] && Coincides(x, oldIss, newIss)
    ensures
      var s := FirstByte(x, oldIss, Coincidence(oldIss, newIss));
      && SegmentInv(x, oldIss, s)
      && GivenBy(c, [Arrival(s, 0, reply)]) == x.out[..1]
  {
    var s := FirstByte(x, oldIss, Coincidence(oldIss, newIss));
    assert PieceAt(x, s, 0);
    assert AckCovers(x, oldIss, s);
    CoincidenceFits(oldIss, newIss);
    assert Given(Invoked(c, Arrival(s, 0, reply)).event) == x.out[..1];
  }

  /** The old SYN makes a connection that expects the first byte of `x`. */
  lemma ReopenedExpects(slot: Conn, x: Endpoint, oldIss: u32, syn: Segment, newIss: u32)
    requires ConnInv(slot) && OldSyn(x, oldIss, syn)
    ensures
      var c := Reopened(slot, syn, newIss);
      ConnInv(c) && c.state == SynRcvd && c.len == 1 && c.sndNxt == newIss && c.rcvNxt == SeqOf(x.iss, 1)
  {
    OpenKeeps(slot, newIss, slot.lport, slot.rport, slot.ripaddr, syn);
  }

  ghost predicate DataCanEnter(c: Conn, x: Endpoint, oldIss: u32)
    requires ConnInv(c)
  {
    exists run :: OldTraffic(x, oldIss, run) && GivenBy(c, run) != []
  }

  /**
   Old packets, however many and in whatever order, can give data to the new incarnation exactly
   when `x` has sent something and the numbers coincide.
   */
  lemma OldDataEntersExactlyWhen(slot: Conn, x: Endpoint, oldIss: u32, syn: Segment, newIss: u32)
    requires ConnInv(slot) && OldSyn(x, oldIss, syn) && RecvOffset(x) < 0x1_0000_0000
    ensures ConnInv(Reopened(slot, syn, newIss))
    ensures DataCanEnter(Reopened(slot, syn, newIss), x, oldIss) <==> x.out != [] && Coincides(x, oldIss, newIss)
  {
    var c := Reopened(slot, syn, newIss);
    ReopenedExpects(slot, x, oldIss, syn, newIss);
    if run :| OldTraffic(x, oldIss, run) && GivenBy(c, run) != [] {
      if x.out == [] {
        NothingSent(c, x, oldIss, run);
      }
      if !Coincides(x, oldIss, newIss) {
        NothingEnters(c, x, oldIss, newIss, run);
      }
    }
    if x.out != [] && Coincides(x, oldIss, newIss) {
      var reply := AppReply(Continue, 0, seq(UIP_TCP_MSS, _ => 0));
      FirstByteEnters(c, x, oldIss, newIss, reply);
      var run := [Arrival(FirstByte(x, oldIss, Coincidence(oldIss, newIss)), 0, reply)];
      assert OldTraffic(x, oldIss, run) && GivenBy(c, run) != [];
    }
  }

  // ---------- A run in which the numbers coincide ----------

  predicate Writes(reply: AppReply, data: seq<byte>) {
    && 0 < |data| <= UIP_TCP_MSS && reply.Valid() && reply.action == Continue
    && reply.slen == |data| && reply.buffer[..|data|] == data
  }

  /** The listener has sent `d` on connecting. */
  predicate Greeted(g: Net, d: seq<byte>) {
    && ConnInv(g.a.conn) && Numbered(g)
    && g.a.conn.state == Established && g.a.conn.len == 0 && g.a.synced
    && g.a.out == g.a.received == [] && g.b.out == d
    && g.a.conn.sndNxt == SeqOf(g.a.iss, 1) && g.a.conn.rcvNxt == SeqOf(g.b.iss, 1)
    && DataPacket(g.b.conn, d) in g.ba && g.b.conn.sndNxt == SeqOf(g.b.iss, 1)
  }

  lemma GreetingGoesOut(states: seq<Net>, d: seq<byte>, rto: byte, reply: AppReply) returns (g: Net)
    requires SmallRun(states) && Acked(Last(states)) && Writes(reply, d)
    ensures SmallRun(states + [g]) && Greeted(g, d) && Continues(Last(states), g)
  {
    var before := Last(states);
    ReceiveIsStep(Swapped(before), AckPacket(before.a.conn), rto, reply);
    g := Swapped(Received(Swapped(before), AckPacket(before.a.conn), rto, reply));
    RunExtended(states, g);
  }

  /** The opening side has taken over the greeting and answered it with `data`. */
  predicate Replied(g: Net, d: seq<byte>, data: seq<byte>) {
    && g.a.out == data && g.a.received == d && g.a.synced
    && g.a.conn.sndNxt == SeqOf(g.a.iss, 1) && g.a.conn.rcvNxt == SeqOf(g.b.iss, 1 + |d|)
    && DataPacket(g.a.conn, data) in g.ab
  }

  /** The packet that answers the greeting. */
  lemma GreetingIsAnswered(c: Conn, s: Segment, data: seq<byte>, rto: byte, reply: AppReply)
    requires ConnInv(c) && c.state == Established && c.len == 0 && c.mss == c.initialMss == UIP_TCP_MSS
    requires !s.rst && !s.syn && !s.fin && s.seqno == c.rcvNxt && s.wnd == UIP_RECEIVE_WINDOW
    requires 0 < |s.data| <= UIP_TCP_MSS && Writes(reply, data)
    ensures
      var o := Receive(c, s, rto, reply);
      && o.conn == c.(rcvNxt := Add32(c.rcvNxt, |s.data|), len := |data|, nrtx := 0)
      && o.out == Some(DataPacket(o.conn, data)) && o.event.Some?
  {
    var c1 := c.(rcvNxt := Add32(c.rcvNxt, |s.data|));
    assert Receive(c, s, rto, reply) == AppSend(c1, QUIET.(newdata := true, data := s.data), reply);
  }

  /** What the answer adds to the history of the endpoint. */
  lemma AnswerIsRecorded(e: Endpoint, o: Outcome, s: Segment, data: seq<byte>)
    requires e.conn.state == Established && e.conn.len == 0 && e.out == e.received == []
    requires 0 < |s.data| <= UIP_TCP_MSS && 0 < |data| <= UIP_TCP_MSS
    requires o.conn == e.conn.(rcvNxt := Add32(e.conn.rcvNxt, |s.data|), len := |data|, nrtx := 0)
    requires o.out == Some(DataPacket(o.conn, data)) && o.event.Some?
    ensures Record(e, o, Some(s)).out == data && Record(e, o, Some(s)).received == s.data
  {
    assert TakenOver(e.conn, o.conn, Some(s)) == s.data;
    assert NewlySent(e.conn, o) == data;
  }

  lemma GreetingIsTaken(g: Net, d: seq<byte>, data: seq<byte>, rto: byte, reply: AppReply)
    requires Greeted(g, d) && 0 < |d| <= UIP_TCP_MSS && Writes(reply, data)
    ensures
      var g' := Received(g, DataPacket(g.b.conn, d), rto, reply);
      Replied(g', d, data) && Continues(g, g') && g'.b == g.b
  {
    var s := DataPacket(g.b.conn, d);
    GreetingIsAnswered(g.a.conn, s, data, rto, reply);
    AnswerIsRecorded(g.a, Receive(g.a.conn, s, rto, reply), s, data);
    SeqAdd(g.b.iss, 1, |d|);
  }

  lemma DataIsReplied(states: seq<Net>, d: seq<byte>, data: seq<byte>, rto: byte, reply: AppReply) returns (g: Net)
    requires SmallRun(states) && Greeted(Last(states), d) && 0 < |d| <= UIP_TCP_MSS && Writes(reply, data)
    ensures SmallRun(states + [g]) && Replied(g, d, data) && Continues(Last(states), g)
  {
    var before, s := Last(states), DataPacket(Last(states).b.conn, d);
    ReceiveIdleIsStep(before, s, rto, reply);
    g := Received(before, s, rto, reply);
    GreetingIsTaken(before, d, data, rto, reply);
    RunExtended(states, g);
  }

  /** Of the packets a run has left on the network, one of them enters the reopened connection. */
  predicate EntersAgain(g: Net, slot: Conn, syn: Segment, newIss: u32, data: seq<byte>, reply: AppReply)
    requires ConnInv(Reopened(slot, syn, newIss)) && reply.Valid()
  {
    && syn in g.ab && DataPacket(g.a.conn, data) in g.ab
    && GivenBy(Reopened(slot, syn, newIss), [Arrival(DataPacket(g.a.conn, data), 0, reply)]) == data
  }

  lemma RepliedEnters(g: Net, d: seq<byte>, data: seq<byte>, slot: Conn, syn: Segment, reply: AppReply)
    requires Replied(g, d, data) && data != [] && ConnInv(slot) && reply.Valid()
    requires syn in g.ab && syn.IsSyn() && syn.seqno == g.a.iss
    ensures ConnInv(Reopened(slot, syn, SeqOf(g.b.iss, |d|)))
    ensures EntersAgain(g, slot, syn, SeqOf(g.b.iss, |d|), data, reply)
  {
    var c, s := Reopened(slot, syn, SeqOf(g.b.iss, |d|)), DataPacket(g.a.conn, data);
    OpenKeeps(slot, SeqOf(g.b.iss, |d|), slot.lport, slot.rport, slot.ripaddr, syn);
    SeqAdd(g.b.iss, |d|, 1);
    assert Given(Invoked(c, Arrival(s, 0, reply)).event) == data;
  }

  /** The replies of the two applications to the SYNACK, to its acknowledgment and to the greeting. */
  datatype Replies = Replies(connected: AppReply, greeting: AppReply, answer: AppReply)
  {
    predicate Valid(d: seq<byte>, data: seq<byte>) {
      Silent(connected) && Writes(greeting, d) && Writes(answer, data)
    }
  }

  /**
   From every initial state there is a run of the network after which a SYN and a data packet are
   under way that open the listener again, |d| calls of the timer later, and give it the data once more.
   */
  lemma OldDataEntersRun(g: Net, d: seq<byte>, data: seq<byte>, rto: byte, replies: Replies)
    returns (states: seq<Net>, syn: Segment)
    requires Init(g) && g.a.active && g.a.conn.timer == 1 && g.a.conn.nrtx == 0 && replies.Valid(d, data)
    ensures SmallRun(states) && states[0] == g
    ensures forall slot: Conn, reply: AppReply | ConnInv(slot) && reply.Valid() ::
      && ConnInv(Reopened(slot, syn, SeqOf(Last(states).b.iss, |d|)))
      && EntersAgain(Last(states), slot, syn, SeqOf(Last(states).b.iss, |d|), data, reply)
  {
    states := SynGoesOut(g, replies.connected);
    syn := SynPacket(Last(states).a.conn);
    var g1 := SynIsAccepted(states);
    states := states + [g1];
    var g2 := AckGoesOut(states, rto, replies.connected);
    states := states + [g2];
    var g3 := GreetingGoesOut(states, d, rto, replies.greeting);
    states := states + [g3];
    var g4 := DataIsReplied(states, d, data, rto, replies.answer);
    states := states + [g4];
    forall slot: Conn, reply: AppReply | ConnInv(slot) && reply.Valid()
      ensures ConnInv(Reopened(slot, syn, SeqOf(g4.b.iss, |d|)))
      ensures EntersAgain(g4, slot, syn, SeqOf(g4.b.iss, |d|), data, reply)
    {
      RepliedEnters(g4, d, data, slot, syn, reply);
    }
  }
}
