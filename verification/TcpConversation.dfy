/** Whole conversations: from the first SYN over any two streams of data to the end on both sides. */
module TcpConversation {
  import opened Bytes
  import opened Wrappers
  import opened UipOpt
  import opened Tcp
  import opened TcpNet
  import opened TcpPromises
  import opened TcpStopWait
  import opened TcpProgress

  // ---------- The handshake ----------

  /** Nothing that has been sent is taken back. */
  predicate Continues(g: Net, g': Net) {
    g.ab <= g'.ab && g'.a.iss == g.a.iss
  }

  predicate Silent(reply: AppReply) {
    reply.Valid() && reply.action == Continue && reply.slen == 0
  }

  /** The opening side has answered the SYNACK without data. */
  predicate Acked(g: Net) {
    && ConnInv(g.a.conn) && ConnInv(g.b.conn) && Numbered(g)
    && g.a.conn.state == Established && g.a.conn.len == g.a.conn.nrtx == 0 && g.a.synced
    && g.a.out == g.a.received == g.b.out == []
    && g.b.conn.state == SynRcvd && g.b.conn.mss == UIP_TCP_MSS && g.b.conn.sndNxt == g.b.iss
    && g.a.conn.sndNxt == SeqOf(g.a.iss, 1) == g.b.conn.rcvNxt && g.a.conn.rcvNxt == SeqOf(g.b.iss, 1)
    && AckPacket(g.a.conn) in g.ab
  }

  lemma AckGoesOut(states: seq<Net>, rto: byte, reply: AppReply) returns (g: Net)
    requires SmallRun(states) && Answering(Last(states)) && Numbered(Last(states)) && Silent(reply)
    ensures SmallRun(states + [g]) && Acked(g) && Continues(Last(states), g)
  {
    var before := Last(states);
    ReceiveIsStep(before, SynAckPacket(before.b.conn), rto, reply);
    g := Received(before, SynAckPacket(before.b.conn), rto, reply);
    RunExtended(states, g);
  }

  lemma SynAckIsAcknowledged(c: Conn, s: Segment)
    requires ConnInv(c) && c.state == SynRcvd && s.ack && !s.rst && !s.syn && !s.fin && s.data == []
    requires s.ackno == Add32(c.sndNxt, 1)
    ensures
      var o := Receive(c, s, 0, SILENT);
      && o.conn.state == Established && o.conn.len == 0 && o.conn.nrtx == 0
      && o.out == None && Given(o.event) == []
  {
  }

  lemma HandshakeCompletes(states: seq<Net>) returns (g: Net)
    requires SmallRun(states) && Acked(Last(states))
    ensures SmallRun(states + [g]) && Alive(g) && g.a.out == g.b.out == []
  {
    var before := Last(states);
    var s := AckPacket(before.a.conn);
    SeqAdd(before.b.iss, 0, 1);
    SynAckIsAcknowledged(before.b.conn, s);
    ReceiveIsStep(Swapped(before), s, 0, SILENT);
    g := Swapped(Received(Swapped(before), s, 0, SILENT));
    RecordWithoutData(before.b, Receive(before.b.conn, s, 0, SILENT), Some(s));
    RunExtended(states, g);
  }

  /** From every initial state both sides can get connected. */
  lemma BothSidesConnect(g: Net) returns (states: seq<Net>)
    requires Init(g) && g.a.active && g.a.conn.timer == 1 && g.a.conn.nrtx == 0
    ensures SmallRun(states) && states[0] == g && Alive(Last(states))
    ensures Last(states).a.out == Last(states).b.out == []
  {
    states := SynGoesOut(g, SILENT);
    var g1 := SynIsAccepted(states);
    states := states + [g1];
    var g2 := AckGoesOut(states, 0, SILENT);
    states := states + [g2];
    var g3 := HandshakeCompletes(states);
    states := states + [g3];
  }

  // ---------- A stream in one direction ----------

  /** The application is polled and hands over the next bytes. */
  lemma PollSends(c: Conn, data: seq<byte>)
    requires ConnInv(c) && c.state == Established && c.len == 0 && c.mss == UIP_TCP_MSS && 0 < |data| <= UIP_TCP_MSS
    ensures
      var o := Tick(c, Handing(data));
      && o.conn.state == Established && o.conn.nrtx == 0
      && o.event.Some? && o.out == Some(DataPacket(o.conn, data)) && o.conn.len == |data|
  {
  }

  predicate HandedOver(g: Net, g': Net, data: seq<byte>) {
    Small(g') && Alive(g') && g'.a.out == g.a.out + data && g'.b == g.b
  }

  lemma MoreIsSent(g: Net, data: seq<byte>) returns (g': Net)
    requires Sound(g) && Alive(g) && g.a.conn.len == 0 && 0 < |data| <= UIP_TCP_MSS && |g.a.out| + |data| < LIMIT
    ensures Step(g, g') && HandedOver(g, g', data)
  {
    g' := Ticked(g, Handing(data));
    PollSends(g.a.conn, data);
    assert TickStep(g, g', Handing(data));
  }

  /** The first side has sent `data` and seen it acknowledged, the other one has been given it. */
  predicate Transferred(g: Net, g': Net, data: seq<byte>) {
    && Alive(g') && g'.a.conn.len == 0 && g'.a.acked == |g'.a.out|
    && g'.a.out == g'.b.delivered == g.a.out + data && g'.b.out == g.b.out && g'.b.conn.len <= g.b.conn.len
  }

  lemma ChunkGetsThrough(states: seq<Net>, data: seq<byte>) returns (later: seq<Net>)
    requires SmallRun(states) && Alive(Last(states)) && Last(states).a.conn.len == 0
    requires 0 < |data| <= UIP_TCP_MSS && |Last(states).a.out| + |data| < LIMIT
    ensures SmallRun(later) && GoesOn(states, later) && Transferred(Last(states), Last(later), data)
  {
    RunIsSound(states);
    var g := MoreIsSent(Last(states), data);
    OneMore(states, g);
    later := InFlightGetsThrough(states + [g]);
  }

  /** From every reachable state of two connected sides: any further data can be sent and delivered. */
  lemma {:induction false} StreamGetsThrough(states: seq<Net>, data: seq<byte>) returns (later: seq<Net>)
    requires SmallRun(states) && Alive(Last(states)) && |Last(states).a.out| + |data| < LIMIT
    ensures SmallRun(later) && GoesOn(states, later) && Transferred(Last(states), Last(later), data)
    decreases |data|
  {
    later := InFlightGetsThrough(states);
    if data == [] {
      assert Last(states).a.out + data == Last(states).a.out;
    } else {
      var n := if |data| < UIP_TCP_MSS then |data| else UIP_TCP_MSS;
      later := ChunkGetsThrough(later, data[..n]);
      later := StreamGetsThrough(later, data[n..]);
      assert Last(states).a.out + data[..n] + data[n..] == Last(states).a.out + data;
    }
  }

  // ---------- The other direction ----------

  function SwappedRun(states: seq<Net>): (r: seq<Net>)
    ensures |r| == |states|
  {
    seq(|states|, i requires 0 <= i < |states| => Swapped(states[i]))
  }

  /** A run looks the same from the other side. */
  lemma SwappedIsRun(states: seq<Net>)
    requires SmallRun(states)
    ensures SmallRun(SwappedRun(states)) && SwappedRun(SwappedRun(states)) == states
  {
    var swapped := SwappedRun(states);
    forall i | 0 <= i < |swapped| - 1 ensures Step(swapped[i], swapped[i + 1]) {
      assert Step(states[i], states[i + 1]);
    }
    forall n | n in swapped ensures Small(n) {
      var i :| 0 <= i < |swapped| && n == swapped[i];
      assert states[i] in states;
    }
  }

  /** Both sides have sent these streams and seen all of them acknowledged. */
  predicate Idle(g: Net, da: seq<byte>, db: seq<byte>) {
    && Alive(g) && g.a.conn.len == g.b.conn.len == 0
    && g.a.out == g.b.received == g.b.delivered == da && g.b.out == g.a.received == g.a.delivered == db
  }

  lemma NothingInFlight(g: Net)
    requires Sound(g) && Alive(g) && g.a.conn.len == g.b.conn.len == 0
    ensures Idle(g, g.a.out, g.b.out)
  {
  }

  /** The same for the second side. */
  lemma OtherStreamGetsThrough(states: seq<Net>, data: seq<byte>) returns (later: seq<Net>)
    requires SmallRun(states) && Alive(Last(states)) && |Last(states).b.out| + |data| < LIMIT
    ensures SmallRun(later) && GoesOn(states, later)
    ensures Transferred(Swapped(Last(states)), Swapped(Last(later)), data)
  {
    SwappedIsRun(states);
    var swapped := StreamGetsThrough(SwappedRun(states), data);
    SwappedIsRun(swapped);
    later := SwappedRun(swapped);
    forall i | 0 <= i < |states| ensures later[i] == states[i] {
      assert swapped[i] == SwappedRun(states)[i];
    }
  }

  /** Data in both directions. */
  lemma BothStreamsGetThrough(states: seq<Net>, da: seq<byte>, db: seq<byte>) returns (later: seq<Net>)
    requires SmallRun(states) && Alive(Last(states))
    requires |Last(states).a.out| + |da| < LIMIT && |Last(states).b.out| + |db| < LIMIT
    ensures SmallRun(later) && GoesOn(states, later)
    ensures Idle(Last(later), Last(states).a.out + da, Last(states).b.out + db)
  {
    later := StreamGetsThrough(states, da);
    later := OtherStreamGetsThrough(later, db);
    RunIsSound(later);
    NothingInFlight(Last(later));
  }

  // ---------- Closing ----------

  const CLOSING_REPLY := SILENT.(action := Action.Close)

  /** The application closes when it is polled. */
  lemma PollCloses(c: Conn)
    requires ConnInv(c) && c.state == Established && c.len == 0
    ensures
      var o := Tick(c, CLOSING_REPLY);
      && o.conn.state == FinWait1 && o.conn.len == 1 && o.conn.sndNxt == c.sndNxt && o.conn.rcvNxt == c.rcvNxt
      && o.out.Some? && IsFin(o.out.value, c.sndNxt, c.rcvNxt)
  {
  }

  predicate IsFin(s: Segment, seqno: u32, ackno: u32) {
    s.fin && s.ack && !s.rst && !s.syn && s.data == [] && s.seqno == seqno && s.ackno == ackno
  }

  /** The FIN is answered with a FIN that acknowledges it. */
  lemma FinIsAnswered(c: Conn, s: Segment)
    requires ConnInv(c) && c.state == Established && c.len == 0 && IsFin(s, c.rcvNxt, c.sndNxt)
    ensures
      var o := Receive(c, s, 0, SILENT);
      && o.conn.state == LastAck && o.conn.len == 1 && o.conn.sndNxt == c.sndNxt
      && o.conn.rcvNxt == Add32(c.rcvNxt, 1)
      && o.out.Some? && IsFin(o.out.value, c.sndNxt, Add32(c.rcvNxt, 1))
  {
  }

  lemma BothFinsAreIn(c: Conn, s: Segment)
    requires ConnInv(c) && c.state == FinWait1 && IsFin(s, c.rcvNxt, Add32(c.sndNxt, 1))
    ensures
      var o := Receive(c, s, 0, SILENT);
      && o.conn.state == TimeWait && o.conn.timer == 0 && o.conn.sndNxt == Add32(c.sndNxt, 1)
      && o.conn.rcvNxt == Add32(c.rcvNxt, 1) && o.out == Some(AckPacket(o.conn))
  {
  }

  lemma LastAckCloses(c: Conn, s: Segment)
    requires ConnInv(c) && c.state == LastAck && s.ack && !s.rst && !s.syn && !s.fin && s.data == []
    requires s.ackno == Add32(c.sndNxt, 1)
    ensures Receive(c, s, 0, SILENT).conn.state == Closed && Receive(c, s, 0, SILENT).out == None
  {
  }

  /** Neither side sends or is given any more data. */
  predicate SameData(g: Net, g': Net) {
    && g'.a.out == g.a.out && g'.b.out == g.b.out && g'.a.iss == g.a.iss && g'.b.iss == g.b.iss
    && g'.a.delivered == g.a.delivered && g'.b.delivered == g.b.delivered
  }

  lemma RecordWithoutData(e: Endpoint, o: Outcome, s: Option<Segment>)
    requires (s.Some? ==> s.value.data == []) && (o.out.Some? ==> o.out.value.data == []) && Given(o.event) == []
    ensures
      var e' := Record(e, o, s);
      e'.out == e.out && e'.delivered == e.delivered && e'.iss == e.iss && e'.conn == o.conn
  {
  }

  /** The first side has sent its FIN. */
  ghost predicate FinSent(g: Net) {
    && ConnInv(g.a.conn) && ConnInv(g.b.conn)
    && g.a.conn.state == FinWait1 && g.b.conn.state == Established && g.b.conn.len == 0
    && g.b.conn.rcvNxt == g.a.conn.sndNxt && g.b.conn.sndNxt == g.a.conn.rcvNxt
    && exists s :: s in g.ab && IsFin(s, g.a.conn.sndNxt, g.a.conn.rcvNxt)
  }

  /** With nothing in flight each side expects exactly what the other one sends next. */
  lemma NumbersMeet(g: Net)
    requires Sound(g) && Alive(g) && g.a.conn.len == g.b.conn.len == 0
    ensures g.b.conn.rcvNxt == g.a.conn.sndNxt && g.b.conn.sndNxt == g.a.conn.rcvNxt
  {
  }

  lemma CloseIsSent(g: Net) returns (g': Net)
    requires Sound(g) && Alive(g) && g.a.conn.len == g.b.conn.len == 0
    ensures Step(g, g') && Small(g') && FinSent(g') && SameData(g, g')
  {
    g' := Ticked(g, CLOSING_REPLY);
    PollCloses(g.a.conn);
    NumbersMeet(g);
    TickKeeps(g.a.conn, CLOSING_REPLY);
    RecordWithoutData(g.a, Tick(g.a.conn, CLOSING_REPLY), None);
    assert TickStep(g, g', CLOSING_REPLY);
  }

  /** The other side has answered it with its own. */
  ghost predicate FinAnswered(g: Net) {
    && ConnInv(g.a.conn) && ConnInv(g.b.conn)
    && g.a.conn.state == FinWait1 && g.b.conn.state == LastAck && g.b.conn.sndNxt == g.a.conn.rcvNxt
    && exists s :: s in g.ba && IsFin(s, g.a.conn.rcvNxt, Add32(g.a.conn.sndNxt, 1))
  }

  lemma FinArrives(g: Net) returns (g': Net)
    requires FinSent(g) && Small(g)
    ensures Step(g, g') && Small(g') && FinAnswered(g') && SameData(g, g')
  {
    var s :| s in g.ab && IsFin(s, g.a.conn.sndNxt, g.a.conn.rcvNxt);
    var o := Receive(g.b.conn, s, 0, SILENT);
    FinIsAnswered(g.b.conn, s);
    ReceiveKeeps(g.b.conn, s, 0, SILENT);
    g' := Swapped(Received(Swapped(g), s, 0, SILENT));
    RecordWithoutData(g.b, o, Some(s));
    assert ReceiveStep(Swapped(g), Swapped(g'), s, 0, SILENT);
  }

  /** The first side has acknowledged that and waits. */
  ghost predicate BothClosing(g: Net) {
    && ConnInv(g.a.conn) && ConnInv(g.b.conn)
    && g.a.conn.state == TimeWait && g.a.conn.timer == 0 && g.b.conn.state == LastAck
    && exists s :: s in g.ab && AcknowledgesFin(s, g.b.conn.sndNxt)
  }

  predicate AcknowledgesFin(s: Segment, seqno: u32) {
    s.ack && !s.rst && !s.syn && !s.fin && s.data == [] && s.ackno == Add32(seqno, 1)
  }

  lemma FinComesBack(g: Net) returns (g': Net)
    requires FinAnswered(g) && Small(g)
    ensures Step(g, g') && Small(g') && BothClosing(g') && SameData(g, g')
  {
    var s :| s in g.ba && IsFin(s, g.a.conn.rcvNxt, Add32(g.a.conn.sndNxt, 1));
    var o := Receive(g.a.conn, s, 0, SILENT);
    BothFinsAreIn(g.a.conn, s);
    ReceiveKeeps(g.a.conn, s, 0, SILENT);
    g' := Received(g, s, 0, SILENT);
    RecordWithoutData(g.a, o, Some(s));
    assert ReceiveStep(g, g', s, 0, SILENT);
    assert AcknowledgesFin(AckPacket(o.conn), g'.b.conn.sndNxt);
  }

  lemma LastAckArrives(g: Net) returns (g': Net)
    requires BothClosing(g) && Small(g)
    ensures Step(g, g') && Small(g') && SameData(g, g')
    ensures g'.a == g.a && g'.b.conn.state == Closed
  {
    var s :| s in g.ab && AcknowledgesFin(s, g.b.conn.sndNxt);
    LastAckCloses(g.b.conn, s);
    g' := Swapped(Received(Swapped(g), s, 0, SILENT));
    RecordWithoutData(g.b, Receive(g.b.conn, s, 0, SILENT), Some(s));
    assert ReceiveStep(Swapped(g), Swapped(g'), s, 0, SILENT);
  }

  /** TIME_WAIT ends after 120 ticks. */
  lemma {:induction false} WaitIsOver(states: seq<Net>) returns (later: seq<Net>)
    requires SmallRun(states) && ConnInv(Last(states).a.conn)
    requires Last(states).a.conn.state == TimeWait && Last(states).a.conn.timer < UIP_TIME_WAIT_TIMEOUT
    ensures SmallRun(later) && GoesOn(states, later) && SameData(Last(states), Last(later))
    ensures Last(later).a.conn.state == Closed && Last(later).b == Last(states).b
    decreases UIP_TIME_WAIT_TIMEOUT - Last(states).a.conn.timer
  {
    var g := Last(states);
    var g' := Ticked(g, SILENT);
    WaitTick(g, g');
    assert g in states;
    RunExtended(states, g');
    later := states + [g'];
    if g'.a.conn.state != Closed {
      later := WaitIsOver(later);
    }
  }

  lemma WaitTick(g: Net, g': Net)
    requires ConnInv(g.a.conn) && g.a.conn.state == TimeWait && g.a.conn.timer < UIP_TIME_WAIT_TIMEOUT
    requires Small(g) && g' == Ticked(g, SILENT)
    ensures Step(g, g') && Small(g') && SameData(g, g') && g'.b == g.b && ConnInv(g'.a.conn)
    ensures g'.a.conn.state == if g.a.conn.timer + 1 == UIP_TIME_WAIT_TIMEOUT then Closed else TimeWait
    ensures g'.a.conn.timer == g.a.conn.timer + 1
  {
    RecordWithoutData(g.a, Tick(g.a.conn, SILENT), None);
    assert TickStep(g, g', SILENT);
  }

  /** From every reachable state in which both sides are connected and idle they can close in order. */
  lemma BothSidesClose(states: seq<Net>) returns (later: seq<Net>)
    requires SmallRun(states) && Alive(Last(states)) && Last(states).a.conn.len == Last(states).b.conn.len == 0
    ensures SmallRun(later) && GoesOn(states, later) && SameData(Last(states), Last(later))
    ensures Last(later).a.conn.state == Last(later).b.conn.state == Closed
  {
    RunIsSound(states);
    var g1 := CloseIsSent(Last(states));
    OneMore(states, g1);
    later := states + [g1];
    var g2 := FinArrives(g1);
    OneMore(later, g2);
    later := later + [g2];
    var g3 := FinComesBack(g2);
    OneMore(later, g3);
    later := later + [g3];
    var g4 := LastAckArrives(g3);
    OneMore(later, g4);
    later := WaitIsOver(later + [g4]);
  }

  /**
   From every initial state, and for any two streams of data, there is a run in which both are
   delivered completely and both sides end closed.
   */
  lemma WholeConversation(g: Net, da: seq<byte>, db: seq<byte>) returns (states: seq<Net>)
    requires Init(g) && g.a.active && g.a.conn.timer == 1 && g.a.conn.nrtx == 0
    requires |da| < LIMIT && |db| < LIMIT
    ensures SmallRun(states) && states[0] == g
    ensures
      var end := Last(states);
      && end.a.conn.state == end.b.conn.state == Closed
      && end.a.out == end.b.delivered == da && end.b.out == end.a.delivered == db
  {
    states := BothSidesConnect(g);
    states := BothStreamsGetThrough(states, da, db);
    assert [] + da == da && [] + db == db;
    states := BothSidesClose(states);
  }
}
