/**
 There is at most one segment of data in flight, and it is repeated whole: the receiver has
 taken over either nothing of it or all of it.
 */
module TcpStopWait {
  import opened Bytes
  import opened Wrappers
  import opened UipOpt
  import opened Tcp
  import opened TcpNet
  import opened TcpPromises

  /** The data of `s` has been acknowledged, or is all that is in flight. */
  ghost predicate Whole(x: Endpoint, s: Segment) {
    s.rst || s.data == [] || exists k: nat :: WholeAt(x, s, k)
  }

  predicate WholeAt(x: Endpoint, s: Segment, k: nat) {
    && PieceAt(x, s, k)
    && (k + |s.data| <= x.acked || (k == x.acked && k + |s.data| == |x.out|))
  }

  /** `y` has taken over all that `x` counts as acknowledged, or all that has been sent; `net` holds whole segments. */
  ghost predicate WholeInv(x: Endpoint, y: Endpoint, net: set<Segment>) {
    && (|y.received| == x.acked || |y.received| == |x.out|)
    && forall s :: s in net ==> Whole(x, s)
  }

  ghost predicate BothWhole(g: Net) {
    WholeInv(g.a, g.b, g.ab) && WholeInv(g.b, g.a, g.ba)
  }

  // ---------- What the engine sends ----------

  /** A packet with data carries as much as is in flight, from the front of the buffer the application has filled. */
  predicate CarriesFlight(o: Outcome, reply: AppReply)
    requires reply.Valid()
  {
    o.out.Some? && o.out.value.data != [] ==>
      && o.conn.state == Established && o.event.Some? && reply.slen > 0
      && o.out.value.seqno == o.conn.sndNxt && !o.out.value.fin
      && o.conn.len <= UIP_TCP_MSS && o.out.value.data == reply.buffer[..o.conn.len]
  }

  lemma TickCarries(c: Conn, reply: AppReply)
    requires ConnInv(c) && reply.Valid()
    ensures CarriesFlight(Tick(c, reply), reply)
  {
  }

  lemma ReceiveCarries(c: Conn, s: Segment, rto: byte, reply: AppReply)
    requires ConnInv(c) && reply.Valid()
    ensures CarriesFlight(Receive(c, s, rto, reply), reply)
  {
    if c.state == Established && !s.rst && !Unexpected(c, s) {
      EstablishedCarries(AckedConn(c, s, rto), s, Acknowledges(c, s), reply);
    }
  }

  lemma EstablishedCarries(c: Conn, s: Segment, acked: bool, reply: AppReply)
    requires ConnInv(c) && c.state == Established && reply.Valid()
    ensures CarriesFlight(InEstablished(c, s, acked, reply), reply)
  {
  }

  /** So it carries exactly what is in flight afterwards. */
  lemma SentWhole(x: Endpoint, peerIss: u32, o: Outcome, s: Option<Segment>, reply: AppReply)
    requires LocalInv(x, peerIss) && LocalInv(Record(x, o, s), peerIss) && reply.Valid()
    requires CarriesFlight(o, reply) && AppOkay(x, o.event, reply)
    ensures
      var x' := Record(x, o, s);
      o.out.Some? && o.out.value.data != [] ==>
        && o.out.value.seqno == SeqOf(x.iss, 1 + x'.acked) && o.out.value.data == x'.out[x'.acked..]
        && WholeAt(x', o.out.value, x'.acked)
  {
    var x' := Record(x, o, s);
    if o.out.Some? && o.out.value.data != [] {
      if x.conn.state != Established || x.conn.len == 0 || o.event.value.acked {
        assert x'.out == x.out + o.out.value.data;
      } else {
        assert x'.out == x.out && x'.acked == x.acked;
      }
    }
  }

  /** Either nothing is acknowledged and nothing new is sent, or all that had been sent before is acknowledged. */
  lemma AllOrNothing(x: Endpoint, peerIss: u32, o: Outcome, s: Option<Segment>)
    requires LocalInv(x, peerIss)
    requires o.conn.state == Established ==> x.conn.state == Established || Opens(x.conn.state)
    ensures
      var x' := Record(x, o, s);
      (x'.acked == x.acked && x'.out == x.out) || x'.acked == |x.out|
  {
  }

  lemma TickFrom(c: Conn, reply: AppReply)
    requires ConnInv(c) && reply.Valid()
    ensures Tick(c, reply).conn.state == Established ==> c.state == Established
  {
  }

  lemma ReceiveFrom(c: Conn, s: Segment, rto: byte, reply: AppReply)
    requires ConnInv(c) && reply.Valid()
    ensures Receive(c, s, rto, reply).conn.state == Established ==> c.state == Established || Opens(c.state)
  {
  }

  // ---------- Every step keeps it ----------

  lemma SenderKeepsWhole(x: Endpoint, x': Endpoint, y: Endpoint, net: set<Segment>, out: Option<Segment>)
    requires WholeInv(x, y, net) && Extends(x, x')
    requires StreamInv(x, y) && StreamInv(x', y)
    requires (x'.acked == x.acked && x'.out == x.out) || x'.acked == |x.out|
    requires out.Some? ==> Whole(x', out.value)
    ensures WholeInv(x', y, Sent(net, out))
  {
    forall s | s in Sent(net, out) ensures Whole(x', s) {
      if s in net && !s.rst && s.data != [] {
        var k: nat :| WholeAt(x, s, k);
        assert x'.out[..|x.out|] == x.out;
        assert PieceAt(x', s, k);
        assert WholeAt(x', s, k);
      }
    }
  }

  /** What the receiver takes over is all that was in flight. */
  lemma ReceiverTakesWhole(x: Endpoint, y: Endpoint, y': Endpoint, net: set<Segment>, s: Segment)
    requires WholeInv(x, y, net) && s in net && !s.rst && s.data != []
    requires LocalInv(y, x.iss) && Synchronized(y.conn.state) && |x.out| < LIMIT && s.seqno == y.conn.rcvNxt
    requires y.received <= x.out && (y.finRcvd ==> y.received == x.out)
    requires x.acked <= |y.received| && y'.received == y.received + s.data
    ensures WholeInv(x, y', net)
  {
    var k: nat :| WholeAt(x, s, k);
    PieceOffset(y, x, s, k);
  }

  lemma ReceiverKeepsWhole(x: Endpoint, y: Endpoint, o: Outcome, net: set<Segment>, s: Segment)
    requires WholeInv(x, y, net) && s in net && Context(y, x) && ConnInv(y.conn) && y.conn.state != Closed
    requires s.rst || Unexpected(y.conn, s) ==> o.conn.rcvNxt == y.conn.rcvNxt
    ensures WholeInv(x, Record(y, o, Some(s)), net)
  {
    if TakenOver(y.conn, o.conn, Some(s)) != [] {
      ReceiverTakesWhole(x, y, Record(y, o, Some(s)), net, s);
    }
  }

  lemma UnexpectedKeepsNumber(c: Conn, s: Segment, rto: byte, reply: AppReply)
    requires ConnInv(c) && reply.Valid() && (s.rst || Unexpected(c, s))
    ensures Receive(c, s, rto, reply).conn.rcvNxt == c.rcvNxt
  {
  }

  lemma TickKeepsWhole(g: Net, g': Net, reply: AppReply)
    requires Inv(g) && Inv(g') && Small(g) && BothWhole(g) && reply.Valid() && TickStep(g, g', reply)
    ensures BothWhole(g')
  {
    var o := Tick(g.a.conn, reply);
    TickAdvances(g.a, g.b, reply);
    TickCarries(g.a.conn, reply);
    SentWhole(g.a, g.b.iss, o, None, reply);
    TickFrom(g.a.conn, reply);
    AllOrNothing(g.a, g.b.iss, o, None);
    SenderKeepsWhole(g.a, g'.a, g.b, g.ab, o.out);
    assert g'.a.received == g.a.received;
  }

  lemma ReceiveKeepsWhole(g: Net, g': Net, s: Segment, rto: byte, reply: AppReply)
    requires Inv(g) && Inv(g') && Small(g) && BothWhole(g) && reply.Valid() && ReceiveStep(g, g', s, rto, reply)
    ensures BothWhole(g')
  {
    var o := Receive(g.a.conn, s, rto, reply);
    ReceiveAdvances(g.a, g.b, s, rto, reply);
    ReceiveCarries(g.a.conn, s, rto, reply);
    SentWhole(g.a, g.b.iss, o, Some(s), reply);
    ReceiveFrom(g.a.conn, s, rto, reply);
    AllOrNothing(g.a, g.b.iss, o, Some(s));
    SenderKeepsWhole(g.a, g'.a, g.b, g.ab, o.out);
    if s.rst || Unexpected(g.a.conn, s) {
      UnexpectedKeepsNumber(g.a.conn, s, rto, reply);
    }
    ReceiverKeepsWhole(g.b, g.a, o, g.ba, s);
  }

  /** Opening and refusing send no data. */
  lemma OthersKeepWhole(g: Net, g': Net, out: Option<Segment>)
    requires BothWhole(g) && (out.Some? ==> out.value.data == [])
    requires g' == g.(a := g'.a, ab := Sent(g.ab, out))
    requires g'.a.out == g.a.out && g'.a.acked == g.a.acked && g'.a.received == g.a.received
    requires g'.a.iss == g.a.iss && g'.a.finSent == g.a.finSent
    ensures BothWhole(g')
  {
    forall s | s in g'.ab ensures Whole(g'.a, s) {
      if s in g.ab && !s.rst && s.data != [] {
        var k: nat :| WholeAt(g.a, s, k);
        assert WholeAt(g'.a, s, k);
      }
    }
  }

  lemma AcceptKeepsWhole(g: Net, g': Net, s: Segment)
    requires Inv(g) && BothWhole(g) && AcceptStep(g, g', s)
    ensures BothWhole(g')
  {
    assert g'.a.received == g.a.received + [] && g'.a.out == g.a.out + [];
    OthersKeepWhole(g, g', Some(SynAckPacket(g'.a.conn)));
  }

  lemma StepOfAKeepsWhole(g: Net, g': Net)
    requires Inv(g) && Inv(g') && Small(g) && BothWhole(g) && StepOfA(g, g')
    ensures BothWhole(g')
  {
    if reply: AppReply :| reply.Valid() && TickStep(g, g', reply) {
      TickKeepsWhole(g, g', reply);
    } else if s, rto: byte, reply: AppReply :| reply.Valid() && ReceiveStep(g, g', s, rto, reply) {
      ReceiveKeepsWhole(g, g', s, rto, reply);
    } else if s :| AcceptStep(g, g', s) {
      AcceptKeepsWhole(g, g', s);
    } else {
      var s :| RefuseStep(g, g', s);
      OthersKeepWhole(g, g', ResetAnswer(s));
    }
  }

  lemma StepKeepsWhole(g: Net, g': Net)
    requires Inv(g) && Inv(g') && Small(g) && BothWhole(g) && Step(g, g')
    ensures BothWhole(g')
  {
    if StepOfA(g, g') {
      StepOfAKeepsWhole(g, g');
    } else {
      StepOfAKeepsWhole(Swapped(g), Swapped(g'));
    }
  }

  lemma {:induction false} RunIsWhole(states: seq<Net>, k: nat)
    requires SmallRun(states) && k < |states|
    ensures BothWhole(states[k])
    decreases k
  {
    if k > 0 {
      RunIsWhole(states, k - 1);
      RunInv(states, k - 1);
      RunInv(states, k);
      StepKeepsWhole(states[k - 1], states[k]);
    }
  }

  /** The receiver has taken over either nothing or all of what is in flight, at any moment of any run. */
  lemma StopAndWait(states: seq<Net>)
    requires SmallRun(states)
    ensures
      var g := Last(states);
      && (|g.b.received| == g.a.acked || g.b.received == g.a.out)
      && (|g.a.received| == g.b.acked || g.a.received == g.b.out)
      && (g.a.conn.state == Established ==> |g.a.out| - g.a.acked == g.a.conn.len <= UIP_TCP_MSS)
  {
    RunIsWhole(states, |states| - 1);
    RunInv(states, |states| - 1);
  }
}
