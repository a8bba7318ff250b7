/**
 From every moment of every run the connection can go on: as soon as the network delivers two
 packets, what is in flight is acknowledged. Whole conversations come out of that.
 */
module TcpProgress {
  import opened Bytes
  import opened Wrappers
  import opened UipOpt
  import opened Tcp
  import opened TcpNet
  import opened TcpPromises
  import opened TcpStopWait

  /** `later` goes on where `states` ends. */
  predicate GoesOn(states: seq<Net>, later: seq<Net>) {
    0 < |states| && states <= later
  }

  predicate Connected(g: Net) {
    g.a.conn.state == g.b.conn.state == Established
  }

  // ---------- What is lost is sent again ----------

  /** The bytes of `x` that are in flight are on the wire, under the sequence number they belong to. */
  ghost predicate FlightOnWire(x: Endpoint, net: set<Segment>) {
    exists s :: s in net && CarriesFlightOf(x, s)
  }

  predicate CarriesFlightOf(x: Endpoint, s: Segment) {
    && !s.rst && !s.syn && !s.fin && s.ack && x.acked <= |x.out|
    && s.data == x.out[x.acked..] && s.seqno == SeqOf(x.iss, 1 + x.acked)
  }

  /** What is known of the last state of a run. */
  ghost predicate Sound(g: Net) {
    Inv(g) && Small(g) && BothWhole(g)
  }

  lemma RunIsSound(states: seq<Net>)
    requires SmallRun(states)
    ensures Sound(Last(states))
  {
    assert Last(states) in states;
    RunInv(states, |states| - 1);
    RunIsWhole(states, |states| - 1);
  }

  /** `x` has bytes in flight, its timer has run out, and it has tries left. */
  predicate Repeats(x: Endpoint) {
    x.conn.state == Established && x.conn.len > 0 && x.conn.timer == 0 && x.conn.nrtx < UIP_MAXRTX
  }

  lemma FlightResent(g: Net, g': Net, reply: AppReply)
    requires Sound(g) && Repeats(g.a) && reply.Valid() && reply.slen > 0 && TickStep(g, g', reply)
    ensures FlightOnWire(g'.a, g'.ab) && g'.a.out == g.a.out && g'.a.acked == g.a.acked
  {
    var o := Tick(g.a.conn, reply);
    ExpiryRepeats(g.a.conn, reply);
    TickAdvances(g.a, g.b, reply);
    TickCarries(g.a.conn, reply);
    SentWhole(g.a, g.b.iss, o, None, reply);
    assert CarriesFlightOf(g'.a, o.out.value);
  }

  /** When the timer of a reachable endpoint runs out and its application answers, its bytes go out again. */
  lemma LostDataIsSentAgain(states: seq<Net>, g': Net, reply: AppReply)
    requires SmallRun(states) && ConnInv(Last(states).a.conn) && Repeats(Last(states).a)
    requires reply.Valid() && reply.slen > 0 && TickStep(Last(states), g', reply)
    ensures FlightOnWire(g'.a, g'.ab) && g'.a.out == Last(states).a.out && g'.a.acked == Last(states).a.acked
  {
    RunIsSound(states);
    FlightResent(Last(states), g', reply);
  }

  // ---------- What the two applications do ----------

  const SILENT := AppReply(Continue, 0, seq(UIP_TCP_MSS, _ => 0))

  /** An answer that hands over `data`. */
  function Handing(data: seq<byte>): (r: AppReply)
    requires |data| <= UIP_TCP_MSS
    ensures r.Valid() && r.slen == |data| && r.buffer[..|data|] == data
  {
    AppReply(Continue, |data|, data + seq(UIP_TCP_MSS - |data|, _ => 0))
  }

  /** Both sides are connected and have tries left. */
  predicate Alive(g: Net) {
    && g.a.conn.state == g.b.conn.state == Established
    && g.a.conn.nrtx < UIP_MAXRTX && g.b.conn.nrtx < UIP_MAXRTX
  }

  // ---------- What is in flight gets through ----------

  function WithTimer(g: Net, timer: byte): Net {
    g.(a := g.a.(conn := g.a.conn.(timer := timer)))
  }

  /** The timer runs down while nothing arrives. */
  lemma {:induction false} TimerRunsDown(states: seq<Net>) returns (later: seq<Net>)
    requires SmallRun(states) && Alive(Last(states)) && Last(states).a.conn.len > 0
    ensures SmallRun(later) && GoesOn(states, later) && Last(later) == WithTimer(Last(states), 0)
    decreases Last(states).a.conn.timer
  {
    var g := Last(states);
    if g.a.conn.timer == 0 {
      later := states;
    } else {
      RunIsSound(states);
      var g' := WithTimer(g, g.a.conn.timer - 1);
      TimerTicks(g, g');
      RunExtended(states, g');
      later := TimerRunsDown(states + [g']);
    }
  }

  lemma TimerTicks(g: Net, g': Net)
    requires Sound(g) && Alive(g) && g.a.conn.len > 0 && g.a.conn.timer > 0
    requires g' == WithTimer(g, g.a.conn.timer - 1)
    ensures Step(g, g') && Small(g')
  {
    assert Tick(g.a.conn, SILENT) == Outcome(g'.a.conn, None, None);
    assert g.a.received + [] == g.a.received && g.a.delivered + [] == g.a.delivered && g.a.out + [] == g.a.out;
    assert TickStep(g, g', SILENT);
  }

  /** The bytes in flight have been sent once more. */
  ghost predicate Resent(g: Net, g': Net) {
    && Small(g') && Connected(g') && FlightOnWire(g'.a, g'.ab) && g'.b == g.b && g'.b.conn.nrtx < UIP_MAXRTX
    && g'.a.out == g.a.out && g'.a.acked == g.a.acked < |g.a.out|
  }

  lemma FlightGoesOut(g: Net) returns (g': Net)
    requires Sound(g) && Alive(g) && Repeats(g.a)
    ensures Step(g, g') && Resent(g, g')
  {
    var reply := Handing(g.a.out[g.a.acked..]);
    g' := Ticked(g, reply);
    ExpiryRepeats(g.a.conn, reply);
    assert g.a.out[g.a.acked..] == reply.buffer[..reply.slen] <= reply.buffer;
    assert TickStep(g, g', reply);
    FlightResent(g, g', reply);
  }

  /** A packet that acknowledges all that `x` has sent. */
  predicate AcknowledgesAll(x: Endpoint, s: Segment) {
    s.ack && !s.rst && !s.syn && !s.fin && s.data == [] && s.ackno == SeqOf(x.iss, 1 + |x.out|)
  }

  /** The engine takes data in sequence and acknowledges it. */
  lemma DataIsAnswered(c: Conn, s: Segment)
    requires ConnInv(c) && c.state == Established && !s.rst && !s.fin && s.data != [] && s.seqno == c.rcvNxt
    ensures
      var o := Receive(c, s, 0, SILENT);
      && o.conn.state == Established && o.conn.rcvNxt == Add32(c.rcvNxt, |s.data|)
      && o.conn.nrtx == 0 && o.conn.len <= c.len
      && o.out == Some(AckPacket(o.conn)) && Given(o.event) == s.data
  {
  }

  /** The other side has taken over all that has been sent, and has said so. */
  ghost predicate Taken(g: Net, g': Net) {
    && Small(g') && Connected(g') && g'.a == g.a && g'.b.conn.nrtx < UIP_MAXRTX
    && g'.b.received == g.a.out && g'.b.out == g.b.out && g'.b.conn.len <= g.b.conn.len
    && exists r :: r in g'.ba && AcknowledgesAll(g.a, r)
  }

  /** Packets without data leave the sent stream alone. */
  lemma AnswerRecord(e: Endpoint, o: Outcome, s: Segment)
    requires e.conn.state == o.conn.state == Established && e.started && e.synced
    requires o.out.Some? ==> o.out.value.data == []
    ensures
      var e' := Record(e, o, Some(s));
      && e'.out == e.out && e'.iss == e.iss && e'.conn == o.conn
      && e'.received == e.received + TakenOver(e.conn, o.conn, Some(s))
      && (o.event == None && o.conn == e.conn ==> e' == e)
  {
    assert e.received + [] == e.received && e.delivered + [] == e.delivered && e.out + [] == e.out;
  }

  /** The other side answers: a step that ends with all of the stream taken over. */
  lemma AnswerTakes(g: Net, s: Segment, o: Outcome) returns (g': Net)
    requires Sound(g) && Connected(g) && s in g.ab && o == Receive(g.b.conn, s, 0, SILENT)
    requires o.conn.state == Established && o.conn.nrtx < UIP_MAXRTX && o.out == Some(AckPacket(o.conn))
    requires o.conn.len <= g.b.conn.len
    requires o.conn.rcvNxt == SeqOf(g.a.iss, 1 + |g.a.out|)
    requires g.b.received + TakenOver(g.b.conn, o.conn, Some(s)) == g.a.out
    ensures Step(g, g') && Taken(g, g')
  {
    g' := Swapped(Received(Swapped(g), s, 0, SILENT));
    AnswerRecord(g.b, o, s);
    assert ReceiveStep(Swapped(g), Swapped(g'), s, 0, SILENT);
    assert AcknowledgesAll(g.a, AckPacket(o.conn));
  }

  /** A repeated segment that has not been taken over yet is what comes next. */
  lemma FlightIsNext(g: Net, s: Segment)
    requires Sound(g) && Connected(g) && CarriesFlightOf(g.a, s) && g.a.acked < |g.a.out|
    requires |g.b.received| == g.a.acked
    ensures s.data != [] && |s.data| < LIMIT && s.seqno == g.b.conn.rcvNxt
    ensures g.b.received + s.data == g.a.out
    ensures Add32(g.b.conn.rcvNxt, |s.data|) == SeqOf(g.a.iss, 1 + |g.a.out|)
  {
    SeqAdd(g.a.iss, 1 + g.a.acked, |s.data|);
    PieceContinues(g.b.received, g.a.out, s.data);
  }

  lemma FlightIsNew(g: Net, s: Segment) returns (g': Net)
    requires Sound(g) && Connected(g) && s in g.ab && CarriesFlightOf(g.a, s) && g.a.acked < |g.a.out|
    requires |g.b.received| == g.a.acked
    ensures Step(g, g') && Taken(g, g')
  {
    var o := Receive(g.b.conn, s, 0, SILENT);
    FlightIsNext(g, s);
    DataIsAnswered(g.b.conn, s);
    TakenOverAll(g.b.conn, o.conn, s);
    g' := AnswerTakes(g, s, o);
  }

  lemma FlightIsOld(g: Net, s: Segment) returns (g': Net)
    requires Sound(g) && Connected(g) && s in g.ab && CarriesFlightOf(g.a, s) && g.a.acked < |g.a.out|
    requires g.b.received == g.a.out && g.b.conn.nrtx < UIP_MAXRTX
    ensures Step(g, g') && Taken(g, g')
  {
    var c := g.b.conn;
    SeqUniqueBytes(g, s);
    assert Receive(c, s, 0, SILENT) == Outcome(c, Some(AckPacket(c)), None);
    assert g.b.received + [] == g.b.received;
    g' := AnswerTakes(g, s, Outcome(c, Some(AckPacket(c)), None));
  }

  lemma SeqUniqueBytes(g: Net, s: Segment)
    requires Sound(g) && Connected(g) && CarriesFlightOf(g.a, s) && g.a.acked < |g.a.out| && g.b.received == g.a.out
    ensures s.seqno != g.b.conn.rcvNxt && s.data != []
  {
    if s.seqno == g.b.conn.rcvNxt {
      SeqUnique(g.a.iss, 1 + g.a.acked, 1 + |g.a.out|);
    }
  }

  lemma FlightIsTaken(g: Net) returns (g': Net)
    requires Sound(g) && Connected(g) && g.b.conn.nrtx < UIP_MAXRTX
    requires FlightOnWire(g.a, g.ab) && g.a.acked < |g.a.out|
    ensures Step(g, g') && Taken(g, g')
  {
    var s :| s in g.ab && CarriesFlightOf(g.a, s);
    if |g.b.received| == g.a.acked {
      g' := FlightIsNew(g, s);
    } else {
      g' := FlightIsOld(g, s);
    }
  }

  /** The engine sees that all it has in flight has arrived. */
  lemma AckIsTaken(c: Conn, s: Segment)
    requires ConnInv(c) && c.state == Established && c.len > 0
    requires s.ack && !s.rst && !s.syn && !s.fin && s.data == [] && s.ackno == Add32(c.sndNxt, c.len)
    ensures
      var o := Receive(c, s, 0, SILENT);
      && o.conn.state == Established && o.conn.len == 0 && o.conn.nrtx == 0 && o.conn.rcvNxt == c.rcvNxt
      && o.out == None && o.event.Some? && o.event.value.acked
  {
  }

  /** All that has been sent is acknowledged, and nothing is in flight. */
  predicate Settled(g: Net, g': Net) {
    && Small(g') && Alive(g') && g'.a.conn.len == 0 && g'.a.acked == |g'.a.out|
    && g'.a.out == g.a.out && g'.b.out == g.b.out && g'.b.received == g'.b.delivered == g.a.out
    && g'.b.conn.len <= g.b.conn.len
  }

  lemma AckArrives(g: Net) returns (g': Net)
    requires Sound(g) && Connected(g) && g.b.conn.nrtx < UIP_MAXRTX && g.a.acked < |g.a.out|
    requires g.b.received == g.a.out && exists r :: r in g.ba && AcknowledgesAll(g.a, r)
    ensures Step(g, g') && Settled(g, g')
  {
    var r :| r in g.ba && AcknowledgesAll(g.a, r);
    SeqAdd(g.a.iss, 1 + g.a.acked, g.a.conn.len);
    AckIsTaken(g.a.conn, r);
    var o := Receive(g.a.conn, r, 0, SILENT);
    g' := Received(g, r, 0, SILENT);
    AnswerRecord(g.a, o, r);
    assert ReceiveStep(g, g', r, 0, SILENT);
  }

  /** One more state. */
  lemma OneMore(states: seq<Net>, g: Net)
    requires SmallRun(states) && Step(Last(states), g) && Small(g)
    ensures SmallRun(states + [g]) && Sound(g) && Last(states + [g]) == g && GoesOn(states, states + [g])
  {
    RunExtended(states, g);
    RunIsSound(states + [g]);
  }

  /**
   From every reachable state in which both sides are connected and have tries left, the run can
   go on so that all that the first one has in flight is delivered and acknowledged: whatever has
   been lost before, the timer, one packet there and one packet back suffice.
   */
  lemma InFlightGetsThrough(states: seq<Net>) returns (later: seq<Net>)
    requires SmallRun(states) && Alive(Last(states))
    ensures SmallRun(later) && GoesOn(states, later) && Settled(Last(states), Last(later))
  {
    RunIsSound(states);
    var g := Last(states);
    if g.a.conn.len == 0 {
      later := states;
    } else {
      later := TimerRunsDown(states);
      RunIsSound(later);
      var g1 := FlightGoesOut(Last(later));
      OneMore(later, g1);
      var g2 := FlightIsTaken(g1);
      OneMore(later + [g1], g2);
      var g3 := AckArrives(g2);
      OneMore(later + [g1] + [g2], g3);
      later := later + [g1] + [g2] + [g3];
    }
  }
}
