/** The connection table of uIP: timers, demultiplexing, listening and connecting. */
module Uip {
  import opened Bytes
  import opened Wrappers
  import opened Tcp
  import opened TcpPromises
  import opened UipOpt

  /** A segment with its addresses. */
  datatype Datagram = Datagram(srcIp: u32, srcPort: u16, destPort: u16, segment: Segment)

  // ---------- The table as a whole ----------

  predicate Matches(c: Conn, d: Datagram) {
    c.state != Closed && c.lport == d.destPort && c.rport == d.srcPort && c.ripaddr == d.srcIp
  }

  predicate SameTuple(c: Conn, c': Conn) {
    c.lport == c'.lport && c.rport == c'.rport && c.ripaddr == c'.ripaddr
  }

  /** No two connections in use have the same ports and remote address. */
  ghost predicate Unambiguous(conns: seq<Conn>) {
    forall i, j :: 0 <= i < j < |conns| && conns[i].state != Closed && conns[j].state != Closed ==>
      !SameTuple(conns[i], conns[j])
  }

  ghost predicate TableInv(conns: seq<Conn>) {
    && |conns| == UIP_CONNS
    && Unambiguous(conns)
    && forall i :: 0 <= i < |conns| ==> ConnInv(conns[i])
  }

  /** At most one entry matches a datagram, so that the search order does not matter. */
  lemma MatchIsUnique(conns: seq<Conn>, d: Datagram, i: nat, j: nat)
    requires TableInv(conns) && i < UIP_CONNS && j < UIP_CONNS
    requires Matches(conns[i], d) && Matches(conns[j], d)
    ensures i == j
  {
  }

  /** A step on one connection that does not readdress it keeps the table in order. */
  lemma EntryKept(conns: seq<Conn>, i: nat, c: Conn)
    requires TableInv(conns) && i < UIP_CONNS && ConnInv(c)
    requires SameTuple(c, conns[i]) && (conns[i].state == Closed ==> c.state == Closed)
    ensures TableInv(conns[i := c])
  {
  }

  /** A new connection keeps the table in order if no connection in use has its addresses. */
  lemma EntryOpened(conns: seq<Conn>, i: nat, c: Conn)
    requires TableInv(conns) && i < UIP_CONNS && ConnInv(c)
    requires forall j :: 0 <= j < UIP_CONNS && conns[j].state != Closed ==> !SameTuple(conns[j], c)
    ensures TableInv(conns[i := c])
  {
  }

  lemma StepsKeepTuple(c: Conn, s: Segment, rto: byte, reply: AppReply)
    requires ConnInv(c) && reply.Valid()
    ensures SameTuple(Tick(c, reply).conn, c) && (c.state == Closed ==> Tick(c, reply).conn.state == Closed)
    ensures SameTuple(Receive(c, s, rto, reply).conn, c)
  {
  }

  lemma TickKeepsTable(conns: seq<Conn>, i: nat, reply: AppReply)
    requires TableInv(conns) && i < UIP_CONNS && reply.Valid()
    ensures TableInv(conns[i := Tick(conns[i], reply).conn]) && Fits(Tick(conns[i], reply).out)
  {
    TickKeeps(conns[i], reply);
    StepsKeepTuple(conns[i], Segment(0, 0, false, false, false, false, false, 0, None, []), 0, reply);
    EntryKept(conns, i, Tick(conns[i], reply).conn);
  }

  // ---------- Allocation ----------

  /** Slot `i` may be taken: it is closed or, if no slot is, it has waited longest in TIME_WAIT. */
  ghost predicate Allocatable(conns: seq<Conn>, i: nat) {
    && i < |conns|
    && if conns[i].state == Closed then forall j :: 0 <= j < i ==> conns[j].state != Closed
       else
         && conns[i].state == TimeWait
         && (forall j :: 0 <= j < |conns| ==> conns[j].state != Closed)
         && (forall j :: 0 <= j < |conns| && conns[j].state == TimeWait ==> conns[j].timer <= conns[i].timer)
  }

  /** Of the waiting connections the one taken would have closed first. */
  lemma TakenWouldCloseFirst(conns: seq<Conn>, i: nat, j: nat)
    requires TableInv(conns) && Allocatable(conns, i) && j < |conns|
    requires conns[i].state != Closed && conns[j].state == TimeWait
    ensures conns[i].state == TimeWait && WaitTicks(conns[i]) <= WaitTicks(conns[j])
  {
  }

  ghost predicate NoneFree(conns: seq<Conn>) {
    forall j :: 0 <= j < |conns| ==> conns[j].state != Closed && conns[j].state != TimeWait
  }

  // ---------- Local ports ----------

  const FIRST_PORT := 4096
  const PORT_LIMIT := 32000

  function NextPort(port: u16): u16 {
    if port + 1 >= PORT_LIMIT then FIRST_PORT else port + 1
  }

  /** The port tried `k` steps after `first`; at most one wrap-around is in reach. */
  function PortAt(first: nat, k: nat): nat {
    if first + k < PORT_LIMIT then first + k else first + k - PORT_LIMIT + FIRST_PORT
  }

  ghost predicate PortUsed(conns: seq<Conn>, port: nat) {
    exists i :: 0 <= i < |conns| && conns[i].state != Closed && conns[i].lport == port
  }

  lemma PortsDiffer(first: nat, k: nat, k': nat)
    requires first < PORT_LIMIT && k < k' < PORT_LIMIT - FIRST_PORT
    ensures PortAt(first, k) != PortAt(first, k')
  {
  }

  ghost predicate Distinct(s: seq<nat>) {
    forall i, j :: 0 <= i < j < |s| ==> s[i] != s[j]
  }

  /** Pigeonhole: only `n` different numbers are below `n`. */
  lemma {:induction false} DistinctBound(s: seq<nat>, n: nat)
    requires Distinct(s) && forall i :: 0 <= i < |s| ==> s[i] < n
    ensures |s| <= n
    decreases n
  {
    if s != [] {
      assert s[0] < n;
      if i :| 0 <= i < |s| && s[i] == n - 1 {
        DistinctBound(s[..i] + s[i + 1..], n - 1);
      } else {
        DistinctBound(s, n - 1);
      }
    }
  }

  class Stack {
    const conns: array<Conn>
    const listenPorts: array<u16>
    var iss: u32
    var lastPort: u16

    ghost predicate Valid()
      reads this, conns
    {
      && TableInv(conns[..])
      && listenPorts.Length == UIP_LISTENPORTS
      && lastPort < PORT_LIMIT
    }

    /** All connections closed, nothing listening. */
    constructor ()
      ensures Valid() && fresh(conns) && fresh(listenPorts)
      ensures forall i :: 0 <= i < UIP_CONNS ==> conns[i].state == Closed
      ensures forall i :: 0 <= i < UIP_LISTENPORTS ==> listenPorts[i] == 0
    {
      var closed := Conn(Closed, 0, 0, 0, 0, 0, 0, 0, 0, 0, 0, 0);
      conns := new Conn[UIP_CONNS](_ => closed);
      listenPorts := new u16[UIP_LISTENPORTS](_ => 0);
      iss, lastPort := 0, 1024;
    }

    // ---------- Sending ----------

    /** The end of the send path: data if there is any, else an acknowledgment of new data. */
    method SendData(i: nat, slen: nat, newdata: bool, reply: AppReply) returns (out: Option<Segment>)
      requires i < conns.Length && conns[i].len <= UIP_TCP_MSS && reply.Valid()
      ensures out == Transmit(conns[i], slen, newdata, reply)
    {
      if slen > 0 && conns[i].len > 0 {
        return Some(DataPacket(conns[i], reply.buffer[..conns[i].len]));
      }
      if newdata {
        return Some(AckPacket(conns[i]));
      }
      return None;
    }

    /** What follows a call of the application that may send, close or abort. */
    method AfterAppCall(i: nat, event: AppEvent, reply: AppReply) returns (out: Option<Segment>)
      requires i < conns.Length && conns[i].len <= UIP_TCP_MSS && conns[i].mss <= UIP_TCP_MSS && reply.Valid()
      modifies conns
      ensures Outcome(conns[i], out, Some(event)) == AppSend(old(conns[i]), event, reply)
      ensures conns[..] == old(conns[..])[i := conns[i]]
    {
      if reply.action == Abort {
        conns[i] := conns[i].(state := Closed);
        return Some(RstAckPacket(conns[i]));
      }
      if reply.action == Close {
        conns[i] := conns[i].(len := 1);
        conns[i] := conns[i].(state := FinWait1);
        conns[i] := conns[i].(nrtx := 0);
        return Some(FinAckPacket(conns[i]));
      }
      var slen := reply.slen;
      if slen > 0 {
        if event.acked {
          conns[i] := conns[i].(len := 0);
        }
        if conns[i].len == 0 {
          if slen > conns[i].mss {
            slen := conns[i].mss;
          }
          conns[i] := conns[i].(len := slen);
        } else {
          slen := conns[i].len;
        }
      }
      conns[i] := conns[i].(nrtx := 0);
      out := SendData(i, slen, event.newdata, reply);
    }

    // ---------- The timer ----------

    /** The periodic timer of one connection. */
    method Periodic(i: nat, reply: AppReply) returns (out: Option<Segment>, event: Option<AppEvent>)
      requires Valid() && i < UIP_CONNS && reply.Valid()
      modifies this`iss, conns
      ensures Valid()
      ensures iss == Add32(old(iss), 1)
      ensures Outcome(conns[i], out, event) == Tick(old(conns[i]), reply)
      ensures conns[..] == old(conns[..])[i := conns[i]]
      ensures Fits(out)
      // When the timer has run out, what is outstanding goes out again.
      ensures
        var c := old(conns[i]);
        Expires(c) && !Exhausted(c) && (c.state == Established ==> reply.slen > 0) ==>
          && out.Some? && out.value.seqno == c.sndNxt && !out.value.rst
          && (out.value.syn <==> Opens(c.state)) && (out.value.fin <==> AwaitsFinAck(c.state))
          && out.value.data == if c.state == Established then reply.buffer[..c.len] else []
    {
      if Expires(conns[i]) && !Exhausted(conns[i]) {
        ExpiryRepeats(conns[i], reply);
      }
      iss := (iss + 1) % 0x1_0000_0000;
      TickKeepsTable(conns[..], i, reply);
      out, event := TimerCode(i, reply);
    }

    /** What the timer does to the fields of the entry. */
    method TimerCode(i: nat, reply: AppReply) returns (out: Option<Segment>, event: Option<AppEvent>)
      requires i < conns.Length && ConnInv(conns[i]) && reply.Valid()
      modifies conns
      ensures Outcome(conns[i], out, event) == Tick(old(conns[i]), reply)
      ensures conns[..] == old(conns[..])[i := conns[i]]
    {
      out, event := None, None;
      if conns[i].state == TimeWait || conns[i].state == FinWait2 {
        conns[i] := conns[i].(timer := (conns[i].timer + 1) % 256);
        if conns[i].timer == UIP_TIME_WAIT_TIMEOUT {
          conns[i] := conns[i].(state := Closed);
        }
      } else if conns[i].state != Closed {
        if conns[i].len > 0 {
          var timer: int := conns[i].timer;
          conns[i] := conns[i].(timer := (timer + 255) % 256);
          if timer == 0 {
            out, event := Expired(i, reply);
          }
        } else if conns[i].state == Established {
          event := Some(QUIET.(poll := true));
          out := AfterAppCall(i, QUIET.(poll := true), reply);
        }
      }
    }

    /** The retransmission timer has run out. */
    method Expired(i: nat, reply: AppReply) returns (out: Option<Segment>, event: Option<AppEvent>)
      requires i < conns.Length && ConnInv(conns[i]) && conns[i].len > 0 && conns[i].timer == 255 && reply.Valid()
      requires conns[i].state != Closed && conns[i].state != TimeWait && conns[i].state != FinWait2
      modifies conns
      ensures Outcome(conns[i], out, event) == Tick(old(conns[i]).(timer := 0), reply)
      ensures conns[..] == old(conns[..])[i := conns[i]]
    {
      out, event := None, None;
      if conns[i].nrtx == UIP_MAXRTX
         || ((conns[i].state == SynSent || conns[i].state == SynRcvd) && conns[i].nrtx == UIP_MAXSYNRTX) {
        conns[i] := conns[i].(state := Closed);
        return Some(RstAckPacket(conns[i])), Some(QUIET.(timedout := true));
      }
      // Exponential backoff.
      ShiftIsBackoff(conns[i].nrtx);
      conns[i] := conns[i].(timer := UIP_RTO * Pow2(if conns[i].nrtx > 4 then 4 else conns[i].nrtx));
      conns[i] := conns[i].(nrtx := (conns[i].nrtx + 1) % 256);
      match conns[i].state
      case SynRcvd => out := Some(SynAckPacket(conns[i]));
      case SynSent => out := Some(SynPacket(conns[i]));
      case Established =>
        event := Some(QUIET.(rexmit := true));
        out := SendData(i, reply.slen, false, reply);
      case FinWait1 => out := Some(FinAckPacket(conns[i]));
      case Closing => out := Some(FinAckPacket(conns[i]));
      case LastAck => out := Some(FinAckPacket(conns[i]));
    }

    // ---------- Input ----------

    /** A segment for connection `i`. */
    method Found(i: nat, s: Segment, rto: byte, reply: AppReply) returns (out: Option<Segment>, event: Option<AppEvent>)
      requires Valid() && i < UIP_CONNS && conns[i].state != Closed && reply.Valid()
      modifies conns
      ensures Valid()
      ensures Outcome(conns[i], out, event) == Receive(old(conns[i]), s, rto, reply) && Fits(out)
      ensures conns[..] == old(conns[..])[i := conns[i]]
    {
      ReceiveKeeps(conns[i], s, rto, reply);
      StepsKeepTuple(conns[i], s, rto, reply);
      EntryKept(conns[..], i, Receive(conns[i], s, rto, reply).conn);
      if s.rst {
        conns[i] := conns[i].(state := Closed);
        return None, Some(QUIET.(aborted := true));
      }
      if !(conns[i].state == SynSent && s.IsSynAck()) {
        if (s.data != [] || s.syn || s.fin) && s.seqno != conns[i].rcvNxt {
          return Some(AckPacket(conns[i])), None;
        }
      }
      var acked := TakeAck(i, s, rto);
      out, event := Dispatch(i, s, acked, reply);
    }

    /** Checks whether the segment acknowledges what is outstanding and accounts for it. */
    method TakeAck(i: nat, s: Segment, rto: byte) returns (acked: bool)
      requires i < conns.Length
      modifies conns
      ensures acked == Acknowledges(old(conns[i]), s)
      ensures conns[..] == old(conns[..])[i := if acked then AfterAck(old(conns[i]), rto) else old(conns[i])]
    {
      acked := false;
      if s.ack && conns[i].len > 0 {
        var acc32 := Add32(conns[i].sndNxt, conns[i].len);
        if s.ackno == acc32 {
          conns[i] := conns[i].(sndNxt := acc32);
          if conns[i].nrtx == 0 {
            conns[i] := conns[i].(rto := rto);
          }
          acked := true;
          conns[i] := conns[i].(timer := conns[i].rto);
          conns[i] := conns[i].(len := 0);
        }
      }
    }

    /** The state machine proper. */
    method Dispatch(i: nat, s: Segment, acked: bool, reply: AppReply)
      returns (out: Option<Segment>, event: Option<AppEvent>)
      requires i < conns.Length && conns[i].state != Closed && reply.Valid()
      requires conns[i].len <= UIP_TCP_MSS && conns[i].mss <= conns[i].initialMss <= UIP_TCP_MSS
      requires conns[i].nrtx <= UIP_MAXRTX
      requires acked ==> conns[i].len == 0
      requires conns[i].state == FinWait2 ==> !acked && conns[i].len == 0
      modifies conns
      ensures Outcome(conns[i], out, event) == InState(old(conns[i]), s, acked, reply)
      ensures conns[..] == old(conns[..])[i := conns[i]]
    {
      out, event := None, None;
      match conns[i].state
      case SynRcvd =>
        if acked {
          out, event := EnterEstablished(i, s, reply);
        }
      case SynSent =>
        out, event := AnswerSynAck(i, s, acked, reply);
      case Established =>
        out, event := Transfer(i, s, acked, reply);
      case LastAck =>
        if acked {
          conns[i] := conns[i].(state := Closed);
          event := Some(QUIET.(closed := true));
        }
      case FinWait1 =>
        out, event := HalfClosed(i, s, acked);
      case FinWait2 =>
        out, event := HalfClosed(i, s, acked);
      case TimeWait =>
        out := Some(AckPacket(conns[i]));
      case Closing =>
        if acked {
          conns[i] := conns[i].(state := TimeWait);
          conns[i] := conns[i].(timer := 0);
        }
    }

    method EnterEstablished(i: nat, s: Segment, reply: AppReply) returns (out: Option<Segment>, event: Option<AppEvent>)
      requires i < conns.Length && conns[i].len == 0 && conns[i].mss <= UIP_TCP_MSS && reply.Valid()
      modifies conns
      ensures Outcome(conns[i], out, event) == InSynRcvd(old(conns[i]), s, true, reply)
      ensures conns[..] == old(conns[..])[i := conns[i]]
    {
      conns[i] := conns[i].(state := Established);
      var e := QUIET.(connected := true);
      conns[i] := conns[i].(len := 0);
      if s.data != [] {
        e := e.(newdata := true, data := s.data);
      }
      conns[i] := conns[i].(rcvNxt := Add32(conns[i].rcvNxt, |s.data|));
      out := AfterAppCall(i, e, reply);
      event := Some(e);
    }

    method AnswerSynAck(i: nat, s: Segment, acked: bool, reply: AppReply)
      returns (out: Option<Segment>, event: Option<AppEvent>)
      requires i < conns.Length && conns[i].len <= UIP_TCP_MSS && conns[i].mss <= UIP_TCP_MSS && reply.Valid()
      requires acked ==> conns[i].len == 0
      modifies conns
      ensures Outcome(conns[i], out, event) == InSynSent(old(conns[i]), s, acked, reply)
      ensures conns[..] == old(conns[..])[i := conns[i]]
    {
      if acked && s.IsSynAck() {
        if s.mssOption.Some? {
          var mss := if s.mssOption.value > UIP_TCP_MSS then UIP_TCP_MSS else s.mssOption.value;
          conns[i] := conns[i].(initialMss := mss, mss := mss);
        }
        conns[i] := conns[i].(state := Established);
        conns[i] := conns[i].(rcvNxt := Add32(s.seqno, 1));
        conns[i] := conns[i].(len := 0);
        var e := QUIET.(connected := true, newdata := true);
        out := AfterAppCall(i, e, reply);
        return out, Some(e);
      }
      conns[i] := conns[i].(state := Closed);
      return ResetAnswer(s), Some(QUIET.(aborted := true));
    }

    method Transfer(i: nat, s: Segment, acked: bool, reply: AppReply)
      returns (out: Option<Segment>, event: Option<AppEvent>)
      requires i < conns.Length && ConnInv(conns[i]) && conns[i].state == Established && reply.Valid()
      modifies conns
      ensures Outcome(conns[i], out, event) == InEstablished(old(conns[i]), s, acked, reply)
      ensures conns[..] == old(conns[..])[i := conns[i]]
    {
      out, event := None, None;
      var e := QUIET.(acked := acked);
      if s.fin {
        if conns[i].len > 0 {
          return;
        }
        conns[i] := conns[i].(rcvNxt := Add32(conns[i].rcvNxt, 1 + |s.data|));
        e := e.(closed := true);
        if s.data != [] {
          e := e.(newdata := true, data := s.data);
        }
        conns[i] := conns[i].(len := 1);
        conns[i] := conns[i].(state := LastAck);
        conns[i] := conns[i].(nrtx := 0);
        return Some(FinAckPacket(conns[i])), Some(e);
      }
      if s.data != [] {
        e := e.(newdata := true, data := s.data);
      }
      conns[i] := conns[i].(rcvNxt := Add32(conns[i].rcvNxt, |s.data|));
      var wnd := s.wnd;
      if wnd > conns[i].initialMss || wnd == 0 {
        wnd := conns[i].initialMss;
      }
      conns[i] := conns[i].(mss := wnd);
      if e.newdata || e.acked {
        out := AfterAppCall(i, e, reply);
        event := Some(e);
      }
    }

    method HalfClosed(i: nat, s: Segment, acked: bool) returns (out: Option<Segment>, event: Option<AppEvent>)
      requires i < conns.Length && (conns[i].state == FinWait1 || conns[i].state == FinWait2)
      requires conns[i].state == FinWait2 ==> !acked && conns[i].len == 0
      modifies conns
      ensures Outcome(conns[i], out, event) == InFinWait(old(conns[i]), s, acked)
      ensures conns[..] == old(conns[..])[i := conns[i]]
    {
      out, event := None, None;
      conns[i] := conns[i].(rcvNxt := Add32(conns[i].rcvNxt, |s.data|));
      if s.fin {
        if acked || conns[i].state == FinWait2 {
          conns[i] := conns[i].(state := TimeWait);
          conns[i] := conns[i].(timer := 0);
          conns[i] := conns[i].(len := 0);
        } else {
          conns[i] := conns[i].(state := Closing);
        }
        conns[i] := conns[i].(rcvNxt := Add32(conns[i].rcvNxt, 1));
        return Some(AckPacket(conns[i])), Some(QUIET.(closed := true));
      }
      if acked {
        conns[i] := conns[i].(state := FinWait2);
        conns[i] := conns[i].(len := 0);
        return;
      }
      if s.data != [] {
        out := Some(AckPacket(conns[i]));
      }
    }

    /** The table entry that a datagram belongs to, or UIP_CONNS. */
    method Demultiplex(d: Datagram) returns (i: nat)
      requires conns.Length == UIP_CONNS
      ensures i <= UIP_CONNS
      ensures i < UIP_CONNS ==> Matches(conns[i], d)
      ensures i == UIP_CONNS ==> forall j :: 0 <= j < UIP_CONNS ==> !Matches(conns[j], d)
    {
      for c := 0 to UIP_CONNS
        invariant forall j :: 0 <= j < c ==> !Matches(conns[j], d)
      {
        if conns[c].state != Closed && d.destPort == conns[c].lport
           && d.srcPort == conns[c].rport && d.srcIp == conns[c].ripaddr {
          return c;
        }
      }
      return UIP_CONNS;
    }

    /** An entry for a new connection, or UIP_CONNS: a live connection is never taken. */
    method Allocate() returns (i: nat)
      requires conns.Length == UIP_CONNS
      ensures i < UIP_CONNS ==> Allocatable(conns[..], i)
      ensures i >= UIP_CONNS ==> i == UIP_CONNS && NoneFree(conns[..])
    {
      i := UIP_CONNS;
      for c := 0 to UIP_CONNS
        invariant forall j :: 0 <= j < c ==> conns[j].state != Closed
        invariant i == UIP_CONNS ==> forall j :: 0 <= j < c ==> conns[j].state != TimeWait
        invariant i != UIP_CONNS ==>
          && i < c && conns[i].state == TimeWait
          && forall j :: 0 <= j < c && conns[j].state == TimeWait ==> conns[j].timer <= conns[i].timer
      {
        if conns[c].state == Closed {
          return c;
        }
        if conns[c].state == TimeWait {
          if i == UIP_CONNS || conns[c].timer > conns[i].timer {
            i := c;
          }
        }
      }
    }

    method IsListening(port: u16) returns (listening: bool)
      requires listenPorts.Length == UIP_LISTENPORTS
      ensures listening == (port in listenPorts[..])
    {
      for c := 0 to UIP_LISTENPORTS
        invariant port !in listenPorts[..c]
      {
        if port == listenPorts[c] {
          return true;
        }
      }
      return false;
    }

    /** A TCP segment with a correct checksum; `slot` is the entry concerned, if any. */
    method Input(d: Datagram, rto: byte, reply: AppReply)
      returns (slot: nat, out: Option<Segment>, event: Option<AppEvent>)
      requires Valid() && reply.Valid()
      modifies conns
      ensures Valid() && slot <= UIP_CONNS && Fits(out)
      ensures
        var was := old(conns[..]);
        if slot < UIP_CONNS && Matches(was[slot], d) then
          && Outcome(conns[slot], out, event) == Receive(was[slot], d.segment, rto, reply)
          && conns[..] == was[slot := conns[slot]]
        else if slot < UIP_CONNS then
          && d.segment.IsSyn() && d.destPort in listenPorts[..]
          && Allocatable(was, slot) && (forall j :: 0 <= j < UIP_CONNS ==> !Matches(was[j], d))
          && conns[..] == was[slot := PassiveOpen(was[slot], iss, d.destPort, d.srcPort, d.srcIp, d.segment)]
          && out == Some(SynAckPacket(conns[slot])) && event == None
        else
          && conns[..] == was && event == None
          && (forall j :: 0 <= j < UIP_CONNS ==> !Matches(was[j], d))
          && if d.segment.IsSyn() && d.destPort in listenPorts[..] then NoneFree(was) && out == None
             else out == ResetAnswer(d.segment)
      // A new entry answers the SYN and is found by all that the peer sends from then on.
      ensures slot < UIP_CONNS && !Matches(old(conns[..])[slot], d) ==>
        && out.Some? && out.value.IsSynAck()
        && out.value.seqno == iss && out.value.ackno == Add32(d.segment.seqno, 1)
        && forall s :: Matches(conns[slot], d.(segment := s))
    {
      slot := Demultiplex(d);
      if slot < UIP_CONNS {
        out, event := Found(slot, d.segment, rto, reply);
        return;
      }
      out, event := None, None;
      var listening := false;
      if d.segment.IsSyn() {
        listening := IsListening(d.destPort);
      }
      if !listening {
        out := ResetAnswer(d.segment);
        return;
      }
      slot := Allocate();
      if slot < UIP_CONNS {
        out := Accept(slot, d);
      }
    }

    /** Fills in the entry of a new connection and answers the SYN. */
    method Accept(i: nat, d: Datagram) returns (out: Option<Segment>)
      requires Valid() && i < UIP_CONNS
      requires forall j :: 0 <= j < UIP_CONNS ==> !Matches(conns[j], d)
      modifies conns
      ensures Valid()
      ensures
        var c := PassiveOpen(old(conns[i]), iss, d.destPort, d.srcPort, d.srcIp, d.segment);
        conns[..] == old(conns[..])[i := c]
      ensures out == Some(SynAckPacket(conns[i]))
    {
      OpenKeeps(conns[i], iss, d.destPort, d.srcPort, d.srcIp, d.segment);
      EntryOpened(conns[..], i, PassiveOpen(conns[i], iss, d.destPort, d.srcPort, d.srcIp, d.segment));
      out := FillIn(i, d);
    }

    /** The fields of the new entry. */
    method FillIn(i: nat, d: Datagram) returns (out: Option<Segment>)
      requires i < conns.Length
      modifies conns
      ensures
        var c := PassiveOpen(old(conns[i]), iss, d.destPort, d.srcPort, d.srcIp, d.segment);
        conns[..] == old(conns[..])[i := c]
      ensures out == Some(SynAckPacket(conns[i]))
    {
      conns[i] := conns[i].(rto := UIP_RTO, timer := UIP_RTO);
      conns[i] := conns[i].(nrtx := 0);
      conns[i] := conns[i].(lport := d.destPort, rport := d.srcPort, ripaddr := d.srcIp);
      conns[i] := conns[i].(state := SynRcvd);
      conns[i] := conns[i].(sndNxt := iss);
      conns[i] := conns[i].(len := 1);
      conns[i] := conns[i].(rcvNxt := Add32(d.segment.seqno, 1));
      if d.segment.mssOption.Some? {
        var mss := if d.segment.mssOption.value > UIP_TCP_MSS then UIP_TCP_MSS else d.segment.mssOption.value;
        conns[i] := conns[i].(initialMss := mss, mss := mss);
      }
      return Some(SynAckPacket(conns[i]));
    }

    // ---------- Connecting ----------

    /** The entry whose connection, in use, has this local port; or UIP_CONNS. */
    method FindPort(port: u16) returns (i: nat)
      requires conns.Length == UIP_CONNS
      ensures i <= UIP_CONNS
      ensures i < UIP_CONNS ==> conns[i].state != Closed && conns[i].lport == port
      ensures i == UIP_CONNS ==> !PortUsed(conns[..], port)
    {
      for c := 0 to UIP_CONNS
        invariant forall j :: 0 <= j < c ==> conns[j].state == Closed || conns[j].lport != port
      {
        if conns[c].state != Closed && conns[c].lport == port {
          return c;
        }
      }
      return UIP_CONNS;
    }

    /** Searches an unused local port; since every failure is due to another connection, few tries suffice. */
    method ChoosePort() returns (tries: nat)
      requires Valid()
      modifies this`lastPort
      ensures Valid() && 1 <= tries <= UIP_CONNS + 1
      ensures !PortUsed(conns[..], lastPort)
      ensures lastPort == PortAt(NextPort(old(lastPort)), tries - 1)
      ensures tries == 1 ==> lastPort == if old(lastPort) + 1 < 32000 then old(lastPort) + 1 else 4096
      ensures forall k :: 0 <= k < tries - 1 ==> PortUsed(conns[..], PortAt(NextPort(old(lastPort)), k))
    {
      ghost var first := NextPort(lastPort);
      // The entries that use the ports tried so far.
      ghost var hits: seq<nat> := [];
      tries := 0;
      while true
        invariant lastPort < PORT_LIMIT
        invariant tries == |hits| && Distinct(hits)
        invariant lastPort == if tries == 0 then old(lastPort) else PortAt(first, tries - 1)
        invariant forall k :: 0 <= k < tries ==>
          hits[k] < UIP_CONNS && conns[hits[k]].state != Closed && conns[hits[k]].lport == PortAt(first, k)
        decreases UIP_CONNS - |hits|
      {
        DistinctBound(hits, UIP_CONNS);
        lastPort := lastPort + 1;
        if lastPort >= PORT_LIMIT {
          lastPort := FIRST_PORT;
        }
        var c := FindPort(lastPort);
        tries := tries + 1;
        if c == UIP_CONNS {
          forall k | 0 <= k < tries - 1 ensures PortUsed(conns[..], PortAt(first, k)) {
            assert conns[..][hits[k]].lport == PortAt(first, k);
          }
          return;
        }
        forall k | 0 <= k < |hits| ensures hits[k] != c {
          PortsDiffer(first, k, |hits|);
        }
        hits := hits + [c];
        DistinctBound(hits, UIP_CONNS);
      }
    }

    /** Opens a connection: an unused local port and a free entry, if there is one. */
    method Connect(ripaddr: u32, rport: u16) returns (i: nat)
      requires Valid()
      modifies this`lastPort, conns
      ensures Valid()
      ensures !PortUsed(old(conns[..]), lastPort)
      ensures i < UIP_CONNS ==>
        && Allocatable(old(conns[..]), i)
        && conns[..] == old(conns[..])[i := ActiveOpen(old(conns[i]), iss, lastPort, rport, ripaddr)]
      // The SYN is numbered with `iss`, and all that the peer sends back finds the entry.
      ensures i < UIP_CONNS ==>
        && SynIsDue(conns[i], iss)
        && forall s :: Matches(conns[i], Datagram(ripaddr, rport, lastPort, s))
      ensures i >= UIP_CONNS ==> NoneFree(old(conns[..])) && conns[..] == old(conns[..])
    {
      var tries := ChoosePort();
      i := Allocate();
      if i == UIP_CONNS {
        return;
      }
      ghost var c := ActiveOpen(conns[i], iss, lastPort, rport, ripaddr);
      OpenKeeps(conns[i], iss, lastPort, rport, ripaddr, Segment(0, 0, false, false, false, false, false, 0, None, []));
      EntryOpened(conns[..], i, c);
      conns[i] := conns[i].(state := SynSent);
      conns[i] := conns[i].(sndNxt := iss);
      conns[i] := conns[i].(initialMss := UIP_TCP_MSS, mss := UIP_TCP_MSS);
      conns[i] := conns[i].(len := 1, nrtx := 0, timer := 1, rto := UIP_RTO);
      conns[i] := conns[i].(lport := lastPort, rport := rport, ripaddr := ripaddr);
      SynBecomesDue(conns[i], iss);
    }
  }

  lemma ShiftIsBackoff(nrtx: nat)
    ensures UIP_RTO * Pow2(if nrtx > 4 then 4 else nrtx) == Backoff(nrtx)
  {
    assert Pow2(1) == 2;
    assert Pow2(2) == 4;
    assert Pow2(3) == 8;
    assert Pow2(4) == 16;
  }
}
