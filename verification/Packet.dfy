/**
 The packet buffer: how outgoing TCP and UDP packets get their lengths and checksums, what
 incoming packets are checked for, and how a full-sized TCP packet is split in two. The
 buffer is modelled from the IP header on, without the link-level header.
 */
module Packet {
  import opened Bytes
  import opened Checksum
  import opened UipOpt

  const UIP_PROTO_TCP: byte := 6
  const UIP_PROTO_UDP: byte := 17

  // Offsets of header fields.
  const LEN := 2
  const PROTO := 9
  const IPCHKSUM := 10
  const SRCIPADDR := 12
  const DESTIPADDR := 16
  const UDPLEN := 24
  const UDPCHKSUM := 26
  const SEQNO := 24
  const TCPCHKSUM := 36
  const URGP := 38

  // ---------- What a packet is checked for ----------

  /** A packet whose length field is its length. */
  predicate IsPacket(p: seq<byte>) {
    UIP_IPUDPH_LEN <= |p| < 0x1_0000 && Word(p, LEN) == |p|
  }

  function IpTotal(p: seq<byte>): nat
    requires |p| >= UIP_IPH_LEN
  {
    WordSum(p[..UIP_IPH_LEN])
  }

  /** Pseudo-header, transport header and data. */
  function TransportTotal(p: seq<byte>, proto: byte): nat
    requires |p| >= UIP_IPH_LEN
  {
    |p| - UIP_IPH_LEN + proto + WordSum(p[SRCIPADDR..UIP_IPH_LEN]) + WordSum(p[UIP_IPH_LEN..])
  }

  /** The checks of the input path that concern the packet itself. */
  predicate Accepted(p: seq<byte>) {
    && IsPacket(p)
    && p[0] == 0x45 && p[6] % 64 == 0 && p[7] == 0
    && Checked(Fold(IpTotal(p))) == 0xffff
    && (p[PROTO] == UIP_PROTO_TCP ==> Checked(Fold(TransportTotal(p, UIP_PROTO_TCP))) == 0xffff)
    && (p[PROTO] == UIP_PROTO_UDP ==>
          Word(p, UDPCHKSUM) == 0 || Checked(Fold(TransportTotal(p, UIP_PROTO_UDP))) == 0xffff)
  }

  /** The transport sum is that of one sequence of bytes: pseudo-header and segment (RFC 793, section 3.1). */
  lemma PseudoHeader(p: seq<byte>, proto: byte)
    requires 20 <= |p| < 0x1_0000
    ensures
      var n := |p| - 20;
      TransportTotal(p, proto)
        == WordSum(p[12..16] + p[16..20] + [0, proto] + [n as int / 256, n as int % 256] + p[20..])
  {
    var n := |p| - 20;
    var hi, lo: byte := n / 256, n % 256;
    var addresses, middle := p[12..20], [0, proto, hi, lo];
    assert p[12..16] + p[16..20] + [0, proto] + [hi, lo] + p[20..] == addresses + middle + p[20..];
    WordSumConcat(addresses + middle, p[20..]);
    WordSumConcat(addresses, middle);
    assert middle[2..] == [hi, lo] && WordSum([hi, lo][2..]) == 0;
    assert WordSum(middle) == proto as int + n;
  }

  /** What the input path accepts, in terms of bytes (RFC 791, section 3.1; RFC 793, section 3.1; RFC 768). */
  lemma AcceptedMeans(p: seq<byte>)
    ensures Accepted(p) <==>
      && 28 <= |p| < 0x1_0000 && p[0] == 0x45 && p[2] as int * 256 + p[3] == |p|
      && p[6] % 64 == 0 && p[7] == 0
      && Checked(Fold(WordSum(p[0..20]))) == 0xffff
      && (p[9] == 6 || (p[9] == 17 && !(p[26] == p[27] == 0)) ==>
            var n := |p| - 20;
            var covered := p[12..16] + p[16..20] + [0, p[9]] + [n as int / 256, n as int % 256] + p[20..];
            Checked(Fold(WordSum(covered))) == 0xffff)
  {
    if 28 <= |p| < 0x1_0000 {
      PseudoHeader(p, p[9]);
      assert p[0..20] == p[..20];
    }
  }

  // ---------- Checksum fields ----------

  /** The IP sum over a packet whose IP checksum field is being filled in. */
  lemma IpTotalWith(p: seq<byte>, w: u16)
    requires |p| >= UIP_IPH_LEN && Word(p, IPCHKSUM) == 0
    ensures IpTotal(WithWord(p, IPCHKSUM, w)) == IpTotal(p) + w
  {
    assert WithWord(p, IPCHKSUM, w)[..UIP_IPH_LEN] == WithWord(p[..UIP_IPH_LEN], IPCHKSUM, w);
    WordSumWithWord(p[..UIP_IPH_LEN], IPCHKSUM, w);
  }

  /** The transport sum over a packet with a word of the transport part replaced. */
  lemma TransportTotalWith(p: seq<byte>, proto: byte, at: nat, w: u16)
    requires UIP_IPH_LEN <= at && at + 1 < |p| && at % 2 == 0 && Word(p, at) == 0
    ensures TransportTotal(WithWord(p, at, w), proto) == TransportTotal(p, proto) + w
  {
    var q := WithWord(p, at, w);
    assert q[UIP_IPH_LEN..] == WithWord(p[UIP_IPH_LEN..], at - UIP_IPH_LEN, w);
    assert q[SRCIPADDR..UIP_IPH_LEN] == p[SRCIPADDR..UIP_IPH_LEN];
    WordSumWithWord(p[UIP_IPH_LEN..], at - UIP_IPH_LEN, w);
  }

  /** A word that makes the sum come out right may be put into a zeroed field. */
  lemma TransportPatched(p: seq<byte>, proto: byte, at: nat, w: u16)
    requires UIP_IPH_LEN <= at && at + 1 < |p| && at % 2 == 0 && Word(p, at) == 0
    requires Checked(Fold(TransportTotal(p, proto) + w)) == 0xffff
    ensures Checked(Fold(TransportTotal(WithWord(p, at, w), proto))) == 0xffff
  {
    TransportTotalWith(p, proto, at, w);
  }

  /** The transport sum does not depend on the parts of the IP header that are filled in later. */
  lemma TransportTotalSame(p: seq<byte>, q: seq<byte>, proto: byte)
    requires |p| == |q| >= UIP_IPH_LEN && p[SRCIPADDR..] == q[SRCIPADDR..]
    ensures TransportTotal(p, proto) == TransportTotal(q, proto)
  {
    assert p[SRCIPADDR..UIP_IPH_LEN] == p[SRCIPADDR..][..UIP_IPH_LEN - SRCIPADDR];
    assert q[SRCIPADDR..UIP_IPH_LEN] == q[SRCIPADDR..][..UIP_IPH_LEN - SRCIPADDR];
    assert p[UIP_IPH_LEN..] == p[SRCIPADDR..][UIP_IPH_LEN - SRCIPADDR..];
    assert q[UIP_IPH_LEN..] == q[SRCIPADDR..][UIP_IPH_LEN - SRCIPADDR..];
  }

  /** Two packets that differ only in [lo, hi). */
  ghost predicate SameExcept(p: seq<byte>, q: seq<byte>, lo: nat, hi: nat) {
    |p| == |q| && forall k :: 0 <= k < |p| && !(lo <= k < hi) ==> p[k] == q[k]
  }

  /** The packet with its TCP checksum computed over a zeroed field and filled in. */
  ghost function TcpFilled(p: seq<byte>): seq<byte>
    requires |p| >= UIP_TCPIP_HLEN
  {
    var zeroed := WithWord(p, TCPCHKSUM, 0);
    WithWord(zeroed, TCPCHKSUM, Stored(Fold(TransportTotal(zeroed, UIP_PROTO_TCP))))
  }

  /** The same for UDP, where a checksum of zero would mean that there is none. */
  ghost function UdpFilled(p: seq<byte>): seq<byte>
    requires |p| >= UIP_IPUDPH_LEN
  {
    var zeroed := WithWord(p, UDPCHKSUM, 0);
    WithWord(zeroed, UDPCHKSUM, StoredNonZero(Fold(TransportTotal(zeroed, UIP_PROTO_UDP))))
  }

  ghost function IpFilled(p: seq<byte>): seq<byte>
    requires |p| >= UIP_IPH_LEN
  {
    var zeroed := WithWord(p, IPCHKSUM, 0);
    WithWord(zeroed, IPCHKSUM, Stored(Fold(IpTotal(zeroed))))
  }

  /** Filling in a checksum changes nothing else. */
  lemma FilledSame(p: seq<byte>)
    requires |p| >= UIP_IPUDPH_LEN
    ensures |p| >= UIP_TCPIP_HLEN ==> SameExcept(p, TcpFilled(p), TCPCHKSUM, TCPCHKSUM + 2)
    ensures SameExcept(p, UdpFilled(p), UDPCHKSUM, UDPCHKSUM + 2)
    ensures SameExcept(p, IpFilled(p), IPCHKSUM, IPCHKSUM + 2)
  {
  }

  lemma TcpFilledAccepted(p: seq<byte>)
    requires |p| >= UIP_TCPIP_HLEN
    ensures Checked(Fold(TransportTotal(TcpFilled(p), UIP_PROTO_TCP))) == 0xffff
  {
    var zeroed := WithWord(p, TCPCHKSUM, 0);
    var total := TransportTotal(zeroed, UIP_PROTO_TCP);
    var stored := Stored(Fold(total));
    assert Checked(Fold(total + stored)) == 0xffff by {
      StoredIsAccepted(total);
    }
    TransportPatched(zeroed, UIP_PROTO_TCP, TCPCHKSUM, stored);
  }

  lemma UdpFilledAccepted(p: seq<byte>)
    requires |p| >= UIP_IPUDPH_LEN
    ensures Checked(Fold(TransportTotal(UdpFilled(p), UIP_PROTO_UDP))) == 0xffff
  {
    var zeroed := WithWord(p, UDPCHKSUM, 0);
    var total := TransportTotal(zeroed, UIP_PROTO_UDP);
    var stored := StoredNonZero(Fold(total));
    assert Checked(Fold(total + stored)) == 0xffff by {
      StoredNonZeroIsAccepted(total);
    }
    TransportPatched(zeroed, UIP_PROTO_UDP, UDPCHKSUM, stored);
  }

  lemma UdpFilledNonZero(p: seq<byte>)
    requires |p| >= UIP_IPUDPH_LEN
    ensures Word(UdpFilled(p), UDPCHKSUM) != 0
  {
    var zeroed := WithWord(p, UDPCHKSUM, 0);
    WordWithWord(zeroed, UDPCHKSUM, StoredNonZero(Fold(TransportTotal(zeroed, UIP_PROTO_UDP))));
    StoredNonZeroIsAccepted(TransportTotal(zeroed, UIP_PROTO_UDP));
  }

  lemma IpFilledAccepted(p: seq<byte>)
    requires |p| >= UIP_IPH_LEN
    ensures Checked(Fold(IpTotal(IpFilled(p)))) == 0xffff
  {
    var zeroed := WithWord(p, IPCHKSUM, 0);
    IpTotalWith(zeroed, Stored(Fold(IpTotal(zeroed))));
    StoredIsAccepted(IpTotal(zeroed));
  }

  class Buffer {
    const buf: array<byte>
    /** The size of the largest packet, UIP_BUFSIZE without the link-level header. */
    const fullSize: nat
    var uipLen: nat
    var ipid: u16
    /** The packets handed to the network driver. */
    var sent: seq<seq<byte>>

    /** A buffer with a packet of this length in it. */
    constructor (buf: array<byte>, fullSize: nat, uipLen: nat)
      requires UIP_IPUDPH_LEN <= uipLen <= buf.Length && uipLen < 0x1_0000
      ensures this.buf == buf && this.fullSize == fullSize && this.uipLen == uipLen && sent == []
      ensures Valid() && Contents() == buf[..uipLen]
    {
      this.buf, this.fullSize, this.uipLen := buf, fullSize, uipLen;
      ipid, sent := 0, [];
    }

    ghost predicate Valid()
      reads this
    {
      UIP_IPUDPH_LEN <= uipLen <= buf.Length && uipLen < 0x1_0000
    }

    /** The packet in the buffer. */
    function Contents(): (p: seq<byte>)
      requires Valid()
      reads this, buf
      ensures |p| == uipLen
    {
      buf[..uipLen]
    }

    method PutWord(at: nat, w: u16)
      requires Valid() && at + 1 < uipLen
      modifies buf
      ensures Contents() == WithWord(old(Contents()), at, w)
      ensures buf[uipLen..] == old(buf[uipLen..])
    {
      assert Pair(w / 256, w % 256) == w;
      buf[at] := w / 256;
      buf[at + 1] := w % 256;
    }

    /** The IP header checksum; zero is reported as FFFFh. */
    method IpChksum() returns (r: u16)
      requires Valid()
      ensures r == Checked(Fold(IpTotal(Contents())))
      ensures r == Checked(Fold(WordSum(Contents()[0..20])))
    {
      var sum := Chksum(0, buf, 0, UIP_IPH_LEN);
      assert buf[0..UIP_IPH_LEN] == Contents()[..UIP_IPH_LEN];
      r := Checked(sum);
    }

    /** The TCP or UDP checksum, with the length taken from the IP header. */
    method UpperLayerChksum(proto: byte) returns (r: u16)
      requires Valid() && IsPacket(Contents())
      requires proto == UIP_PROTO_TCP || proto == UIP_PROTO_UDP
      ensures r == Checked(Fold(TransportTotal(Contents(), proto)))
      // The word sum of the pseudo-header and the segment (RFC 793, section 3.1).
      ensures
        var p, n := Contents(), uipLen - 20;
        r == Checked(Fold(WordSum(p[12..16] + p[16..20] + [0, proto] + [n as int / 256, n as int % 256] + p[20..])))
    {
      ghost var p := Contents();
      PseudoHeader(p, proto);
      assert Word(p, LEN) == uipLen;
      var upperLayerLen := Pair(buf[LEN], buf[LEN + 1]) as int - UIP_IPH_LEN;
      // Too small to need the end-around carry.
      var sum := upperLayerLen + proto;
      assert buf[SRCIPADDR..SRCIPADDR + 8] == p[SRCIPADDR..UIP_IPH_LEN];
      var addresses := Chksum(sum, buf, SRCIPADDR, 8);
      assert buf[UIP_IPH_LEN..UIP_IPH_LEN + upperLayerLen] == p[UIP_IPH_LEN..];
      r := Chksum(addresses, buf, UIP_IPH_LEN, upperLayerLen);
      FoldFold(sum + WordSum(p[SRCIPADDR..UIP_IPH_LEN]), WordSum(p[UIP_IPH_LEN..]));
      r := Checked(r);
    }

    /** Fills in the TCP checksum. */
    method PutTcpChksum()
      requires Valid() && IsPacket(Contents()) && uipLen >= UIP_TCPIP_HLEN
      modifies buf
      ensures Contents() == TcpFilled(old(Contents()))
      ensures buf[uipLen..] == old(buf[uipLen..])
    {
      ghost var zeroed := WithWord(Contents(), TCPCHKSUM, 0);
      PutWord(TCPCHKSUM, 0);
      assert Contents() == zeroed && Word(zeroed, LEN) == uipLen;
      var sum := UpperLayerChksum(UIP_PROTO_TCP);
      assert 0xffff - sum == Stored(Fold(TransportTotal(zeroed, UIP_PROTO_TCP)));
      PutWord(TCPCHKSUM, 0xffff - sum);
    }

    /** Fills in the UDP checksum, which must not be zero. */
    method PutUdpChksum()
      requires Valid() && IsPacket(Contents())
      modifies buf
      ensures Contents() == UdpFilled(old(Contents()))
      ensures buf[uipLen..] == old(buf[uipLen..])
    {
      ghost var zeroed := WithWord(Contents(), UDPCHKSUM, 0);
      PutWord(UDPCHKSUM, 0);
      assert Contents() == zeroed && Word(zeroed, LEN) == uipLen;
      var sum := UpperLayerChksum(UIP_PROTO_UDP);
      assert 0xffff - sum == Stored(Fold(TransportTotal(zeroed, UIP_PROTO_UDP)));
      PutWord(UDPCHKSUM, if 0xffff - sum == 0 then 0xffff else 0xffff - sum);
    }

    /** Fills in the IP header checksum. */
    method PutIpChksum()
      requires Valid()
      modifies buf
      ensures Contents() == IpFilled(old(Contents()))
      ensures buf[uipLen..] == old(buf[uipLen..])
    {
      PutWord(IPCHKSUM, 0);
      var sum := IpChksum();
      PutWord(IPCHKSUM, 0xffff - sum);
    }

    // ---------- The send path ----------

    /** The rest of the IP header, but for the checksum. */
    method PutIpHeader()
      requires Valid()
      modifies this`ipid, buf
      ensures buf[uipLen..] == old(buf[uipLen..])
      ensures
        var p, q := old(Contents()), Contents();
        && q[0] == 0x45 && q[1] == q[6] == q[7] == 0
        && ipid == (old(ipid) as int + 1) % 0x1_0000 && Word(q, 4) == ipid
        && q[2] == p[2] && q[3] == p[3] && forall k :: 8 <= k < |q| ==> q[k] == p[k]
    {
      buf[0], buf[1], buf[6], buf[7] := 0x45, 0, 0, 0;
      ipid := (ipid as int + 1) % 0x1_0000;
      WordWithWord(Contents(), 4, ipid);
      PutWord(4, ipid);
    }

    /** The IP header. */
    method IpSendNolen()
      requires Valid() && IsPacket(Contents())
      modifies this`ipid, buf
      ensures buf[uipLen..] == old(buf[uipLen..])
      ensures
        var p, q := old(Contents()), Contents();
        && q[0] == 0x45 && q[1] == q[6] == q[7] == 0 && Word(q, 2) == |q|
        && ipid == (old(ipid) as int + 1) % 0x1_0000 && Word(q, 4) == ipid
        && q[8] == p[8] && q[9] == p[9] && q[12..] == p[12..]
        && Checked(Fold(IpTotal(q))) == 0xffff
    {
      PutIpHeader();
      ghost var q := Contents();
      PutIpChksum();
      FilledSame(q);
      IpFilledAccepted(q);
    }

    /** Lengths, checksums and IP header of an outgoing TCP packet, from `tcp_send_noconn` on. */
    method TcpSendNoconn(ttl: byte)
      requires Valid() && uipLen >= UIP_TCPIP_HLEN && buf[PROTO] == UIP_PROTO_TCP
      modifies this`ipid, buf
      ensures Accepted(Contents())
      ensures forall k :: 12 <= k < uipLen && !(36 <= k < 40) ==> Contents()[k] == old(Contents())[k]
      // The rest of the headers (RFC 791, section 3.1): no fragments, and a new identification; no urgent data.
      ensures
        var q := Contents();
        && q[1] == q[6] == q[7] == 0 && q[8] == ttl && q[9] == 6 && q[38] == q[39] == 0
        && ipid == (old(ipid) as int + 1) % 0x1_0000 && Word(q, 4) == ipid
      ensures buf[uipLen..] == old(buf[uipLen..])
    {
      buf[8] := ttl;
      buf[URGP], buf[URGP + 1] := 0, 0;
      WordWithWord(Contents(), LEN, uipLen);
      PutWord(LEN, uipLen);
      FinishTcp();
    }

    /** The TCP checksum and the IP header. */
    method FinishTcp()
      requires Valid() && uipLen >= UIP_TCPIP_HLEN && IsPacket(Contents()) && buf[PROTO] == UIP_PROTO_TCP
      modifies this`ipid, buf
      ensures Accepted(Contents())
      ensures forall k :: 12 <= k < uipLen && !(36 <= k < 38) ==> Contents()[k] == old(Contents())[k]
      ensures
        var p, q := old(Contents()), Contents();
        && q[1] == q[6] == q[7] == 0 && q[8] == p[8] && q[9] == 6
        && ipid == (old(ipid) as int + 1) % 0x1_0000 && Word(q, 4) == ipid
      ensures buf[uipLen..] == old(buf[uipLen..])
    {
      ghost var p := Contents();
      PutTcpChksum();
      ghost var q := Contents();
      FilledSame(p);
      TcpFilledAccepted(p);
      IpSendNolen();
      TransportTotalSame(q, Contents(), UIP_PROTO_TCP);
      SuffixSame(q, Contents(), SRCIPADDR);
    }

    /** An outgoing UDP packet with `slen` bytes of data, already in place; without data nothing is sent. */
    method UdpSend(slen: nat, ttl: byte, lport: u16, rport: u16, hostaddr: seq<byte>, ripaddr: seq<byte>)
      returns (sends: bool)
      requires UIP_IPUDPH_LEN + slen <= buf.Length && UIP_IPUDPH_LEN + slen < 0x1_0000
      requires |hostaddr| == |ripaddr| == 4
      modifies this`uipLen, this`ipid, buf
      ensures sends == (slen > 0)
      ensures !sends ==> uipLen == 0 && buf[..] == old(buf[..])
      ensures sends ==>
        && Valid() && uipLen == UIP_IPUDPH_LEN + slen
        && Accepted(Contents()) && Contents()[8] == ttl && Contents()[9] == 17
        && Contents()[12..16] == hostaddr && Contents()[16..20] == ripaddr
        && Word(Contents(), 20) == lport && Word(Contents(), 22) == rport
        && Word(Contents(), 24) == slen + 8 && Word(Contents(), 26) != 0
        && Contents()[28..] == old(buf[UIP_IPUDPH_LEN..UIP_IPUDPH_LEN + slen])
    {
      if slen == 0 {
        uipLen := 0;
        return false;
      }
      uipLen := slen + UIP_IPUDPH_LEN;
      buf[8], buf[PROTO] := ttl, UIP_PROTO_UDP;
      PutUdpHeader(slen, lport, rport);
      PutAddresses(hostaddr, ripaddr);
      FinishUdp();
      assert Contents()[UIP_IPUDPH_LEN..] == old(buf[UIP_IPUDPH_LEN..UIP_IPUDPH_LEN + slen]);
      return true;
    }

    method PutAddresses(hostaddr: seq<byte>, ripaddr: seq<byte>)
      requires Valid() && |hostaddr| == |ripaddr| == 4
      modifies buf
      ensures SameExcept(old(Contents()), Contents(), SRCIPADDR, UIP_IPH_LEN)
      ensures Contents()[SRCIPADDR..DESTIPADDR] == hostaddr && Contents()[DESTIPADDR..UIP_IPH_LEN] == ripaddr
    {
      buf[12], buf[13], buf[14], buf[15] := hostaddr[0], hostaddr[1], hostaddr[2], hostaddr[3];
      buf[16], buf[17], buf[18], buf[19] := ripaddr[0], ripaddr[1], ripaddr[2], ripaddr[3];
    }

    /** The UDP checksum and the IP header. */
    method FinishUdp()
      requires Valid() && IsPacket(Contents()) && buf[PROTO] == UIP_PROTO_UDP
      modifies this`ipid, buf
      ensures Accepted(Contents()) && Contents()[PROTO] == UIP_PROTO_UDP && Word(Contents(), UDPCHKSUM) != 0
      ensures Contents()[8] == old(Contents())[8]
      ensures forall k :: SRCIPADDR <= k < uipLen && !(UDPCHKSUM <= k < UIP_IPUDPH_LEN) ==>
        Contents()[k] == old(Contents())[k]
    {
      ghost var p := Contents();
      PutUdpChksum();
      ghost var q := Contents();
      FilledSame(p);
      UdpFilledAccepted(p);
      UdpFilledNonZero(p);
      IpSendNolen();
      TransportTotalSame(q, Contents(), UIP_PROTO_UDP);
      SuffixSame(q, Contents(), SRCIPADDR);
    }

    /** Lengths and ports. */
    method PutUdpHeader(slen: nat, lport: u16, rport: u16)
      requires Valid() && uipLen == UIP_IPUDPH_LEN + slen
      modifies buf
      ensures
        var p := Contents();
        && Word(p, LEN) == uipLen && Word(p, UDPLEN) == slen + 8 && Word(p, 20) == lport && Word(p, 22) == rport
        && (forall k :: 8 <= k < uipLen && !(20 <= k < UDPCHKSUM) ==> p[k] == old(Contents())[k])
      ensures buf[uipLen..] == old(buf[uipLen..])
    {
      PutWord(LEN, uipLen);
      PutWord(UDPLEN, slen + 8);
      PutWord(20, lport);
      PutWord(22, rport);
    }

    // ---------- Splitting ----------

    method Output()
      requires Valid()
      modifies this`sent
      ensures sent == old(sent) + [Contents()]
    {
      sent := sent + [buf[..uipLen]];
    }

    /** Cuts the packet off after `len` bytes of payload. */
    method SetLength(len: nat)
      requires UIP_TCPIP_HLEN + len <= buf.Length && UIP_TCPIP_HLEN + len < 0x1_0000
      modifies this`uipLen, buf
      ensures Valid() && uipLen == UIP_TCPIP_HLEN + len
      ensures Contents() == WithWord(old(buf[..UIP_TCPIP_HLEN + len]), LEN, uipLen)
      ensures buf[uipLen..] == old(buf[UIP_TCPIP_HLEN + len..])
    {
      uipLen := len + UIP_TCPIP_HLEN;
      PutWord(LEN, uipLen);
    }

    /** Recalculates both checksums and transmits. */
    method SendPart()
      requires Valid() && uipLen >= UIP_TCPIP_HLEN && IsPacket(Contents())
      modifies this`sent, buf
      ensures sent == old(sent) + [Contents()]
      ensures PartOf(old(Contents()), Contents())
      ensures buf[uipLen..] == old(buf[uipLen..])
    {
      ghost var p := Contents();
      PutTcpChksum();
      ghost var q := Contents();
      FilledSame(p);
      TcpFilledAccepted(p);
      PutIpChksum();
      FilledSame(q);
      IpFilledAccepted(q);
      TransportTotalSame(q, Contents(), UIP_PROTO_TCP);
      Output();
    }

    /** Moves the second part of the payload to the place of the first. */
    method MovePayload(len1: nat, len2: nat)
      requires UIP_TCPIP_HLEN + len1 + len2 <= buf.Length
      modifies buf
      ensures forall k :: 0 <= k < UIP_TCPIP_HLEN ==> buf[k] == old(buf[k])
      ensures forall k :: UIP_TCPIP_HLEN <= k < UIP_TCPIP_HLEN + len2 ==> buf[k] == old(buf[k + len1])
    {
      for j := 0 to len2
        invariant forall k :: 0 <= k < UIP_TCPIP_HLEN ==> buf[k] == old(buf[k])
        invariant forall k :: UIP_TCPIP_HLEN <= k < UIP_TCPIP_HLEN + j ==> buf[k] == old(buf[k + len1])
        invariant forall k :: UIP_TCPIP_HLEN + j <= k < buf.Length ==> buf[k] == old(buf[k])
      {
        buf[UIP_TCPIP_HLEN + j] := buf[UIP_TCPIP_HLEN + len1 + j];
      }
    }

    method PutSeqno(b: seq<byte>)
      requires Valid() && uipLen >= UIP_TCPIP_HLEN && |b| == 4
      modifies buf
      ensures SameExcept(old(Contents()), Contents(), SEQNO, SEQNO + 4)
      ensures Contents()[SEQNO..SEQNO + 4] == b
    {
      buf[SEQNO], buf[SEQNO + 1], buf[SEQNO + 2], buf[SEQNO + 3] := b[0], b[1], b[2], b[3];
    }

    /** Adds to the sequence number in the TCP header. */
    method AdvanceSeqno(n: u16)
      requires Valid() && uipLen >= UIP_TCPIP_HLEN
      modifies buf
      ensures SameExcept(old(Contents()), Contents(), SEQNO, SEQNO + 4)
      ensures Contents()[SEQNO..SEQNO + 4] == Sum32(old(Contents())[SEQNO..SEQNO + 4], n)
    {
      var seqno := Contents()[SEQNO..SEQNO + 4];
      var op32, acc32 := new byte[4](i requires 0 <= i < 4 => seqno[i]), new byte[4];
      assert op32[..] == seqno;
      UipAdd32(op32, n, acc32);
      PutSeqno(acc32[..]);
    }

    /** Makes a packet of the header and the first `len` payload bytes in the buffer, and transmits it. */
    method SendPrefix(len: nat)
      requires UIP_TCPIP_HLEN + len <= buf.Length && UIP_TCPIP_HLEN + len < 0x1_0000
      modifies this`uipLen, this`sent, buf
      ensures Valid() && uipLen == UIP_TCPIP_HLEN + len
      ensures sent == old(sent) + [Contents()]
      ensures IsPart(old(buf[..]), Contents(), 0, len)
      ensures Contents()[SEQNO..SEQNO + 4] == old(buf[SEQNO..SEQNO + 4])
      ensures buf[uipLen..] == old(buf[UIP_TCPIP_HLEN + len..])
    {
      ghost var p := buf[..];
      WordWithWord(buf[..UIP_TCPIP_HLEN + len], LEN, UIP_TCPIP_HLEN + len);
      SetLength(len);
      ghost var t := Contents();
      SendPart();
      PrefixIsPart(p, t, Contents(), len);
    }

    /** Makes the second packet: payload moved, sequence number advanced. */
    method SendRest(len1: nat, len2: nat)
      requires Valid() && uipLen == UIP_TCPIP_HLEN + len1
      requires UIP_TCPIP_HLEN + len1 + len2 <= buf.Length && UIP_TCPIP_HLEN + len1 + len2 < 0x1_0000
      modifies this`uipLen, this`sent, buf
      ensures Valid() && sent == old(sent) + [Contents()]
      ensures IsPart(old(buf[..UIP_TCPIP_HLEN + len1 + len2]), Contents(), len1, len2)
      ensures Contents()[SEQNO..SEQNO + 4] == Sum32(old(buf[SEQNO..SEQNO + 4]), len1)
    {
      ghost var p := buf[..UIP_TCPIP_HLEN + len1 + len2];
      MovePayload(len1, len2);
      uipLen := UIP_TCPIP_HLEN + len2;
      ghost var t := Contents();
      Moved(p, t, len1, len2);
      AdvanceSeqno(len1);
      ghost var u := buf[..];
      assert u[SEQNO..SEQNO + 4] == Contents()[SEQNO..SEQNO + 4];
      assert old(buf[SEQNO..SEQNO + 4]) == p[SEQNO..SEQNO + 4];
      assert u[..|t|] == Contents();
      SendPrefix(len2);
      RestIsPart(p, t, u, Contents(), len1, len2);
    }

    /** Sends a full-sized TCP packet as two packets, any other packet as it is. */
    method SplitOutput()
      requires Valid() && fullSize >= UIP_TCPIP_HLEN
      modifies this`uipLen, this`sent, buf
      ensures
        var p := old(Contents());
        if p[9] == 6 && |p| == fullSize then
          && |sent| == |old(sent)| + 2 && sent[..|old(sent)|] == old(sent)
          && Splits(p, sent[|old(sent)|], sent[|old(sent)| + 1])
        else sent == old(sent) + [p]
    {
      if buf[PROTO] == UIP_PROTO_TCP && uipLen == fullSize {
        var tcplen := uipLen - UIP_TCPIP_HLEN;
        var len1, len2 := tcplen / 2, tcplen / 2;
        if len1 + len2 < tcplen {
          len2 := len2 + 1;
        }
        SplitInTwo(len1, len2);
      } else {
        Output();
      }
    }

    method SplitInTwo(len1: nat, len2: nat)
      requires Valid() && uipLen == UIP_TCPIP_HLEN + len1 + len2 && len1 <= len2 <= len1 + 1
      requires buf[PROTO] == UIP_PROTO_TCP
      modifies this`uipLen, this`sent, buf
      ensures |sent| == |old(sent)| + 2 && sent[..|old(sent)|] == old(sent)
      ensures Splits(old(Contents()), sent[|old(sent)|], sent[|old(sent)| + 1])
    {
      ghost var p := Contents();
      SendPrefix(len1);
      ghost var q1, r := Contents(), buf[..UIP_TCPIP_HLEN + len1 + len2];
      assert IsPart(p, q1, 0, len1);
      assert q1[SEQNO..SEQNO + 4] == p[SEQNO..SEQNO + 4];
      assert r[..UIP_TCPIP_HLEN + len1] == q1;
      assert r[UIP_TCPIP_HLEN + len1..] == buf[uipLen..][..len2];
      assert p[UIP_TCPIP_HLEN + len1..] == old(buf[UIP_TCPIP_HLEN + len1..])[..len2];
      assert buf[SEQNO..SEQNO + 4] == r[SEQNO..SEQNO + 4] by {
        assert forall k :: SEQNO <= k < SEQNO + 4 ==> buf[k] == r[k];
      }
      SendRest(len1, len2);
      SplitParts(p, r, q1, Contents(), len1, len2);
    }
  }

  /** Two packets that together say what one said. */
  ghost predicate Splits(p: seq<byte>, q1: seq<byte>, q2: seq<byte>) {
    && |p| >= UIP_TCPIP_HLEN && |q1| >= UIP_TCPIP_HLEN && |q2| >= UIP_TCPIP_HLEN
    && var len1 := |q1| - UIP_TCPIP_HLEN;
    && IsPart(p, q1, 0, len1) && IsPart(p, q2, len1, |q2| - UIP_TCPIP_HLEN)
    && q1[UIP_TCPIP_HLEN..] + q2[UIP_TCPIP_HLEN..] == p[UIP_TCPIP_HLEN..]
    && len1 <= |q2| - UIP_TCPIP_HLEN <= len1 + 1
    && q1[24..28] == p[24..28] && Value32(q2[24..28]) == Add32(Value32(p[24..28]), len1)
    && (Accepted(p) ==> Accepted(q1) && Accepted(q2))
  }

  /** The header bytes that splitting does not change. */
  predicate KeptByte(k: int) {
    // All but length, sequence number and the two checksums.
    0 <= k < 40 && !(2 <= k < 4) && !(10 <= k < 12) && !(24 <= k < 28) && !(36 <= k < 38)
  }

  ghost predicate HeaderOf(p: seq<byte>, q: seq<byte>) {
    |p| >= UIP_TCPIP_HLEN && |q| >= UIP_TCPIP_HLEN && forall k :: KeptByte(k) ==> q[k] == p[k]
  }

  /** `q` is a packet of its own with `len` bytes of the payload of `p`, from `from` on. */
  ghost predicate IsPart(p: seq<byte>, q: seq<byte>, from: nat, len: nat) {
    && HeaderOf(p, q) && UIP_TCPIP_HLEN + from + len <= |p|
    && IsPacket(q) && |q| == UIP_TCPIP_HLEN + len
    && q[UIP_TCPIP_HLEN..] == p[UIP_TCPIP_HLEN + from..UIP_TCPIP_HLEN + from + len]
    && Checked(Fold(IpTotal(q))) == 0xffff
    && Checked(Fold(TransportTotal(q, UIP_PROTO_TCP))) == 0xffff
  }

  /** `q` is the packet `p` with its checksums put right. */
  ghost predicate PartOf(p: seq<byte>, q: seq<byte>) {
    && |p| == |q| >= UIP_TCPIP_HLEN
    && (forall k :: 0 <= k < |p| && k != IPCHKSUM && k != IPCHKSUM + 1 && k != TCPCHKSUM && k != TCPCHKSUM + 1 ==>
          q[k] == p[k])
    && Checked(Fold(IpTotal(q))) == 0xffff
    && Checked(Fold(TransportTotal(q, UIP_PROTO_TCP))) == 0xffff
  }

  lemma PrefixIsPart(p: seq<byte>, t: seq<byte>, q: seq<byte>, len: nat)
    requires UIP_TCPIP_HLEN + len <= |p| && UIP_TCPIP_HLEN + len < 0x1_0000
    requires t == WithWord(p[..UIP_TCPIP_HLEN + len], LEN, UIP_TCPIP_HLEN + len) && PartOf(t, q)
    ensures IsPart(p, q, 0, len) && q[SEQNO..SEQNO + 4] == p[SEQNO..SEQNO + 4]
  {
    WordWithWord(p[..UIP_TCPIP_HLEN + len], LEN, UIP_TCPIP_HLEN + len);
    assert Word(q, LEN) == Word(t, LEN);
    assert q[UIP_TCPIP_HLEN..] == p[UIP_TCPIP_HLEN..UIP_TCPIP_HLEN + len];
  }

  /** The buffer with the second part of the payload moved to the front. */
  lemma Moved(p: seq<byte>, t: seq<byte>, len1: nat, len2: nat)
    requires |p| == UIP_TCPIP_HLEN + len1 + len2 && |t| == UIP_TCPIP_HLEN + len2
    requires forall k :: 0 <= k < UIP_TCPIP_HLEN ==> t[k] == p[k]
    requires forall k :: UIP_TCPIP_HLEN <= k < UIP_TCPIP_HLEN + len2 ==> t[k] == p[k + len1]
    ensures t[..UIP_TCPIP_HLEN] == p[..UIP_TCPIP_HLEN] && t[SEQNO..SEQNO + 4] == p[SEQNO..SEQNO + 4]
    ensures t[UIP_TCPIP_HLEN..] == p[UIP_TCPIP_HLEN + len1..]
  {
  }

  lemma RestIsPart(p: seq<byte>, t: seq<byte>, u: seq<byte>, q: seq<byte>, len1: nat, len2: nat)
    requires |p| == UIP_TCPIP_HLEN + len1 + len2
    requires |t| == UIP_TCPIP_HLEN + len2 <= |u|
    requires t[..UIP_TCPIP_HLEN] == p[..UIP_TCPIP_HLEN]
    requires t[UIP_TCPIP_HLEN..] == p[UIP_TCPIP_HLEN + len1..]
    requires SameExcept(t, u[..|t|], SEQNO, SEQNO + 4)
    requires IsPart(u, q, 0, len2)
    ensures IsPart(p, q, len1, len2)
  {
    forall k | KeptByte(k) ensures q[k] == p[k] {
      assert p[k] == p[..UIP_TCPIP_HLEN][k];
      assert t[k] == t[..UIP_TCPIP_HLEN][k];
    }
    assert u[UIP_TCPIP_HLEN..UIP_TCPIP_HLEN + len2] == t[UIP_TCPIP_HLEN..];
  }

  lemma PartAccepted(p: seq<byte>, q: seq<byte>, from: nat, len: nat)
    requires IsPart(p, q, from, len) && Accepted(p) && p[PROTO] == UIP_PROTO_TCP
    ensures Accepted(q)
  {
    assert KeptByte(0) && KeptByte(6) && KeptByte(7) && KeptByte(PROTO);
  }

  /** The header of the buffer has become that of the first packet. */
  lemma RestHeader(p: seq<byte>, r: seq<byte>, q1: seq<byte>, n: nat)
    requires UIP_TCPIP_HLEN <= n <= |r| && HeaderOf(p, q1) && r[..n] == q1
    requires q1[SEQNO..SEQNO + 4] == p[SEQNO..SEQNO + 4]
    ensures HeaderOf(p, r) && r[SEQNO..SEQNO + 4] == p[SEQNO..SEQNO + 4]
  {
    assert forall k :: 0 <= k < n ==> r[k] == r[..n][k] == q1[k];
    assert r[SEQNO..SEQNO + 4] == q1[SEQNO..SEQNO + 4];
  }

  /** A part of the buffer is a part of the packet. */
  lemma PartOfRest(p: seq<byte>, r: seq<byte>, q: seq<byte>, from: nat, len: nat)
    requires HeaderOf(p, r) && IsPart(r, q, from, len) && |p| == |r| == UIP_TCPIP_HLEN + from + len
    requires r[UIP_TCPIP_HLEN + from..] == p[UIP_TCPIP_HLEN + from..]
    ensures IsPart(p, q, from, len)
  {
  }

  lemma BothParts(p: seq<byte>, q1: seq<byte>, q2: seq<byte>, len1: nat, len2: nat)
    requires |p| == UIP_TCPIP_HLEN + len1 + len2
    requires IsPart(p, q1, 0, len1) && IsPart(p, q2, len1, len2)
    ensures q1[UIP_TCPIP_HLEN..] + q2[UIP_TCPIP_HLEN..] == p[UIP_TCPIP_HLEN..]
  {
  }

  /** The second packet is made from what the first one has left in the buffer. */
  lemma SplitParts(p: seq<byte>, r: seq<byte>, q1: seq<byte>, q2: seq<byte>, len1: nat, len2: nat)
    requires |p| == |r| == UIP_TCPIP_HLEN + len1 + len2 < 0x1_0000 && len1 <= len2 <= len1 + 1
    requires p[PROTO] == UIP_PROTO_TCP
    requires IsPart(p, q1, 0, len1) && q1[SEQNO..SEQNO + 4] == p[SEQNO..SEQNO + 4]
    requires r[..UIP_TCPIP_HLEN + len1] == q1 && r[UIP_TCPIP_HLEN + len1..] == p[UIP_TCPIP_HLEN + len1..]
    requires IsPart(r, q2, len1, len2) && q2[SEQNO..SEQNO + 4] == Sum32(r[SEQNO..SEQNO + 4], len1)
    ensures Splits(p, q1, q2)
  {
    RestHeader(p, r, q1, UIP_TCPIP_HLEN + len1);
    PartOfRest(p, r, q2, len1, len2);
    BothParts(p, q1, q2, len1, len2);
    Sum32Value(p[SEQNO..SEQNO + 4], len1);
    if Accepted(p) {
      PartAccepted(p, q1, 0, len1);
      PartAccepted(p, q2, len1, len2);
    }
  }

  lemma SuffixSame(p: seq<byte>, q: seq<byte>, from: nat)
    requires |p| == |q| && from <= |p| && p[from..] == q[from..]
    ensures forall k :: from <= k < |p| ==> p[k] == q[k]
  {
    forall k | from <= k < |p| ensures p[k] == q[k] {
      assert p[k] == p[from..][k - from];
      assert q[k] == q[from..][k - from];
    }
  }
}
