/**
 The answer to an ICMP echo request: the type is changed in place and the checksum adjusted
 instead of recomputed. The machine is little-endian, so that the 16-bit arithmetic is done on
 words whose bytes are swapped.
 */
module Icmp {
  import opened Bytes
  import opened Checksum

  const ICMP_ECHO: byte := 8
  const ICMP_ECHO_REPLY: byte := 0

  /** The sum of the words as a little-endian machine reads them. */
  function SwappedSum(data: seq<byte>): nat {
    if |data| == 0 then 0
    else if |data| == 1 then data[0]
    else Pair(data[1], data[0]) + SwappedSum(data[2..])
  }

  function OddBytes(data: seq<byte>): nat {
    if |data| < 2 then 0 else data[1] + OddBytes(data[2..])
  }

  /** Byte order independence: swapping the bytes of all words multiplies the sum by 256, modulo FFFFh. */
  lemma {:induction false} SwapIsTimes256(data: seq<byte>)
    ensures 256 * SwappedSum(data) == WordSum(data) + 0xffff * OddBytes(data)
  {
    if |data| >= 2 {
      SwapIsTimes256(data[2..]);
    }
  }

  /** The checksum field of the reply, read as the machine reads it. */
  function Adjusted(x: u16): u16 {
    if x >= 0xfff7 then x as int + 9 - 0x1_0000 else x as int + 8
  }

  /** The reply to an echo request. */
  function Reply(m: seq<byte>): (r: seq<byte>)
    requires |m| >= 4 && m[0] == ICMP_ECHO
    ensures |r| == |m|
  {
    var x := Adjusted(Pair(m[3], m[2]));
    [ICMP_ECHO_REPLY, m[1], x % 256, x / 256] + m[4..]
  }

  lemma SwappedSumHead(m: seq<byte>)
    requires |m| >= 4
    ensures SwappedSum(m) == Pair(m[1], m[0]) + Pair(m[3], m[2]) + SwappedSum(m[4..])
  {
    assert m[2..][2..] == m[4..];
  }

  /** Adjusting changes the swapped sum by nothing or by FFFFh. */
  lemma ReplySwappedSum(m: seq<byte>)
    requires |m| >= 4 && m[0] == ICMP_ECHO
    ensures SwappedSum(m) == SwappedSum(Reply(m)) + (if Pair(m[3], m[2]) >= 0xfff7 then 0xffff else 0)
  {
    var r := Reply(m);
    SwappedSumHead(m);
    SwappedSumHead(r);
    assert r[4..] == m[4..];
    assert Pair(r[3], r[2]) == Adjusted(Pair(m[3], m[2]));
  }

  /** The one's complement sum of the message stays the same modulo FFFFh, for every checksum value. */
  lemma ReplySumCongruent(m: seq<byte>)
    requires |m| >= 4 && m[0] == ICMP_ECHO
    ensures WordSum(Reply(m)) % 0xffff == WordSum(m) % 0xffff
  {
    var r := Reply(m);
    ReplySwappedSum(m);
    SwapIsTimes256(m);
    SwapIsTimes256(r);
    var carry := if Pair(m[3], m[2]) >= 0xfff7 then 1 else 0;
    var k: int := OddBytes(r) + 256 * carry - OddBytes(m);
    assert WordSum(m) == WordSum(r) + 0xffff * k;
    Remainder(WordSum(m), 0xffff, WordSum(r) / 0xffff + k, WordSum(r) % 0xffff);
  }

  predicate AllZero(m: seq<byte>) {
    forall k :: 0 <= k < |m| ==> m[k] == 0
  }

  lemma {:induction false} ZeroSum(m: seq<byte>)
    ensures WordSum(m) == 0 <==> AllZero(m)
  {
    if |m| >= 2 {
      ZeroSum(m[2..]);
      assert forall k :: 2 <= k < |m| ==> m[k] == m[2..][k - 2];
      assert AllZero(m[2..]) ==> forall k :: 2 <= k < |m| ==> m[k] == 0;
      assert AllZero(m) ==> AllZero(m[2..]);
    }
  }

  /**
   A reply to a message with a correct checksum has a correct checksum, with one exception:
   when nothing but the type and the checksum were different from zero, the adjusted checksum
   is zero too, and the sum of the reply is zero instead of FFFFh.
   */
  lemma ReplyAccepted(m: seq<byte>)
    requires |m| >= 4 && m[0] == ICMP_ECHO && Fold(WordSum(m)) == 0xffff
    ensures Fold(WordSum(Reply(m))) == 0xffff <==> !(m[1] == 0 && AllZero(m[4..]))
  {
    var r := Reply(m);
    ZeroSum(m);
    ZeroSum(r);
    ReplySumCongruent(m);
    FoldMod(WordSum(m));
    if WordSum(r) > 0 {
      FoldMod(WordSum(r));
    }
    if m[1] == 0 && AllZero(m[4..]) {
      LonelyChecksum(m);
    }
    assert r[1] == m[1] && r[4..] == m[4..];
  }

  lemma OnlyChecksum(x: u16)
    requires Fold(0x800 + x) == 0xffff
    ensures x == 0xf7ff
  {
    FoldIs(0x800 + x);
  }

  /** With nothing else in the message, the only correct checksum is F7FFh, which becomes zero. */
  lemma LonelyChecksum(m: seq<byte>)
    requires |m| >= 4 && m[0] == ICMP_ECHO && Fold(WordSum(m)) == 0xffff
    requires m[1] == 0 && AllZero(m[4..])
    ensures Pair(m[2], m[3]) == 0xf7ff && AllZero(Reply(m))
  {
    LonelySum(m);
    OnlyChecksum(Pair(m[2], m[3]));
    LonelyReply(m);
  }

  lemma LonelySum(m: seq<byte>)
    requires |m| >= 4 && AllZero(m[4..])
    ensures WordSum(m) == Pair(m[0], m[1]) as int + Pair(m[2], m[3])
  {
    ZeroSum(m[4..]);
    assert m[2..][2..] == m[4..];
  }

  lemma LonelyReply(m: seq<byte>)
    requires |m| >= 4 && m[0] == ICMP_ECHO && m[1] == 0 && AllZero(m[4..]) && Pair(m[2], m[3]) == 0xf7ff
    ensures AllZero(Reply(m))
  {
    assert m[2] == 0xf7 && m[3] == 0xff;
    assert Reply(m) == [0, 0, 0, 0] + m[4..];
  }

  /** Turns the request in the buffer into the reply. */
  method EchoReply(m: array<byte>)
    requires m.Length >= 4 && m[0] == ICMP_ECHO
    modifies m
    ensures m[..] == Reply(old(m[..]))
  {
    m[0] := ICMP_ECHO_REPLY;
    var x := Pair(m[3], m[2]);
    if x >= 0xfff7 {
      x := (x as int + 8 + 1) % 0x1_0000;
    } else {
      x := x + 8;
    }
    assert x == Adjusted(Pair(old(m[3]), old(m[2])));
    m[2], m[3] := x % 256, x / 256;
  }
}
