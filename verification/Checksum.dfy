/** The Internet checksum (RFC 1071) and the 32-bit adder, as uIP computes them on bytes. */
module Checksum {
  import opened Bytes

  // ---------- One's complement sums ----------

  function Pair(hi: byte, lo: byte): u16 {
    hi as int * 256 + lo
  }

  /** The sum of the big-endian 16-bit words; an odd last byte is the high byte of a word. */
  function WordSum(data: seq<byte>): nat {
    if |data| == 0 then 0
    else if |data| == 1 then Pair(data[0], 0)
    else Pair(data[0], data[1]) + WordSum(data[2..])
  }

  /** The 16-bit one's complement representation of a sum: carries are added back in. */
  function Fold(n: nat): u16 {
    if n < 0x1_0000 then n else Fold(n - 0xffff)
  }

  /** Only zero is represented by zero; FFFFh stands for the other multiples of FFFFh. */
  lemma {:induction false} FoldIs(n: nat)
    requires n > 0
    ensures Fold(n) == (n - 1) % 0xffff + 1
  {
    if n < 0x1_0000 {
      Remainder(n - 1, 0xffff, 0, n - 1);
    } else {
      FoldIs(n - 0xffff);
      Remainder(n - 1, 0xffff, (n - 0xffff - 1) / 0xffff + 1, (n - 0xffff - 1) % 0xffff);
    }
  }

  /** 16-bit addition that adds the carry back in. */
  function CarryAdd(a: u16, t: u16): u16 {
    if a + t < 0x1_0000 then a + t else a + t - 0xffff
  }

  lemma FoldAdd(n: nat, t: u16)
    ensures CarryAdd(Fold(n), t) == Fold(n + t)
  {
    if n > 0 && t > 0 {
      FoldIs(n);
      FoldIs(n + t);
      var q, r := (n - 1) / 0xffff, (n - 1) % 0xffff;
      if r + t < 0xffff {
        Remainder(n + t - 1, 0xffff, q, r + t);
      } else {
        Remainder(n + t - 1, 0xffff, q + 1, r + t - 0xffff);
      }
    }
  }

  lemma FoldMod(n: nat)
    requires n > 0
    ensures Fold(n) % 0xffff == n % 0xffff
    ensures 1 <= Fold(n) <= 0xffff
    ensures Fold(n) == 0xffff <==> n % 0xffff == 0
  {
    FoldIs(n);
    var q, r := (n - 1) / 0xffff, (n - 1) % 0xffff;
    if r == 0xfffe {
      Remainder(n, 0xffff, q + 1, 0);
    } else {
      Remainder(n, 0xffff, q, r + 1);
    }
  }

  /** Sums may be folded at any point. */
  lemma FoldFold(a: nat, b: nat)
    ensures Fold(Fold(a) + b) == Fold(a + b)
  {
    if a > 0 {
      FoldIs(a);
      FoldIs(a + b);
      FoldIs(Fold(a) + b);
      var q, r := (a - 1) / 0xffff, (a - 1) % 0xffff;
      var q', r' := (r + b) / 0xffff, (r + b) % 0xffff;
      Remainder(a + b - 1, 0xffff, q + q', r');
    }
  }

  lemma {:induction false} WordSumConcat(a: seq<byte>, b: seq<byte>)
    requires |a| % 2 == 0
    ensures WordSum(a + b) == WordSum(a) + WordSum(b)
  {
    if a == [] {
      assert a + b == b;
    } else {
      WordSumConcat(a[2..], b);
      assert (a + b)[2..] == a[2..] + b;
    }
  }

  function Word(data: seq<byte>, i: nat): u16
    requires i + 1 < |data|
  {
    Pair(data[i], data[i + 1])
  }

  /** The two bytes of a word. */
  ghost function Halves(w: u16): (h: (byte, byte))
    ensures Pair(h.0, h.1) == w
  {
    assert Pair(w / 256, w % 256) == w;
    var hi: byte, lo: byte :| Pair(hi, lo) == w;
    (hi, lo)
  }

  /** The data with the word at `i` replaced. */
  ghost function WithWord(data: seq<byte>, i: nat, w: u16): (r: seq<byte>)
    requires i + 1 < |data|
    ensures |r| == |data|
    ensures r[..i] == data[..i] && r[i + 2..] == data[i + 2..]
  {
    data[i := Halves(w).0][i + 1 := Halves(w).1]
  }

  lemma WordWithWord(data: seq<byte>, i: nat, w: u16)
    requires i + 1 < |data|
    ensures Word(WithWord(data, i, w), i) == w
  {
  }

  lemma WordSumWithWord(data: seq<byte>, i: nat, w: u16)
    requires i + 1 < |data| && i % 2 == 0
    ensures WordSum(WithWord(data, i, w)) + Word(data, i) == WordSum(data) + w
  {
    WordSumAt(data, i);
    WordSumAt(WithWord(data, i, w), i);
  }

  lemma WordSumAt(data: seq<byte>, i: nat)
    requires i + 1 < |data| && i % 2 == 0
    ensures WordSum(data) == WordSum(data[..i]) + Word(data, i) + WordSum(data[i + 2..])
  {
    assert data == data[..i] + data[i..];
    WordSumConcat(data[..i], data[i..]);
    assert data[i..][2..] == data[i + 2..];
  }

  /** What the checksum routine leaves in a zeroed checksum field. */
  function Stored(sum: u16): u16 {
    0xffff - (if sum == 0 then 0xffff else sum)
  }

  /** The answer of the checksum routine for a sum. */
  function Checked(sum: u16): u16 {
    if sum == 0 then 0xffff else sum
  }

  /** Adding the stored checksum to a sum makes the check succeed, whatever the sum is. */
  lemma StoredIsAccepted(total: nat)
    ensures Checked(Fold(total + Stored(Fold(total)))) == 0xffff
    ensures Checked(Fold(total + 0xffff)) == 0xffff <==> total % 0xffff == 0
  {
    if total > 0 {
      FoldMod(total);
      var q, r := total / 0xffff, total % 0xffff;
      var f := Fold(total);
      Remainder(total + (0xffff - f), 0xffff, if r == 0 then q else q + 1, 0);
      FoldMod(total + (0xffff - f));
    }
    FoldMod(total + 0xffff);
    Remainder(total + 0xffff, 0xffff, total / 0xffff + 1, total % 0xffff);
  }

  /** The same with FFFFh in place of a stored zero. */
  function StoredNonZero(sum: u16): u16 {
    if Stored(sum) == 0 then 0xffff else Stored(sum)
  }

  lemma StoredNonZeroIsAccepted(total: nat)
    ensures StoredNonZero(Fold(total)) != 0
    ensures Checked(Fold(total + StoredNonZero(Fold(total)))) == 0xffff
  {
    StoredIsAccepted(total);
    if total > 0 {
      FoldMod(total);
    }
  }

  /** One addition of the checksum loop. */
  method AddWord(sum: u16, t: u16) returns (r: u16)
    ensures r == CarryAdd(sum, t)
  {
    r := (sum as int + t) % 0x1_0000;
    if r < t {
      r := r + 1;
    }
  }

  /** One step of the checksum loop, after `k` bytes. */
  lemma ChksumStep(sum: u16, data: seq<byte>, words: nat, k: nat)
    requires k == 2 * words < |data|
    ensures
      var next := if k + 1 < |data| then k + 2 else k + 1;
      CarryAdd(Fold(sum + WordSum(data[..k])), Pair(data[k], if k + 1 < |data| then data[k + 1] else 0))
        == Fold(sum + WordSum(data[..next]))
  {
    if k + 1 < |data| {
      assert data[..k] + [data[k], data[k + 1]] == data[..k + 2];
      WordSumConcat(data[..k], [data[k], data[k + 1]]);
      WordSumPair(data[k], data[k + 1]);
    } else {
      assert data[..k] + [data[k]] == data[..k + 1];
      WordSumConcat(data[..k], [data[k]]);
    }
    FoldAdd(sum + WordSum(data[..k]), Pair(data[k], if k + 1 < |data| then data[k + 1] else 0));
  }

  /** The checksum loop over `len` bytes of the buffer. */
  method Chksum(sum: u16, buf: array<byte>, from: nat, len: nat) returns (r: u16)
    requires from + len <= buf.Length
    ensures r == Fold(sum + WordSum(buf[from..from + len]))
  {
    ghost var data := buf[from..from + len];
    ghost var words := 0;
    r := sum;
    var k := 0;
    while k + 1 < len
      invariant k == 2 * words <= len
      invariant r == Fold(sum + WordSum(data[..k]))
    {
      assert data[k] == buf[from + k] && data[k + 1] == buf[from + k + 1];
      ChksumStep(sum, data, words, k);
      r := AddWord(r, Pair(buf[from + k], buf[from + k + 1]));
      k, words := k + 2, words + 1;
    }
    if k + 1 == len {
      assert data[k] == buf[from + k];
      ChksumStep(sum, data, words, k);
      r := AddWord(r, Pair(buf[from + k], 0));
    }
    assert data[..len] == data;
  }

  lemma WordSumPair(hi: byte, lo: byte)
    ensures WordSum([hi, lo]) == Pair(hi, lo)
  {
    assert [hi, lo][2..] == [];
  }

  // ---------- Sequence numbers, byte by byte ----------

  /** A big-endian 32-bit number. */
  function Value32(b: seq<byte>): u32
    requires |b| == 4
  {
    Pair(b[0], b[1]) as int * 0x1_0000 + Pair(b[2], b[3])
  }

  /** 8-bit addition, without the carry. */
  function AddByte(a: byte, b: byte): byte {
    if a as int + b < 0x100 then a as int + b else a as int + b - 0x100
  }

  /** The bytes above a byte that has overflowed, after the carry has been passed on. */
  function Carried(b: seq<byte>, k: nat): seq<byte>
    requires k < |b|
    decreases k
  {
    var c := b[k := AddByte(b[k], 1)];
    if c[k] == 0 && k > 0 then Carried(c, k - 1) else c
  }

  /** Passes a carry on to the byte at `k` and, as far as it goes, to those above it. */
  method Carry(acc32: array<byte>, k: nat)
    requires acc32.Length == 4 && 1 <= k <= 2
    modifies acc32
    ensures acc32[..] == Carried(old(acc32[..]), k)
  {
    acc32[k] := AddByte(acc32[k], 1);
    if acc32[k] == 0 {
      acc32[k - 1] := AddByte(acc32[k - 1], 1);
      if acc32[k - 1] == 0 && k == 2 {
        acc32[k - 2] := AddByte(acc32[k - 2], 1);
      }
    }
  }

  lemma CarriedValue(b: seq<byte>)
    requires |b| == 4
    ensures |Carried(b, 2)| == |Carried(b, 1)| == 4
    ensures Value32(Carried(b, 2)) == Wrap(Value32(b) + 0x100)
    ensures Value32(Carried(b, 1)) == Wrap(Value32(b) + 0x1_0000)
  {
  }

  /** Reduction modulo 2^32 of a number below 2^33. */
  function Wrap(n: nat): u32
    requires n < 0x2_0000_0000
  {
    if n < 0x1_0000_0000 then n else n - 0x1_0000_0000
  }

  /** The four bytes of a sum. */
  function Sum32(b: seq<byte>, n: u16): seq<byte>
    requires |b| == 4
  {
    var low, high := n % 256, n / 256;
    var plain := [b[0], b[1], AddByte(b[2], high), AddByte(b[3], low)];
    var carried := if plain[2] < high then Carried(plain, 1) else plain;
    if plain[3] < low then Carried(carried, 2) else carried
  }

  lemma AddByteLost(a: byte, b: byte)
    ensures AddByte(a, b) as int + (if AddByte(a, b) < b then 0x100 else 0) == a as int + b
  {
  }

  /** What the two byte additions have lost is what the carries bring back. */
  lemma PlainValue(b: seq<byte>, low: byte, high: byte)
    requires |b| == 4
    ensures
      var plain := [b[0], b[1], AddByte(b[2], high), AddByte(b[3], low)];
      Value32(plain) + (if plain[2] < high then 0x1_0000 else 0) + (if plain[3] < low then 0x100 else 0)
        == Value32(b) + Pair(high, low)
  {
    AddByteLost(b[2], high);
    AddByteLost(b[3], low);
  }

  /** Adding byte by byte is addition modulo 2^32. */
  lemma Sum32Value(b: seq<byte>, n: u16)
    requires |b| == 4
    ensures |Sum32(b, n)| == 4
    ensures Value32(Sum32(b, n)) == Add32(Value32(b), n)
  {
    var low, high := n % 256, n / 256;
    var plain := [b[0], b[1], AddByte(b[2], high), AddByte(b[3], low)];
    PlainValue(b, low, high);
    var carried := if plain[2] < high then Carried(plain, 1) else plain;
    CarriedValue(plain);
    CarriedValue(carried);
    var total: nat := Value32(b) + n;
    Remainder(total, 0x1_0000_0000, if total < 0x1_0000_0000 then 0 else 1, Wrap(total));
  }

  /** Adds a 16-bit number to a 32-bit one, with the carries passed on by hand. */
  method UipAdd32(op32: array<byte>, op16: u16, acc32: array<byte>)
    requires op32.Length == 4 && acc32.Length == 4 && op32 != acc32
    modifies acc32
    ensures acc32[..] == Sum32(op32[..], op16)
    ensures Value32(acc32[..]) == Add32(Value32(op32[..]), op16)
  {
    acc32[3] := AddByte(op32[3], op16 % 256);
    acc32[2] := AddByte(op32[2], op16 / 256);
    acc32[1] := op32[1];
    acc32[0] := op32[0];
    ghost var plain := acc32[..];
    assert plain == [op32[0], op32[1], AddByte(op32[2], op16 / 256), AddByte(op32[3], op16 % 256)];
    Sum32Value(op32[..], op16);
    if acc32[2] < op16 / 256 {
      Carry(acc32, 1);
    }
    if acc32[3] < op16 % 256 {
      Carry(acc32, 2);
    }
  }
}
