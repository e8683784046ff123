/**
 Writing bits, as an encoder does: numbers and codes as lists of bits, packed into bytes. What a reader finds at a
 position is then what was written there.
 */
module BitWriter {
  import opened Bits
  import opened BitSequence
  import opened DeflateCodes

  /** A number of `n` bits, the lowest first. */
  function ValueBits(v: nat, n: nat): (b: seq<bool>)
    ensures |b| == n
  {
    seq(n, i requires 0 <= i => Bit(v, i))
  }

  /** A number of `n` bits, the highest first. */
  function CodeBits(c: nat, n: nat): (b: seq<bool>)
    ensures |b| == n
  {
    seq(n, i requires 0 <= i < n => Bit(c, n - 1 - i))
  }

  // ----- reading what was written: the lowest bit of a byte first

  /** The `n` bits from `pos` on. */
  function LsbBits(data: seq<byte>, pos: nat, n: nat): (b: seq<bool>)
    ensures |b| == n
  {
    seq(n, i requires 0 <= i => LsbBit(data, pos + i) == 1)
  }

  predicate LsbAt(data: seq<byte>, pos: nat, b: seq<bool>) {
    LsbBits(data, pos, |b|) == b
  }

  lemma {:induction false} LsbAtSplit(data: seq<byte>, pos: nat, a: seq<bool>, b: seq<bool>, mid: nat)
    requires LsbAt(data, pos, a + b) && mid == pos + |a|
    ensures LsbAt(data, pos, a) && LsbAt(data, mid, b)
  {
    var all := LsbBits(data, pos, |a + b|);
    assert LsbBits(data, pos, |a|) == all[..|a|] == a;
    assert LsbBits(data, mid, |b|) == all[|a|..] == b;
  }

  lemma {:induction false} ReadsValue(data: seq<byte>, pos: nat, v: nat, n: nat)
    requires LsbAt(data, pos, ValueBits(v, n)) && v < Pow2(n)
    ensures Lsb(data, pos, n) == v
    decreases n
  {
    if n > 0 {
      assert LsbBits(data, pos, n)[0] <==> ValueBits(v, n)[0];
      assert LsbBits(data, pos + 1, n - 1) == LsbBits(data, pos, n)[1..];
      assert ValueBits(v / 2, n - 1) == ValueBits(v, n)[1..];
      ReadsValue(data, pos + 1, v / 2, n - 1);
    }
  }

  /** A number, and more behind it. */
  lemma {:induction false} ReadsNext(data: seq<byte>, pos: nat, v: nat, n: nat, rest: seq<bool>, mid: nat)
    requires LsbAt(data, pos, ValueBits(v, n) + rest) && v < Pow2(n) && mid == pos + n
    ensures Lsb(data, pos, n) == v && LsbAt(data, mid, rest)
  {
    LsbAtSplit(data, pos, ValueBits(v, n), rest, mid);
    ReadsValue(data, pos, v, n);
  }

  lemma {:induction false} HalfCode(c: nat, n: nat)
    requires n > 0
    ensures CodeBits(c / 2, n - 1) == CodeBits(c, n)[..n - 1] && (CodeBits(c, n)[n - 1] <==> c % 2 == 1)
  {
    assert CodeBits(c, n)[n - 1] == Bit(c, n - 1 - (n - 1));
    forall i | 0 <= i < n - 1 ensures CodeBits(c / 2, n - 1)[i] <==> CodeBits(c, n)[i] {
      assert Bit(c, n - 1 - i) == Bit(c / 2, n - 1 - i - 1);
    }
  }

  lemma {:induction false} ReadsCode(data: seq<byte>, pos: nat, c: nat, n: nat)
    requires LsbAt(data, pos, CodeBits(c, n)) && c < Pow2(n)
    ensures FirstBits(data, pos, n) == c
    decreases n
  {
    if n > 0 {
      assert LsbBits(data, pos, n)[n - 1] <==> CodeBits(c, n)[n - 1];
      assert LsbBits(data, pos, n - 1) == LsbBits(data, pos, n)[..n - 1];
      HalfCode(c, n);
      ReadsCode(data, pos, c / 2, n - 1);
    }
  }

  /** What is read is what is there. */
  lemma {:induction false} ValueIsThere(data: seq<byte>, pos: nat, n: nat)
    ensures LsbAt(data, pos, ValueBits(Lsb(data, pos, n), n))
    decreases n
  {
    if n > 0 {
      var v := Lsb(data, pos, n);
      ValueIsThere(data, pos + 1, n - 1);
      assert v % 2 == LsbBit(data, pos) && v / 2 == Lsb(data, pos + 1, n - 1);
      assert ValueBits(v, n) == [v % 2 == 1] + ValueBits(v / 2, n - 1);
      assert LsbBits(data, pos, n) == [LsbBit(data, pos) == 1] + LsbBits(data, pos + 1, n - 1);
    }
  }

  lemma {:induction false} CodeIsThere(data: seq<byte>, pos: nat, n: nat)
    ensures LsbAt(data, pos, CodeBits(FirstBits(data, pos, n), n))
    decreases n
  {
    if n > 0 {
      var c := FirstBits(data, pos, n);
      CodeIsThere(data, pos, n - 1);
      assert c % 2 == LsbBit(data, pos + n - 1) && c / 2 == FirstBits(data, pos, n - 1);
      HalfCode(c, n);
      assert CodeBits(c, n) == CodeBits(c / 2, n - 1) + [c % 2 == 1];
      assert LsbBits(data, pos, n) == LsbBits(data, pos, n - 1) + [LsbBit(data, pos + n - 1) == 1];
    }
  }

  lemma {:induction false} LsbAtJoin(data: seq<byte>, pos: nat, a: seq<bool>, b: seq<bool>, mid: nat)
    requires LsbAt(data, pos, a) && LsbAt(data, mid, b) && mid == pos + |a|
    ensures LsbAt(data, pos, a + b)
  {
    assert LsbBits(data, pos, |a + b|) == LsbBits(data, pos, |a|) + LsbBits(data, mid, |b|);
  }

  // ----- the highest bit of a byte first

  /** The `n` bits from `pos` on. */
  function MsbBits(data: seq<byte>, pos: nat, n: nat): (b: seq<bool>)
    ensures |b| == n
  {
    seq(n, i requires 0 <= i => MsbBit(data, pos + i) == 1)
  }

  predicate MsbAt(data: seq<byte>, pos: nat, b: seq<bool>) {
    MsbBits(data, pos, |b|) == b
  }

  lemma {:induction false} MsbAtSplit(data: seq<byte>, pos: nat, a: seq<bool>, b: seq<bool>, mid: nat)
    requires MsbAt(data, pos, a + b) && mid == pos + |a|
    ensures MsbAt(data, pos, a) && MsbAt(data, mid, b)
  {
    var all := MsbBits(data, pos, |a + b|);
    assert MsbBits(data, pos, |a|) == all[..|a|] == a;
    assert MsbBits(data, mid, |b|) == all[|a|..] == b;
  }

  lemma {:induction false} ReadsMsb(data: seq<byte>, pos: nat, c: nat, n: nat)
    requires MsbAt(data, pos, CodeBits(c, n)) && c < Pow2(n)
    ensures Msb(data, pos, n) == c
    decreases n
  {
    if n > 0 {
      assert MsbBits(data, pos, n)[n - 1] <==> CodeBits(c, n)[n - 1];
      assert MsbBits(data, pos, n - 1) == MsbBits(data, pos, n)[..n - 1];
      HalfCode(c, n);
      ReadsMsb(data, pos, c / 2, n - 1);
    }
  }

  lemma {:induction false} MsbIsThere(data: seq<byte>, pos: nat, n: nat)
    ensures MsbAt(data, pos, CodeBits(Msb(data, pos, n), n))
    decreases n
  {
    if n > 0 {
      var c := Msb(data, pos, n);
      MsbIsThere(data, pos, n - 1);
      assert c % 2 == MsbBit(data, pos + n - 1) && c / 2 == Msb(data, pos, n - 1);
      HalfCode(c, n);
      assert CodeBits(c, n) == CodeBits(c / 2, n - 1) + [c % 2 == 1];
      assert MsbBits(data, pos, n) == MsbBits(data, pos, n - 1) + [MsbBit(data, pos + n - 1) == 1];
    }
  }

  lemma {:induction false} MsbAtJoin(data: seq<byte>, pos: nat, a: seq<bool>, b: seq<bool>, mid: nat)
    requires MsbAt(data, pos, a) && MsbAt(data, mid, b) && mid == pos + |a|
    ensures MsbAt(data, pos, a + b)
  {
    assert MsbBits(data, pos, |a + b|) == MsbBits(data, pos, |a|) + MsbBits(data, mid, |b|);
  }

  // ----- packing

  /** Bit `k` of a list, zeros behind its end. */
  function BitOf(b: seq<bool>, k: nat): (d: nat)
    ensures d < 2
  {
    if k < |b| && b[k] then 1 else 0
  }

  /** Eight bits, the lowest first. */
  function ByteOf(b0: nat, b1: nat, b2: nat, b3: nat, b4: nat, b5: nat, b6: nat, b7: nat): byte
    requires b0 < 2 && b1 < 2 && b2 < 2 && b3 < 2 && b4 < 2 && b5 < 2 && b6 < 2 && b7 < 2
  {
    b0 + 2 * b1 + 4 * b2 + 8 * b3 + 16 * b4 + 32 * b5 + 64 * b6 + 128 * b7
  }

  /** The eight bits from `k` on, the first one lowest. */
  function LowByte(b: seq<bool>, k: nat): byte {
    ByteOf(BitOf(b, k), BitOf(b, k + 1), BitOf(b, k + 2), BitOf(b, k + 3),
           BitOf(b, k + 4), BitOf(b, k + 5), BitOf(b, k + 6), BitOf(b, k + 7))
  }

  /** The eight bits from `k` on, the first one highest. */
  function HighByte(b: seq<bool>, k: nat): byte {
    ByteOf(BitOf(b, k + 7), BitOf(b, k + 6), BitOf(b, k + 5), BitOf(b, k + 4),
           BitOf(b, k + 3), BitOf(b, k + 2), BitOf(b, k + 1), BitOf(b, k))
  }

  /** As many bytes as the bits need. */
  function PackLow(b: seq<bool>): (data: seq<byte>)
    ensures |data| == (|b| + 7) / 8
  {
    seq((|b| + 7) / 8, i requires 0 <= i => LowByte(b, 8 * i))
  }

  function PackHigh(b: seq<bool>): (data: seq<byte>)
    ensures |data| == (|b| + 7) / 8
  {
    seq((|b| + 7) / 8, i requires 0 <= i => HighByte(b, 8 * i))
  }

  /** The bits of a byte are the bits that it was made of. */
  lemma {:induction false} BitsOfByte(b0: nat, b1: nat, b2: nat, b3: nat, b4: nat, b5: nat, b6: nat, b7: nat, j: nat)
    requires b0 < 2 && b1 < 2 && b2 < 2 && b3 < 2 && b4 < 2 && b5 < 2 && b6 < 2 && b7 < 2 && j < 8
    ensures Bit(ByteOf(b0, b1, b2, b3, b4, b5, b6, b7), j) <==>
      (match j case 0 => b0 case 1 => b1 case 2 => b2 case 3 => b3 case 4 => b4 case 5 => b5 case 6 => b6 case _ => b7)
      == 1
    decreases j
  {
    var half := ByteOf(b1, b2, b3, b4, b5, b6, b7, 0);
    assert ByteOf(b0, b1, b2, b3, b4, b5, b6, b7) == 2 * half + b0;
    hide Bit, ByteOf;
    NextBit(half, b0, j);
    if j > 0 {
      BitsOfByte(b1, b2, b3, b4, b5, b6, b7, 0, j - 1);
    }
  }

  lemma {:induction false} NextBit(half: nat, low: nat, j: nat)
    requires low < 2
    ensures Bit(2 * half + low, j) <==> if j == 0 then low == 1 else Bit(half, j - 1)
  {
    assert (2 * half + low) / 2 == half;
  }

  lemma {:induction false} BitOfLow(b: seq<bool>, k: nat, j: nat)
    requires j < 8
    ensures Bit(LowByte(b, k), j) <==> BitOf(b, k + j) == 1
  {
    hide BitOf, ByteOf, Bit;
    BitsOfByte(BitOf(b, k), BitOf(b, k + 1), BitOf(b, k + 2), BitOf(b, k + 3),
               BitOf(b, k + 4), BitOf(b, k + 5), BitOf(b, k + 6), BitOf(b, k + 7), j);
  }

  lemma {:induction false} BitOfHigh(b: seq<bool>, k: nat, j: nat)
    requires j < 8
    ensures Bit(HighByte(b, k), 7 - j) <==> BitOf(b, k + j) == 1
  {
    hide BitOf, ByteOf, Bit;
    BitsOfByte(BitOf(b, k + 7), BitOf(b, k + 6), BitOf(b, k + 5), BitOf(b, k + 4),
               BitOf(b, k + 3), BitOf(b, k + 2), BitOf(b, k + 1), BitOf(b, k), 7 - j);
  }

  lemma {:induction false} PackedBit(b: seq<bool>, i: nat)
    requires i < |b|
    ensures Bit(PackLow(b)[i / 8], i % 8) <==> b[i]
    ensures Bit(PackHigh(b)[i / 8], 7 - i % 8) <==> b[i]
  {
    hide LowByte, HighByte, Bit;
    var m, j := i / 8, i % 8;
    BitOfLow(b, 8 * m, j);
    BitOfHigh(b, 8 * m, j);
  }

  /** Packed bits are where they were written, also with more bytes around them. */
  lemma {:induction false} PackedLow(b: seq<bool>, before: seq<byte>, after: seq<byte>, start: nat)
    requires start == 8 * |before|
    ensures LsbAt(before + PackLow(b) + after, start, b)
  {
    hide PackLow, Bit;
    var data := before + PackLow(b) + after;
    forall i | 0 <= i < |b| ensures LsbBit(data, start + i) == 1 <==> b[i] {
      PackedBit(b, i);
      assert (start + i) / 8 == |before| + i / 8 && (start + i) % 8 == i % 8;
    }
  }

  lemma {:induction false} PackedHigh(b: seq<bool>, after: seq<byte>)
    ensures MsbAt(PackHigh(b) + after, 0, b)
  {
    hide PackHigh, Bit;
    var data := PackHigh(b) + after;
    forall i | 0 <= i < |b| ensures MsbBit(data, i) == 1 <==> b[i] {
      PackedBit(b, i);
    }
  }
}
