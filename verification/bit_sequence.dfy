/**
 Byte strings read as infinite bit sequences: the bits of the bytes in order, then
 zeros for ever. libchdr and JPEG take the most significant bit of a byte first,
 Deflate and GIF the least significant one.
 */
module BitSequence {
  import opened Bits

  type byte = x: nat | x < 256

  /** Byte `i`, or zero past the end. */
  function ByteAt(data: seq<byte>, i: nat): byte {
    if i < |data| then data[i] else 0
  }

  function Zeros(n: nat): (s: seq<byte>)
    ensures |s| == n && forall i :: 0 <= i < n ==> s[i] == 0
  {
    seq(n, _ => 0)
  }

  /** `n` bytes from `i` on, zeros past the end. */
  function BytesFrom(raw: seq<byte>, i: nat, n: nat): (s: seq<byte>)
    ensures |s| == n
    decreases n
  {
    if n == 0 then [] else [ByteAt(raw, i)] + BytesFrom(raw, i + 1, n - 1)
  }

  // ----- most significant bit first

  function MsbBit(data: seq<byte>, i: nat): nat {
    if Bit(ByteAt(data, i / 8), 7 - i % 8) then 1 else 0
  }

  /** The `n` bits from position `pos` as a number, first bit most significant. */
  function Msb(data: seq<byte>, pos: nat, n: nat): nat
  {
    if n == 0 then 0 else 2 * Msb(data, pos, n - 1) + MsbBit(data, pos + n - 1)
  }

  lemma {:induction false} MsbBound(data: seq<byte>, pos: nat, n: nat)
    ensures Msb(data, pos, n) < Pow2(n)
  {
    if n > 0 {
      MsbBound(data, pos, n - 1);
    }
  }

  lemma {:induction false} MsbSplit(data: seq<byte>, pos: nat, a: nat, b: nat)
    ensures Msb(data, pos, a + b) == Shl(Msb(data, pos, a), b) + Msb(data, pos + a, b)
  {
    if b > 0 {
      MsbSplit(data, pos, a, b - 1);
      assert a + b - 1 == a + (b - 1) && pos + (a + b) - 1 == pos + a + b - 1;
    }
  }

  /** Dropping the last `b` of `a + b` bits leaves the first `a`. */
  lemma {:induction false} MsbPrefix(data: seq<byte>, pos: nat, a: nat, b: nat)
    ensures Shr(Msb(data, pos, a + b), b) == Msb(data, pos, a)
    ensures Low(Msb(data, pos, a + b), b) == Msb(data, pos + a, b)
  {
    MsbSplit(data, pos, a, b);
    MsbBound(data, pos + a, b);
    Join(Msb(data, pos, a), Msb(data, pos + a, b), b);
  }

  lemma {:induction false} MsbByteBits(data: seq<byte>, k: nat, n: nat)
    requires n <= 8
    ensures Msb(data, 8 * k, n) == Shr(ByteAt(data, k), 8 - n)
    decreases n
  {
    var x := ByteAt(data, k);
    if n == 0 {
      LowSmall(x, 8);
    } else {
      MsbByteBits(data, k, n - 1);
      assert (8 * k + n - 1) / 8 == k && (8 * k + n - 1) % 8 == n - 1;
      BitOfShr(x, 8 - n);
      assert 8 - (n - 1) == (8 - n) + 1;
      assert Shr(x, (8 - n) + 1) == Shr(x, 8 - n) / 2;
    }
  }

  lemma {:induction false} MsbByte(data: seq<byte>, k: nat)
    ensures Msb(data, 8 * k, 8) == ByteAt(data, k)
  {
    MsbByteBits(data, k, 8);
  }

  // ----- least significant bit first

  function LsbBit(data: seq<byte>, i: nat): nat {
    if Bit(ByteAt(data, i / 8), i % 8) then 1 else 0
  }

  /** The `n` bits from position `pos` as a number, first bit least significant. */
  function Lsb(data: seq<byte>, pos: nat, n: nat): nat
    decreases n, pos
  {
    if n == 0 then 0 else LsbBit(data, pos) + 2 * Lsb(data, pos + 1, n - 1)
  }

  lemma {:induction false} LsbBound(data: seq<byte>, pos: nat, n: nat)
    ensures Lsb(data, pos, n) < Pow2(n)
    decreases n
  {
    if n > 0 {
      LsbBound(data, pos + 1, n - 1);
    }
  }

  lemma {:induction false} LsbSplit(data: seq<byte>, pos: nat, a: nat, b: nat)
    ensures Lsb(data, pos, a + b) == Lsb(data, pos, a) + Shl(Lsb(data, pos + a, b), a)
    decreases a
  {
    if a > 0 {
      LsbSplit(data, pos + 1, a - 1, b);
      assert a + b - 1 == (a - 1) + b && pos + 1 + (a - 1) == pos + a;
    }
  }

  lemma {:induction false} LsbPrefix(data: seq<byte>, pos: nat, a: nat, b: nat)
    ensures Low(Lsb(data, pos, a + b), a) == Lsb(data, pos, a)
    ensures Shr(Lsb(data, pos, a + b), a) == Lsb(data, pos + a, b)
  {
    LsbSplit(data, pos, a, b);
    LsbBound(data, pos, a);
    Join(Lsb(data, pos + a, b), Lsb(data, pos, a), a);
  }

  lemma {:induction false} LsbByteBits(data: seq<byte>, k: nat, n: nat)
    requires n <= 8
    ensures Lsb(data, 8 * k + (8 - n), n) == Shr(ByteAt(data, k), 8 - n)
    decreases n
  {
    var x := ByteAt(data, k);
    if n == 0 {
      LowSmall(x, 8);
    } else {
      LsbByteBits(data, k, n - 1);
      var i := 8 * k + (8 - n);
      assert i / 8 == k && i % 8 == 8 - n;
      assert i + 1 == 8 * k + (8 - (n - 1));
      BitOfShr(x, 8 - n);
      assert 8 - (n - 1) == (8 - n) + 1;
      assert Shr(x, (8 - n) + 1) == Shr(x, 8 - n) / 2;
    }
  }

  lemma {:induction false} LsbByte(data: seq<byte>, k: nat)
    ensures Lsb(data, 8 * k, 8) == ByteAt(data, k)
  {
    LsbByteBits(data, k, 8);
    assert 8 * k + (8 - 8) == 8 * k;
  }

  lemma {:induction false} LsbPastEnd(data: seq<byte>, pos: nat, n: nat)
    requires pos >= 8 * |data|
    ensures Lsb(data, pos, n) == 0
    decreases n
  {
    if n > 0 {
      LsbPastEnd(data, pos + 1, n - 1);
      BitOfZero(pos % 8);
    }
  }

  /** Or-ing the next byte above the buffered bits extends the window by eight bits. */
  lemma {:induction false} AppendLow(data: seq<byte>, pos: nat, n: nat, k: nat, more: nat)
    requires more == n + 8 && k <= |data| && if k < |data| then pos + n == 8 * k else pos + n >= 8 * |data|
    ensures Or(Lsb(data, pos, n), Shl(ByteAt(data, k), n)) == Lsb(data, pos, more)
  {
    LsbSplit(data, pos, n, 8);
    LsbBound(data, pos, n);
    OrDisjoint(Lsb(data, pos, n), ByteAt(data, k), n);
    if k < |data| {
      LsbByte(data, k);
    } else {
      LsbPastEnd(data, pos + n, 8);
    }
  }
}
