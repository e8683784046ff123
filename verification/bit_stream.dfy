/** The bit reader of libchdr: a 32-bit accumulator, most significant bit first. */
module BitStream {
  import opened Bits
  import opened BitSequence

  class BitStream {
    var buffer: nat         // uint32_t: unread bits, left aligned
    var bits: nat           // how many of them are valid
    const read: seq<byte>
    var doffset: nat        // bytes taken so far, counting past the end

    /** How many bits have been consumed. */
    ghost function Position(): int
      reads this
    {
      8 * doffset - bits
    }

    /** The accumulator is the next `bits` bits of the sequence, then zeros. */
    ghost predicate Valid()
      reads this
    {
      && bits <= 32 && 0 <= Position()
      && buffer == Shl(Msb(read, Position(), bits), 32 - bits)
    }

    constructor (source: seq<byte>)
      ensures Valid() && Position() == 0 && read == source
    {
      ShlZero(32);
      buffer, bits, doffset, read := 0, 0, 0, source;
    }

    /** The loop of bitstream_peek: append bytes until more than 24 bits are valid. */
    method Fill()
      requires Valid()
      modifies this
      ensures Valid() && Position() == old(Position()) && bits >= 25
    {
      ghost var pos: nat := Position();
      while bits <= 24
        invariant Valid() && Position() == pos
        decreases 32 - bits
      {
        AppendByte(read, pos, bits, doffset, buffer);
        if doffset < |read| {
          buffer := Or(buffer, Shl(read[doffset], 24 - bits));
        }
        doffset := doffset + 1;
        bits := bits + 8;
      }
    }

    /** Peek returns the next bits of the sequence, zero-extended, and consumes none. */
    method Peek(numbits: nat) returns (value: nat)
      requires Valid() && numbits <= 25
      modifies this
      ensures Valid() && Position() == old(Position()) && bits >= numbits
      ensures value == Msb(read, Position(), numbits)
    {
      if numbits == 0 {
        return 0;
      }
      if numbits > bits {
        Fill();
      }
      TopBits(read, Position(), bits, numbits);
      value := Shr(buffer, 32 - numbits);
    }

    method Remove(numbits: nat)
      requires Valid() && numbits <= bits
      modifies this
      ensures Valid() && Position() == old(Position()) + numbits
      ensures bits == old(bits) - numbits
    {
      ShiftOut(read, Position(), bits, numbits);
      buffer := Low(Shl(buffer, numbits), 32);
      bits := bits - numbits;
    }

    method Read(numbits: nat) returns (value: nat)
      requires Valid() && numbits <= 25
      modifies this
      ensures Valid() && Position() == old(Position()) + numbits
      ensures value == Msb(read, old(Position()), numbits)
    {
      value := Peek(numbits);
      Remove(numbits);
    }

    /** The read offset is the number of consumed bits, rounded up to bytes. */
    method ReadOffset() returns (result: nat)
      requires Valid()
      ensures result == (Position() + 7) / 8
    {
      result := doffset;
      var left := bits;
      while left >= 8
        invariant left <= 32 && 8 * result - left == Position()
      {
        result := result - 1;
        left := left - 8;
      }
    }

    /** Flush skips to the next byte boundary and drops the accumulator. */
    method Flush() returns (offset: nat)
      requires Valid()
      modifies this
      ensures Valid() && bits == 0
      ensures offset == (old(Position()) + 7) / 8 && Position() == 8 * offset
    {
      ghost var pos := Position();
      while bits >= 8
        invariant bits <= 32 && Position() == pos
      {
        doffset := doffset - 1;
        bits := bits - 8;
      }
      ShlZero(32);
      bits, buffer := 0, 0;
      return doffset;
    }

    /** Overflow reports exactly that more bits were consumed than the data holds. */
    method Overflow() returns (overflow: bool)
      requires Valid()
      ensures overflow <==> Position() > 8 * |read|
    {
      overflow := doffset - bits / 8 > |read|;
    }
  }

  lemma {:induction false} AppendWord(m: nat, b: nat, s: nat)
    requires b < Pow2(8)
    ensures Shl(Shl(m, 8) + b, s) == Shl(m, 8 + s) + Shl(b, s) && Shl(b, s) < Pow2(8 + s)
  {
    ShlSum(Shl(m, 8), b, s);
    ShlShl(m, 8, s);
    ShlMono(b, Pow2(8), s);
    Pow2Split(8, s);
  }

  lemma {:induction false} AppendByte(data: seq<byte>, pos: nat, bits: nat, k: nat, buffer: nat)
    requires bits <= 24 && 8 * k == pos + bits
    requires buffer == Shl(Msb(data, pos, bits), 32 - bits)
    ensures buffer + Shl(ByteAt(data, k), 24 - bits) == Shl(Msb(data, pos, bits + 8), 32 - (bits + 8))
    ensures Or(buffer, Shl(ByteAt(data, k), 24 - bits)) == buffer + Shl(ByteAt(data, k), 24 - bits)
    ensures k >= |data| ==> Shl(ByteAt(data, k), 24 - bits) == 0
  {
    hide Msb, Shl, Or;
    var b, m, s := ByteAt(data, k), Msb(data, pos, bits), 24 - bits;
    assert Msb(data, pos, bits + 8) == Shl(m, 8) + b by {
      MsbSplit(data, pos, bits, 8);
      MsbByte(data, k);
    }
    assert Pow2(8) == 256;
    AppendWord(m, b, s);
    OrDisjoint(Shl(b, s), m, 8 + s);
    ShlZero(s);
  }

  lemma {:induction false} TopBits(data: seq<byte>, pos: nat, bits: nat, n: nat)
    requires n <= bits <= 32
    ensures Shr(Shl(Msb(data, pos, bits), 32 - bits), 32 - n) == Msb(data, pos, n)
  {
    var m := Msb(data, pos, bits);
    MsbPrefix(data, pos, n, bits - n);
    ShrShr(Shl(m, 32 - bits), 32 - bits, bits - n);
    ShrOfShl(m, 32 - bits);
  }

  /** Shifting a left-aligned word drops its top bits. */
  lemma {:induction false} DropTop(hi: nat, lo: nat, a: nat, s: nat)
    requires lo < Pow2(a)
    ensures Low(Shl(Shl(hi, a) + lo, s), a + s) == Shl(lo, s)
  {
    ShlSum(Shl(hi, a), lo, s);
    ShlShl(hi, a, s);
    ShlMono(lo, Pow2(a), s);
    Pow2Split(a, s);
    Join(hi, Shl(lo, s), a + s);
  }

  lemma {:induction false} ShiftOut(data: seq<byte>, pos: nat, bits: nat, n: nat)
    requires n <= bits <= 32
    ensures Low(Shl(Shl(Msb(data, pos, bits), 32 - bits), n), 32)
         == Shl(Msb(data, pos + n, bits - n), 32 - (bits - n))
  {
    hide Msb, Shl, Low, Pow2;
    assert n + (bits - n) == bits;
    MsbSplit(data, pos, n, bits - n);
    ShlShl(Msb(data, pos, bits), 32 - bits, n);
    MsbBound(data, pos + n, bits - n);
    DropTop(Msb(data, pos, n), Msb(data, pos + n, bits - n), bits - n, 32 - (bits - n));
  }
}
