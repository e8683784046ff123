/** Streaming SHA-1. */
module DigestSha1 {
  import opened Bits
  import opened BitSequence
  import opened DigestBlocks

  function InitialState(): Words {
    [0x67452301, 0xEFCDAB89, 0x98BADCFE, 0x10325476, 0xC3D2E1F0]
  }

  /** SHA-1 of a whole message (section 6.1 of FIPS 180-4), with its compression function as a parameter. */
  function Sha1(compress: (Words, seq<byte>) -> Words, m: seq<byte>): Words {
    Fold(compress, InitialState(), BlocksOf(PadBig(m)))
  }

  /** The test whether a block gets full, in 32-bit arithmetic. */
  predicate GetsFull(j: nat, ulen: nat) {
    (j + ulen) % 0x1_0000_0000 > 63
  }

  /**
   The test is right, and otherwise the data fit behind the `j` buffered bytes, exactly if their sum stays
   below 2^32. With j = 1 and the longest length that the assertion admits it is wrong.
   */
  lemma {:induction false} GuardExact(j: nat, ulen: nat)
    requires j < 64 && ulen < 0x1_0000_0000
    ensures GetsFull(j, ulen) || j + ulen <= 63 <==> j + ulen < 0x1_0000_0000
    ensures !GetsFull(1, 0xffff_ffff) && 1 + 0xffff_ffff > 63
  {
    if j + ulen >= 0x1_0000_0000 {
      DivModUnique(j + ulen, 0x1_0000_0000, 1, j + ulen - 0x1_0000_0000);
    } else {
      DivModUnique(j + ulen, 0x1_0000_0000, 0, j + ulen);
    }
  }

  /** The bits of the counter that say how much of a block is filled: 504 is 63 times 8. */
  lemma {:induction false} CounterMask(lo: nat)
    ensures And(lo, 504) == 8 * (lo / 8 % 64)
  {
    hide Shl, Shr, Low, And;
    var x := Shr(lo, 3);
    ByEight(63);
    AndHigh(lo, 63, 3);
    assert Pow2(6) == 64;
    AndMask(x, 6);
    BySixtyFour(x);
    ByEight(lo);
    ByEight(x % 64);
  }

  class Sha1Digest {
    const compress: (Words, seq<byte>) -> Words
    var state: Words
    var lo: nat                    // count[0]
    var hi: nat                    // count[1]
    const buffer: array<byte>
    ghost var blocks: seq<seq<byte>>
    ghost var wraps: nat

    /** The blocks so far are in the state. */
    ghost predicate Absorbing()
      reads this
    {
      buffer.Length == 64 && AreBlocks(blocks) && state == Fold(compress, InitialState(), blocks)
    }

    /** How many bytes of the last block are there, by the counter. */
    function Buffered(): (t: nat)
      reads this
      ensures t < 64
    {
      lo / 8 % 64
    }

    ghost predicate Valid()
      reads this
    {
      Absorbing() && Counted(64 * |blocks| + Buffered(), wraps, hi, lo)
    }

    /** Everything that was absorbed since the last reset. */
    ghost function Message(): seq<byte>
      reads this, buffer
      requires Valid()
    {
      Concat(blocks) + buffer[..Buffered()]
    }

    constructor (compress: (Words, seq<byte>) -> Words)
      ensures Valid() && Message() == [] && this.compress == compress && fresh(buffer)
    {
      this.compress := compress;
      state, lo, hi, blocks, wraps := InitialState(), 0, 0, [], 0;
      buffer := new byte[64];
    }

    /** sha1_transform on one block. */
    method Transform(block: seq<byte>)
      requires Absorbing() && |block| == 64
      modifies this`state, this`blocks
      ensures Absorbing() && blocks == old(blocks) + [block] && Concat(blocks) == old(Concat(blocks)) + block
    {
      FoldSnoc(compress, InitialState(), blocks, block);
      ConcatSnoc(blocks, block);
      state := compress(state, block);
      blocks := blocks + [block];
    }

    /**
     The copying of sha1_digest_update: complete the buffered block, compress whole blocks in place, keep the rest.
     */
    method AbsorbBytes(data: seq<byte>, j0: nat) returns (ghost t: nat)
      requires Absorbing() && j0 < 64 && j0 + |data| < 0x1_0000_0000
      modifies this`state, this`blocks, buffer
      ensures Absorbing() && t < 64
      ensures Concat(blocks) + buffer[..t] == old(Concat(blocks) + buffer[..j0]) + data
      ensures 64 * |blocks| + t == 64 * old(|blocks|) + j0 + |data|
    {
      hide Fold, Concat;
      ghost var start := Concat(blocks) + buffer[..j0];
      var ulen, j, i := |data|, j0, 0;
      GuardExact(j0, ulen);
      if GetsFull(j, ulen) {
        i := 64 - j;
        CompleteBlock(data[..i], j);
        i := WholeBlocks(data, i, j, start);
        j := 0;
      }
      t := KeepRest(data, i, j, start);
    }

    /** The first block: what was buffered and the start of the data. */
    method CompleteBlock(piece: seq<byte>, j: nat)
      requires Absorbing() && j + |piece| == 64
      modifies this`state, this`blocks, buffer
      ensures Absorbing() && |blocks| == old(|blocks|) + 1
      ensures Concat(blocks) == old(Concat(blocks) + buffer[..j]) + piece
    {
      hide Fold, Concat;
      ghost var tail := buffer[..j];
      CopyBytes(buffer, j, piece);
      assert buffer[..] == tail + piece;
      Transform(buffer[..]);
      assert old(Concat(blocks)) + (tail + piece) == old(Concat(blocks)) + tail + piece;
    }

    /**
     The loop over the whole blocks in the data. Its test adds in 32 bits; at block boundaries the sum never wraps.
     */
    method WholeBlocks(data: seq<byte>, first: nat, ghost j: nat, ghost start: seq<byte>) returns (i: nat)
      requires first == 64 - j <= |data| && j < 64 && j + |data| < 0x1_0000_0000
      requires Absorbing() && Concat(blocks) == start + data[..first]
      modifies this`state, this`blocks
      ensures Absorbing() && i <= |data| < i + 64 && Concat(blocks) == start + data[..i]
      ensures 64 * |blocks| - i == 64 * old(|blocks|) - first
    {
      hide Fold, Concat;
      i := first;
      ghost var boundary := 1;
      while (i + 63) % 0x1_0000_0000 < |data|
        invariant i <= |data| && Absorbing() && Concat(blocks) == start + data[..i]
        invariant 64 * |blocks| - i == 64 * old(|blocks|) - first && i + j == 64 * boundary
        decreases |data| - i
      {
        var next := i + 64;
        assert start + data[..i] + data[i..next] == start + data[..next];
        Transform(data[i..next]);
        i, boundary := next, boundary + 1;
      }
    }

    /** The last copy: what does not fill a block. */
    method KeepRest(data: seq<byte>, i: nat, j: nat, ghost start: seq<byte>) returns (ghost t: nat)
      requires Absorbing() && i <= |data| && j + |data| - i < 64 && Concat(blocks) + buffer[..j] == start + data[..i]
      modifies buffer
      ensures t == j + |data| - i && Concat(blocks) + buffer[..t] == start + data
    {
      hide Fold, Concat;
      ghost var kept := buffer[..j];
      CopyBytes(buffer, j, data[i..]);
      t := j + |data| - i;
      assert buffer[..t] == kept + data[i..] && data == data[..i] + data[i..];
      assert Concat(blocks) + (kept + data[i..]) == start + data[..i] + data[i..];
    }

    /** sha1_digest_update appends to the message, if the buffered bytes and the data are together below 2^32. */
    method Update(data: seq<byte>)
      requires Valid() && Buffered() + |data| < 0x1_0000_0000
      modifies this, buffer
      ensures Valid() && Message() == old(Message()) + data
      ensures Buffered() == (old(Buffered()) + |data|) % 64
    {
      hide Fold, Concat;
      ghost var n := 64 * |blocks| + Buffered();
      var ulen := |data|;
      var j := Buffered();
      wraps := CountStep(n, wraps, hi, lo, ulen);
      hi, lo := CountHigh(hi, lo, ulen), CountLow(lo, ulen);
      ghost var nb := |blocks|;
      ghost var t := AbsorbBytes(data, j);
      ConcatLength(blocks);
      CounterMeaning(Concat(blocks) + buffer[..t], |blocks|, t, wraps, hi, lo);
      DivModUnique(j + ulen, 64, |blocks| - nb, t);
    }

    /** One byte of padding. */
    method UpdateByte(c: byte)
      requires Valid()
      modifies this, buffer
      ensures Valid() && Message() == old(Message()) + [c]
      ensures Buffered() == if old(Buffered()) == 63 then 0 else old(Buffered()) + 1
    {
      Update([c]);
    }

    /** The padding loop: zeros, one update each, until the counter says that 56 bytes are there. */
    method PadZeros(ghost total: nat)
      requires Valid() && total == ZerosLeft(Buffered())
      modifies this, buffer
      ensures Valid() && Buffered() == 56 && Message() == old(Message()) + Zeros(total)
    {
      ghost var start, k: nat := Message(), 0;
      hide Fold, Concat, Sha1Digest.Valid, And;
      assert start + Zeros(0) == start;
      CounterMask(lo);
      while And(lo, 504) != 448
        invariant Valid() && Message() == start + Zeros(k) && And(lo, 504) == 8 * Buffered()
        invariant k + ZerosLeft(Buffered()) == total
        decreases ZerosLeft(Buffered())
      {
        ghost var next := k + 1;
        UpdateByte(0x00);
        CounterMask(lo);
        assert start + Zeros(k) + [0] == start + Zeros(next);
        k := next;
      }
      assert k == total;
    }

    /** The first part of sha1_digest_final: a one bit and zeros, by one-byte updates. */
    method PadToLength()
      requires Valid()
      modifies this, buffer
      ensures Valid() && Buffered() == 56
      ensures Message() == old(Message()) + [0x80] + Zeros(ZeroCount(|old(Message())|))
    {
      hide Fold, Concat, BlocksOf, BigEndian, ZeroCount, Sha1Digest.Valid, Counted;
      ghost var zeros := ZeroCount(|Message()|);
      LengthAndZeros();
      UpdateByte(0x80);
      PadZeros(zeros);
    }

    /** sha1_digest_final: the digest of the whole message. */
    method Final() returns (out: seq<byte>)
      requires Valid()
      modifies this, buffer
      ensures out == WordsBig(Sha1(compress, old(Message())))
    {
      hide Fold, Concat, BlocksOf, BigEndian, ZeroCount, Sha1Digest.Valid, Counted, Zeros;
      ghost var m := Message();
      LengthAndZeros();
      var finalcount := BigEndian(hi, 4) + BigEndian(lo, 4);
      PadToLength();
      Update(finalcount);
      assert Buffered() == 0;
      AllAbsorbed(m, finalcount);
      out := WordsBig(state);
    }

    /** The counter is the length field, and the padding loop writes as many zeros as the padding has. */
    lemma {:induction false} LengthAndZeros()
      requires Valid()
      ensures BigEndian(hi, 4) + BigEndian(lo, 4) == BigEndian(BitLength(Message()), 8)
      ensures ZerosLeft(if Buffered() == 63 then 0 else Buffered() + 1) == ZeroCount(|Message()|)
    {
      hide BigEndian;
      var m, t := Message(), Buffered();
      ConcatLength(blocks);
      CounterMeaning(m, |blocks|, t, wraps, hi, lo);
      ZerosOfTail(|blocks|, t, |m|);
      BigHalves(hi, lo);
    }

    /** With nothing left in the buffer, the state is the fold over the blocks of the message. */
    lemma {:induction false} AllAbsorbed(m: seq<byte>, length: seq<byte>)
      requires Valid() && Buffered() == 0 && Message() == Pad(m, length)
      ensures state == Fold(compress, InitialState(), BlocksOf(Pad(m, length)))
    {
      assert buffer[..0] == [] && Concat(blocks) + [] == Concat(blocks);
      BlocksOfConcat(blocks);
    }
  }

  /** How many zeros are still to be written when a block holds `t` bytes. */
  function ZerosLeft(t: nat): nat
    requires t < 64
  {
    if t <= 56 then 56 - t else 120 - t
  }
}
