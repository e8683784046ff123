/** Streaming MD5. */
module DigestMd5 {
  import opened Bits
  import opened BitSequence
  import opened DigestBlocks

  function InitialState(): Words {
    [0x67452301, 0xefcdab89, 0x98badcfe, 0x10325476]
  }

  /** MD5 of a whole message (section 3 of RFC 1321), with its block function as a parameter. */
  function Md5(compress: (Words, seq<byte>) -> Words, m: seq<byte>): Words {
    Fold(compress, InitialState(), BlocksOf(PadLittle(m)))
  }

  /** What a call takes in is all of the data exactly below 2^32 bytes. */
  lemma {:induction false} TakenIsAll(data: seq<byte>)
    ensures data[..|data| % 0x1_0000_0000] == data <==> |data| < 0x1_0000_0000
  {
    assert |data[..|data| % 0x1_0000_0000]| < 0x1_0000_0000;
    if |data| < 0x1_0000_0000 {
      DivModUnique(|data|, 0x1_0000_0000, 0, |data|);
      assert data[..|data|] == data;
    }
  }

  class Md5Digest {
    const compress: (Words, seq<byte>) -> Words
    var buf: Words
    var lo: nat                    // bits[0]
    var hi: nat                    // bits[1]
    const input: array<byte>
    ghost var blocks: seq<seq<byte>>
    ghost var wraps: nat

    /** The blocks so far are in the state. */
    ghost predicate Absorbing()
      reads this
    {
      input.Length == 64 && AreBlocks(blocks) && buf == Fold(compress, InitialState(), blocks)
    }

    /** How many bytes of the last block are there, by the counter. */
    function Buffered(): (t: nat)
      reads this
      ensures t < 64
    {
      lo / 8 % 64
    }

    ghost predicate Valid()
      reads this
    {
      Absorbing() && Counted(64 * |blocks| + Buffered(), wraps, hi, lo)
    }

    /** Everything that was absorbed since the last reset. */
    ghost function Message(): seq<byte>
      reads this, input
      requires Valid()
    {
      Concat(blocks) + input[..Buffered()]
    }

    constructor (compress: (Words, seq<byte>) -> Words)
      ensures Valid() && Message() == [] && this.compress == compress && fresh(input)
    {
      this.compress := compress;
      buf, lo, hi, blocks, wraps := InitialState(), 0, 0, [], 0;
      input := new byte[64];
    }

    /** md5_transform on the full buffer. */
    method Transform()
      requires Absorbing()
      modifies this`buf, this`blocks
      ensures Absorbing() && blocks == old(blocks) + [input[..]]
      ensures Concat(blocks) == old(Concat(blocks)) + input[..]
    {
      FoldSnoc(compress, InitialState(), blocks, input[..]);
      ConcatSnoc(blocks, input[..]);
      buf := compress(buf, input[..]);
      blocks := blocks + [input[..]];
    }

    /** Copy bytes to the buffer behind the `t` that are there; compress it when it is full. */
    method Fill(piece: seq<byte>, t: nat, ghost before: seq<byte>, ghost t': nat)
      requires Absorbing() && t' == t + |piece| <= 64 && before == Concat(blocks) + input[..t]
      modifies this`buf, this`blocks, input
      ensures Absorbing() && if t' < 64 then blocks == old(blocks) && Concat(blocks) + input[..t'] == before + piece
                             else |blocks| == old(|blocks|) + 1 && Concat(blocks) == before + piece
    {
      hide Fold, Concat;
      ghost var tail := input[..t];
      CopyBytes(input, t, piece);
      assert input[..t'] == tail + piece;
      assert Concat(blocks) + (tail + piece) == before + piece;
      if t + |piece| == 64 {
        assert input[..64] == input[..];
        Transform();
      }
    }

    /** The loop over whole blocks, and the rest. */
    method AbsorbBlocks(data: seq<byte>, from: nat, ghost start: seq<byte>) returns (ghost t': nat)
      requires Absorbing() && from <= |data| && Concat(blocks) == start + data[..from]
      modifies this`buf, this`blocks, input
      ensures Absorbing() && t' < 64 && Concat(blocks) + input[..t'] == start + data
      ensures 64 * |blocks| + t' == 64 * old(|blocks|) + |data| - from
    {
      hide Fold, Concat;
      var p_in := from;
      while |data| - p_in >= 64
        invariant p_in <= |data| && Absorbing() && Concat(blocks) == start + data[..p_in]
        invariant 64 * |blocks| - p_in == 64 * old(|blocks|) - from
      {
        var next := p_in + 64;
        assert input[..0] == [] && Concat(blocks) + [] == start + data[..p_in];
        Fill(data[p_in..next], 0, start + data[..p_in], 64);
        assert start + data[..p_in] + data[p_in..next] == start + data[..next];
        p_in := next;
      }
      t' := |data| - p_in;
      assert input[..0] == [] && Concat(blocks) + [] == start + data[..p_in];
      Fill(data[p_in..], 0, start + data[..p_in], t');
      assert start + data[..p_in] + data[p_in..] == start + data;
    }

    /** The copying of md5_digest_update: up to the end of the block, whole blocks, the rest. */
    method AbsorbBytes(data: seq<byte>, t: nat) returns (ghost t': nat)
      requires Absorbing() && t < 64
      modifies this`buf, this`blocks, input
      ensures Absorbing() && t' < 64
      ensures Concat(blocks) + input[..t'] == old(Concat(blocks) + input[..t]) + data
      ensures 64 * |blocks| + t' == 64 * old(|blocks|) + t + |data|
    {
      hide Fold, Concat;
      ghost var start := Concat(blocks) + input[..t];
      if t != 0 {
        var space := 64 - t;
        if |data| < space {
          t' := t + |data|;
          Fill(data, t, start, t');
          return;
        }
        Fill(data[..space], t, start, 64);
        t' := AbsorbBlocks(data, space, start);
      } else {
        assert input[..0] == [] && data[..0] == [] && Concat(blocks) + [] + [] == Concat(blocks);
        t' := AbsorbBlocks(data, 0, start);
      }
    }

    /**
     md5_digest_update appends the first `len` modulo 2^32 bytes: all of them exactly for calls below
     2^32 bytes.
     */
    method Update(data: seq<byte>)
      requires Valid()
      modifies this, input
      ensures Valid() && Message() == old(Message()) + data[..|data| % 0x1_0000_0000]
    {
      if |data| == 0 {
        assert data[..0] == [];
        return;
      }
      hide Fold, Concat;
      var cb := |data| % 0x1_0000_0000;
      ghost var n := 64 * |blocks| + Buffered();
      var t := Buffered();
      wraps := CountStep(n, wraps, hi, lo, cb);
      hi, lo := CountHigh(hi, lo, cb), CountLow(lo, cb);
      ghost var t' := AbsorbBytes(data[..cb], t);
      ConcatLength(blocks);
      CounterMeaning(Concat(blocks) + input[..t'], |blocks|, t', wraps, hi, lo);
    }

    /** The counter is the length field. */
    lemma {:induction false} LengthField()
      requires Valid()
      ensures LittleEndian(lo, 4) + LittleEndian(hi, 4) == LittleEndian(BitLength(Message()), 8)
    {
      hide LittleEndian;
      ConcatLength(blocks);
      CounterMeaning(Message(), |blocks|, Buffered(), wraps, hi, lo);
      LittleHalves(hi, lo);
    }

    /** The padding of md5_digest_final: a block more if the length does not fit behind it. */
    method MakeRoom(count: nat)
      requires Absorbing() && count < 64
      modifies this`buf, this`blocks, input
      ensures Absorbing()
      ensures if count > 55 then
          && blocks == old(blocks) + [old(input[..count]) + [0x80] + Zeros(63 - count)]
          && input[..56] == Zeros(56)
        else blocks == old(blocks) && input[..56] == old(input[..count]) + [0x80] + Zeros(55 - count)
    {
      hide Fold, Concat;
      var room := 64 - 1 - count;
      if room < 8 {
        ghost var tail := input[..count];
        PadBlock(input, count, 64);
        assert input[..] == tail + [0x80] + Zeros(63 - count);
        Transform();
        ClearBytes(input, 0, 56);
      } else {
        PadBlock(input, count, 56);
      }
    }

    /** md5_digest_final: the digest of the whole message. */
    method Final() returns (out: seq<byte>)
      requires Valid()
      modifies this, input
      ensures out == WordsLittle(Md5(compress, old(Message())))
    {
      hide Fold, BlocksOf, Concat, Pad, LittleEndian;
      ghost var tail, before := input[..Buffered()], blocks;
      ghost var length := LittleEndian(BitLength(Message()), 8);
      LengthField();
      var count := Buffered();
      MakeRoom(count);
      ghost var start := input[..56];
      CopyBytes(input, 56, LittleEndian(lo, 4));
      CopyBytes(input, 60, LittleEndian(hi, 4));
      assert input[..] == start + (LittleEndian(lo, 4) + LittleEndian(hi, 4));
      if count > 55 {
        PadTwoBlocks(before, tail, length, blocks[|blocks| - 1], input[..]);
      } else {
        PadOneBlock(before, tail, length, input[..]);
      }
      Transform();
      out := WordsLittle(buf);
    }
  }
}
