/** Streaming SHA-256. */
module DigestSha256 {
  import opened BitSequence
  import opened DigestBlocks

  function InitialState(): Words {
    [0x6a09e667, 0xbb67ae85, 0x3c6ef372, 0xa54ff53a, 0x510e527f, 0x9b05688c, 0x1f83d9ab, 0x5be0cd19]
  }

  /** SHA-256 of a whole message (section 6.2 of FIPS 180-4), with its compression function as a parameter. */
  function Sha256(compress: (Words, seq<byte>) -> Words, m: seq<byte>): Words {
    Fold(compress, InitialState(), BlocksOf(PadBig(m)))
  }

  class Sha256Digest {
    const compress: (Words, seq<byte>) -> Words
    var bit_length: nat            // uint64: bits of the whole blocks so far
    var state: Words
    var block_length: nat
    const block: array<byte>
    ghost var blocks: seq<seq<byte>>

    ghost predicate Valid()
      reads this, block
    {
      && block.Length == 64 && block_length < 64 && AreBlocks(blocks)
      && bit_length == 512 * |blocks| % 0x1_0000_0000_0000_0000
      && state == Fold(compress, InitialState(), blocks)
    }

    /** Everything that was absorbed since the last reset. */
    ghost function Message(): seq<byte>
      reads this, block
      requires Valid()
    {
      Concat(blocks) + block[..block_length]
    }

    constructor (compress: (Words, seq<byte>) -> Words)
      ensures Valid() && Message() == [] && this.compress == compress && fresh(block)
    {
      this.compress := compress;
      bit_length, state, block_length, blocks := 0, InitialState(), 0, [];
      block := new byte[64](_ => 0);
    }

    /** A full block is compressed and counted. */
    method TransformFull()
      requires block.Length == 64 && AreBlocks(blocks)
      requires bit_length == 512 * |blocks| % 0x1_0000_0000_0000_0000
      requires state == Fold(compress, InitialState(), blocks)
      modifies this`bit_length, this`state, this`block_length, this`blocks
      ensures Valid() && block_length == 0 && blocks == old(blocks) + [block[..]]
    {
      FoldSnoc(compress, InitialState(), blocks, block[..]);
      AddMod64(512 * |blocks|, 512);
      state := compress(state, block[..]);
      bit_length := (bit_length + 512) % 0x1_0000_0000_0000_0000;
      block_length := 0;
      blocks := blocks + [block[..]];
    }

    /** sha256_digest_update appends to the message, however it is cut into calls. */
    method Update(data: seq<byte>)
      requires Valid()
      modifies this, block
      ensures Valid() && Message() == old(Message()) + data
    {
      hide Fold;
      ghost var start := Message();
      var pos := 0;
      assert data[..0] == [];
      while pos < |data|
        invariant pos <= |data| && Valid() && Message() == start + data[..pos]
      {
        var remaining, space := |data| - pos, 64 - block_length;
        var copy_len := if remaining < space then remaining else space;
        var next := pos + copy_len;
        Absorb(data, pos, next, start);
        pos := next;
      }
      assert data[..pos] == data;
    }

    /** One round of the loop: fill the block, and compress it when it is full. */
    method Absorb(data: seq<byte>, pos: nat, next: nat, ghost start: seq<byte>)
      requires Valid() && pos <= next <= |data| && block_length + (next - pos) <= 64 && Message() == start + data[..pos]
      modifies this, block
      ensures Valid() && Message() == start + data[..next]
    {
      hide Fold, Concat;
      ghost var tail := block[..block_length];
      CopyBytes(block, block_length, data[pos..next]);
      block_length := block_length + (next - pos);
      assert block[..block_length] == tail + data[pos..next];
      assert Concat(blocks) + block[..block_length] == start + data[..next] by {
        assert data[..next] == data[..pos] + data[pos..next];
        assert Concat(blocks) + (tail + data[pos..next]) == (Concat(blocks) + tail) + data[pos..next];
      }
      if block_length == 64 {
        ConcatSnoc(blocks, block[..]);
        assert block[..] == block[..64];
        TransformFull();
        assert Concat(blocks) + block[..0] == start + data[..next];
      }
    }

    /** sha256_digest_final: the digest of the whole message. */
    method Final() returns (out: seq<byte>)
      requires Valid()
      modifies this, block
      ensures out == WordsBig(Sha256(compress, old(Message())))
    {
      hide Fold, BlocksOf, Concat, Pad;
      ghost var m, tail, before := Message(), block[..block_length], blocks;
      LengthOfAll(before, tail, bit_length);
      var length := (bit_length + 8 * block_length) % 0x1_0000_0000_0000_0000;
      if block_length < 56 {
        PadBlock(block, block_length, 56);
        assert block[..56] == tail + [0x80] + Zeros(55 - |tail|);
      } else {
        PadBlock(block, block_length, 64);
        assert block[..] == tail + [0x80] + Zeros(63 - |tail|);
        FoldSnoc(compress, InitialState(), blocks, block[..]);
        state := compress(state, block[..]);
        blocks := blocks + [block[..]];
        ClearBytes(block, 0, 64);
        assert block[..56] == Zeros(56);
      }
      bit_length := length;
      CopyBytes(block, 56, BigEndian(bit_length, 8));
      assert block[..] == block[..56] + BigEndian(bit_length, 8);
      if |tail| < 56 {
        PadOneBlock(before, tail, BigEndian(length, 8), block[..]);
      } else {
        PadTwoBlocks(before, tail, BigEndian(length, 8), blocks[|blocks| - 1], block[..]);
      }
      FoldSnoc(compress, InitialState(), blocks, block[..]);
      state := compress(state, block[..]);
      out := WordsBig(state);
    }
  }

  /** The bits of the blocks and of the rest are the bits of the message. */
  lemma {:induction false} LengthOfAll(blocks: seq<seq<byte>>, tail: seq<byte>, bits: nat)
    requires AreBlocks(blocks) && bits == 512 * |blocks| % 0x1_0000_0000_0000_0000
    ensures (bits + 8 * |tail|) % 0x1_0000_0000_0000_0000 == BitLength(Concat(blocks) + tail)
  {
    ConcatLength(blocks);
    AddMod64(512 * |blocks|, 8 * |tail|);
  }
}
