/**
 Streams that end in the zeros behind the data. The decoder notices only bits beyond its limit, so it accepts some
 of them; here is one. ZlibBound says how far they can reach, and ZlibStream.ParseZlib exactly which are accepted.
 */
module ZlibTruncated {
  import opened Bits
  import opened BitSequence
  import opened HuffmanCodes
  import opened CanonicalCodes
  import opened DeflateCodes
  import opened ZlibHuffman
  import opened ZlibReader
  import opened ZlibInflate
  import opened ZlibBound
  import opened ZlibStream

  // ----- a truncated stream that is accepted

  /** The fixed code of the end of a block is seven zeros. */
  lemma {:induction false} FixedEndOfBlock()
    ensures FixedLengths()[256] == 7 && SymbolCode(FixedLengths(), 256) == 0
  {
    hide Repeat;
    RepeatIs(7, 24);
    RepeatIs(8, 144);
    RepeatIs(9, 112);
    var lens := FixedLengths();
    forall i | 0 <= i < 256 ensures lens[i] != 7 {
    }
    CountZero(lens[..256], 7);
    NoShorter(lens, 7);
  }

  lemma {:induction false} NoShorter(lens: seq<nat>, len: nat)
    requires lens == FixedLengths() && len <= 7
    ensures NextCode(lens, len) == 0
  {
    hide FixedLengths;
    if len > 1 {
      NoShorter(lens, len - 1);
      FixedCounts(len - 1);
    }
  }

  /** One byte: the last block, with fixed codes; the code that ends it comes from behind the data. */
  lemma {:induction false} OneByteStream()
    ensures Inflates([3], 0, [], 10, []) && 10 > 8 * |[3]|
  {
    hide Block, Lsb;
    ThreeThenZeros();
    OneByteBlock();
    BlockStepIs([3], 0, [], 10, []);
    assert Blocks([3], 0, [], 0) == More(0, []);
    assert Blocks([3], 0, [], 1) == Ended(10, []);
  }

  lemma {:induction false} OneByteBlock()
    ensures Block([3], 0, [], 10, [])
  {
    hide Lsb, FixedLengths, FixedDistances, SymbolCode, FirstBits, NextSymbol;
    var data: seq<byte> := [3];
    FixedEndOfBlock();
    ThreeThenZeros();
    assert StartsWith(FixedLengths(), 256, data, 3);
    NextSymbolIs(FixedLengths(), data, 3, 256);
    assert Run(FixedLengths(), FixedDistances(), data, 3, [], 0) == More(3, []);
    assert Run(FixedLengths(), FixedDistances(), data, 3, [], 1) == Ended(10, []);
  }

  lemma {:induction false} ThreeThenZeros()
    ensures Lsb([3], 0, 1) == 1 && Lsb([3], 1, 2) == 1 && FirstBits([3], 3, 7) == 0
  {
    var data: seq<byte> := [3];
    assert LsbBit(data, 0) == 1 && LsbBit(data, 1) == 1 && LsbBit(data, 2) == 0;
    assert LsbBit(data, 3) == 0 && LsbBit(data, 4) == 0 && LsbBit(data, 5) == 0 && LsbBit(data, 6) == 0;
    assert LsbBit(data, 7) == 0 && LsbBit(data, 8) == 0 && LsbBit(data, 9) == 0;
  }

  /** The decoder accepts that stream. */
  method AcceptOneByteStream() returns (status: Status)
    ensures status == Ok
  {
    hide Inflates, ZHuffman.Valid;
    var a := new ZBuf([3]);
    var o := new Output(1, true);
    var zl := new ZHuffman();
    var zd := new ZHuffman();
    OneByteStream();
    assert o.Written() == [];
    status := ParseZlib(a, o, zl, zd, false);
  }
}
