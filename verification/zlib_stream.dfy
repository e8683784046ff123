/** A whole zlib stream: header, and the blocks of section 3.2.3 of RFC 1951. */
module ZlibStream {
  import opened Bits
  import opened BitSequence
  import opened Counts = HuffmanCodes
  import opened CanonicalCodes
  import opened DeflateCodes
  import opened ZlibHuffman
  import opened ZlibReader
  import opened ZlibInflate
  import opened ZlibCodes
  import opened ZlibBound

  // ----- the fixed codes (section 3.2.6)

  function FixedLengths(): (s: seq<nat>)
    ensures |s| == 288
  {
    Repeat(8, 144) + Repeat(9, 112) + Repeat(7, 24) + Repeat(8, 8)
  }

  function FixedDistances(): (s: seq<nat>)
    ensures |s| == 32
  {
    Repeat(5, 32)
  }

  lemma {:induction false} FixedCounts(len: nat)
    ensures Count(FixedLengths(), len) == if len == 7 then 24 else if len == 8 then 152 else if len == 9 then 112 else 0
    ensures Count(FixedDistances(), len) == if len == 5 then 32 else 0
  {
    hide Repeat;
    var a := [] + Repeat(8, 144);
    assert a == Repeat(8, 144);
    CountConcatRepeat([], 8, 144, len);
    CountConcatRepeat(a, 9, 112, len);
    CountConcatRepeat(a + Repeat(9, 112), 7, 24, len);
    CountConcatRepeat(a + Repeat(9, 112) + Repeat(7, 24), 8, 8, len);
    CountConcatRepeat([], 5, 32, len);
    assert [] + Repeat(5, 32) == Repeat(5, 32);
  }

  /** The fixed codes use up the code space exactly. */
  lemma {:induction false} FixedCodesComplete()
    ensures Below(FixedLengths(), 16) == Below(FixedDistances(), 16) == 0x1_0000
    ensures IsLengths(FixedLengths()) && IsLengths(FixedDistances())
  {
    hide Count, Repeat;
    var ll, dl := FixedLengths(), FixedDistances();
    forall len: nat
      ensures Count(ll, len) == (if len == 7 then 24 else if len == 8 then 152 else if len == 9 then 112 else 0)
                         && Count(dl, len) == if len == 5 then 32 else 0 {
      FixedCounts(len);
    }
    BelowSame(ll, 0, 6);
    BelowSame(ll, 9, 16);
    BelowSame(dl, 0, 4);
    BelowSame(dl, 5, 16);
    FixedShares();
    RepeatIs(8, 144);
    RepeatIs(9, 112);
    RepeatIs(7, 24);
    RepeatIs(8, 8);
    RepeatIs(5, 32);
  }

  lemma {:induction false} FixedShares()
    ensures Shl(24, 9) == 12288 && Shl(152, 8) == 38912 && Shl(112, 7) == 14336 && Shl(32, 11) == 65536
  {}

  // ----- what a stream means

  /** A stored block, after its three header bits: it starts at the next byte. */
  ghost predicate StoredBlock(data: seq<byte>, pos: nat, out: seq<byte>, pos': nat, out': seq<byte>) {
    var p := AlignUp(pos);
    var len := Lsb(data, p, 16);
    Lsb(data, p + 16, 16) == 0xffff - len && pos' == p + 32 + 8 * len && out' == out + BytesFrom(data, p / 8 + 4, len)
  }

  function AlignUp(pos: nat): nat {
    8 * ((pos + 7) / 8)
  }

  /** The block that starts at bit `pos` adds to `out` and ends at `pos'`. */
  ghost predicate Block(data: seq<byte>, pos: nat, out: seq<byte>, pos': nat, out': seq<byte>) {
    match Lsb(data, pos + 1, 2)
    case 0 => StoredBlock(data, pos + 3, out, pos', out')
    case 1 => Decodes(FixedLengths(), FixedDistances(), data, pos + 3, out, pos', out')
    case 2 =>
      var codes := CodesAt(data, pos + 3);
      codes.Codes? && Decodes(codes.ll, codes.dl, data, codes.pos, out, pos', out')
    case _ => false
  }

  /** A block has at most one meaning. */
  lemma {:induction false} BlockOnce(data: seq<byte>, pos: nat, out: seq<byte>, p1: nat, o1: seq<byte>, p2: nat,
                                     o2: seq<byte>)
    requires Block(data, pos, out, p1, o1) && Block(data, pos, out, p2, o2)
    ensures p1 == p2 && o1 == o2
  {
    hide Decodes, Lsb, CodesAt, FixedLengths, FixedDistances;
    var kind := Lsb(data, pos + 1, 2);
    if kind == 1 {
      DecodesOnce(FixedLengths(), FixedDistances(), data, pos + 3, out, p1, o1, p2, o2);
    } else if kind == 2 {
      var codes := CodesAt(data, pos + 3);
      DecodesOnce(codes.ll, codes.dl, data, codes.pos, out, p1, o1, p2, o2);
    }
  }

  /** One block, the last one if its first bit is set. */
  ghost function BlockStep(data: seq<byte>, pos: nat, out: seq<byte>): (r: Outcome)
    ensures !r.Bad? ==> Block(data, pos, out, r.pos, r.out)
  {
    if exists p: nat, o: seq<byte> :: Block(data, pos, out, p, o) then
      var p: nat, o: seq<byte> :| Block(data, pos, out, p, o);
      if Lsb(data, pos, 1) == 1 then Ended(p, o) else More(p, o)
    else Outcome.Bad
  }

  ghost function Blocks(data: seq<byte>, pos: nat, out: seq<byte>, n: nat): Outcome {
    if n == 0 then More(pos, out)
    else match Blocks(data, pos, out, n - 1)
         case More(p, o) => BlockStep(data, p, o)
         case other => other
  }

  /** The blocks from bit `pos` on, up to the last one, expand to what `out'` has more than `out`. */
  ghost predicate Inflates(data: seq<byte>, pos: nat, out: seq<byte>, pos': nat, out': seq<byte>) {
    exists n: nat :: Blocks(data, pos, out, n) == Ended(pos', out')
  }

  lemma {:induction false} BlockStepIs(data: seq<byte>, pos: nat, out: seq<byte>, p: nat, o: seq<byte>)
    requires Block(data, pos, out, p, o)
    ensures BlockStep(data, pos, out) == if Lsb(data, pos, 1) == 1 then Ended(p, o) else More(p, o)
  {
    hide Block;
    var r := BlockStep(data, pos, out);
    BlockOnce(data, pos, out, p, o, r.pos, r.out);
  }

  lemma {:induction false} RunMovesOn(ll: seq<nat>, dl: seq<nat>, data: seq<byte>, pos: nat, out: seq<byte>, n: nat)
    ensures var r := Run(ll, dl, data, pos, out, n); r.Bad? || (r.pos >= pos && |r.out| >= |out|)
  {
    if n > 0 {
      RunMovesOn(ll, dl, data, pos, out, n - 1);
      var s := Run(ll, dl, data, pos, out, n - 1);
      if s.More? {
        StepMovesOn(ll, dl, data, s.pos, s.out);
      }
    }
  }

  lemma {:induction false} BlockMovesOn(data: seq<byte>, pos: nat, out: seq<byte>, p: nat, o: seq<byte>)
    requires Block(data, pos, out, p, o)
    ensures p >= pos + 3 && |o| >= |out|
  {
    hide Run, Lsb, CodesAt, FixedLengths, FixedDistances;
    var kind := Lsb(data, pos + 1, 2);
    if kind == 1 {
      var n: nat :| Run(FixedLengths(), FixedDistances(), data, pos + 3, out, n) == Ended(p, o);
      RunMovesOn(FixedLengths(), FixedDistances(), data, pos + 3, out, n);
    } else if kind == 2 {
      var codes := CodesAt(data, pos + 3);
      var n: nat :| Run(codes.ll, codes.dl, data, codes.pos, out, n) == Ended(p, o);
      RunMovesOn(codes.ll, codes.dl, data, codes.pos, out, n);
    }
  }

  lemma {:induction false} BlocksStay(data: seq<byte>, pos: nat, out: seq<byte>, m: nat, n: nat)
    requires m <= n && !Blocks(data, pos, out, m).More?
    ensures Blocks(data, pos, out, n) == Blocks(data, pos, out, m)
    decreases n
  {
    hide BlockStep, Block;
    if m < n {
      BlocksStay(data, pos, out, m, n - 1);
    }
  }

  /** A stream has at most one expansion. */
  lemma {:induction false} InflatesOnce(data: seq<byte>, pos: nat, out: seq<byte>, p1: nat, o1: seq<byte>, p2: nat,
                                        o2: seq<byte>)
    requires Inflates(data, pos, out, p1, o1) && Inflates(data, pos, out, p2, o2)
    ensures p1 == p2 && o1 == o2
  {
    var m: nat :| Blocks(data, pos, out, m) == Ended(p1, o1);
    var n: nat :| Blocks(data, pos, out, n) == Ended(p2, o2);
    if m <= n {
      BlocksStay(data, pos, out, m, n);
    } else {
      BlocksStay(data, pos, out, n, m);
    }
  }

  /** Blocks only move on and add to the output. */
  lemma {:induction false} NextBlockPast(data: seq<byte>, pos: nat, out: seq<byte>, n: nat, bound: nat, size: nat)
    requires n > 0 && Past(Blocks(data, pos, out, n - 1), bound, size)
    ensures Past(Blocks(data, pos, out, n), bound, size)
  {
    hide BlockStep, Block;
    var s := Blocks(data, pos, out, n - 1);
    if s.More? {
      var r := BlockStep(data, s.pos, s.out);
      if !r.Bad? {
        BlockMovesOn(data, s.pos, s.out, r.pos, r.out);
      }
    }
  }

  /** If block k + 1 fails, passes `bound` or reaches `size`, the stream does not end before. */
  lemma {:induction false} StreamEndsBeyond(data: seq<byte>, pos: nat, out: seq<byte>, k: nat, next: nat, bound: nat,
                                            size: nat, n: nat)
    requires next == k + 1 && Blocks(data, pos, out, k).More?
    requires Past(Blocks(data, pos, out, next), bound, size)
    ensures Blocks(data, pos, out, n).Ended? || n > k ==> Past(Blocks(data, pos, out, n), bound, size)
    decreases n
  {
    hide Blocks;
    if n <= k {
      if !Blocks(data, pos, out, n).More? {
        BlocksStay(data, pos, out, n, k);
      }
    } else if n > next {
      StreamEndsBeyond(data, pos, out, k, next, bound, size, n - 1);
      NextBlockPast(data, pos, out, n, bound, size);
    }
  }

  lemma {:induction false} StreamNeverEndsWithin(data: seq<byte>, pos: nat, out: seq<byte>, k: nat, next: nat,
                                                 bound: nat)
    requires next == k + 1 && Blocks(data, pos, out, k).More?
    requires var s := Blocks(data, pos, out, next); s.Bad? || s.pos > bound
    ensures forall p: nat, o: seq<byte> :: Inflates(data, pos, out, p, o) ==> p > bound
  {
    hide Blocks;
    forall p: nat, o: seq<byte> | Inflates(data, pos, out, p, o) ensures p > bound {
      var n: nat :| Blocks(data, pos, out, n) == Ended(p, o);
      StreamEndsBeyond(data, pos, out, k, next, bound, |o| + 1, n);
    }
  }

  /** Every expansion has at least the bytes that the next block brings; if there is no such block, there is none. */
  lemma {:induction false} StreamNeverFits(data: seq<byte>, pos: nat, out: seq<byte>, k: nat, next: nat)
    requires next == k + 1 && Blocks(data, pos, out, k).More?
    ensures var s := Blocks(data, pos, out, next);
      forall p: nat, o: seq<byte> :: Inflates(data, pos, out, p, o) ==> !s.Bad? && |o| >= |s.out|
  {
    hide Blocks;
    var s := Blocks(data, pos, out, next);
    forall p: nat, o: seq<byte> | Inflates(data, pos, out, p, o) ensures !s.Bad? && |o| >= |s.out| {
      var n: nat :| Blocks(data, pos, out, n) == Ended(p, o);
      StreamEndsBeyond(data, pos, out, k, next, p, if s.Bad? then |o| + 1 else |s.out|, n);
    }
  }

  // ----- stbi__parse_uncompressed_block

  function BitOfByte(pos: nat, i: nat): nat {
    pos + 8 * i
  }

  /** The first `k` header bytes. */
  ghost predicate HeaderHolds(header: array<nat>, data: seq<byte>, pos: nat, k: nat)
    reads header
  {
    header.Length == 4 && k <= 4 && forall i :: 0 <= i < k ==> header[i] == Lsb(data, BitOfByte(pos, i), 8)
  }

  /** Drain the aligned bit buffer. */
  method DrainHeader(a: ZBuf, header: array<nat>) returns (k: nat)
    requires a.Valid() && a.num_bits % 8 == 0 && header.Length == 4
    modifies a, header
    ensures a.Valid() && a.num_bits == 0 && k <= 4 && a.pos == BitOfByte(old(a.pos), k) && a.Limit() >= old(a.Limit())
    ensures HeaderHolds(header, a.data, old(a.pos), k)
  {
    hide Lsb, And, Low;
    ghost var pos := a.pos;
    assert Pow2(8) == 256;
    k := 0;
    while a.num_bits > 0
      invariant a.Limit() >= old(a.Limit())
      invariant a.Valid() && a.num_bits % 8 == 0 && a.num_bits + 8 * k == old(a.num_bits) && a.pos == BitOfByte(pos, k)
      invariant HeaderHolds(header, a.data, pos, k)
    {
      AndMask(a.code_buffer, 8);
      header[k] := And(a.code_buffer, 255);
      a.Consume(8);
      k := k + 1;
    }
  }

  /** Fill the header the normal way. */
  method LoadHeader(a: ZBuf, header: array<nat>, k0: nat, ghost pos: nat)
    requires a.Valid() && a.num_bits == 0 && HeaderHolds(header, a.data, pos, k0) && a.pos == BitOfByte(pos, k0)
    modifies a, header
    ensures a.Valid() && a.num_bits == 0 && a.pos == BitOfByte(pos, 4) && HeaderHolds(header, a.data, pos, 4)
    ensures a.Limit() >= old(a.Limit())
  {
    hide Lsb;
    var k := k0;
    while k < 4
      invariant a.Limit() >= old(a.Limit())
      invariant k <= 4 && a.Valid() && a.num_bits == 0 && a.pos == BitOfByte(pos, k)
      invariant HeaderHolds(header, a.data, pos, k)
    {
      header[k] := a.AlignedByte();
      k := k + 1;
    }
  }

  /** The two sizes in the header of a stored block. */
  method StoredSizes(a: ZBuf) returns (len: nat, nlen: nat)
    requires a.Valid() && a.num_bits % 8 == 0
    modifies a
    ensures a.Valid() && a.num_bits == 0 && a.pos == old(a.pos) + 32 && a.Limit() >= old(a.Limit())
    ensures len == Lsb(a.data, old(a.pos), 16) < 0x1_0000 && nlen == Lsb(a.data, old(a.pos) + 16, 16)
  {
    hide Lsb, ZBuf.Valid;
    ghost var p := a.pos;
    var header := new nat[4];
    var k := DrainHeader(a, header);
    LoadHeader(a, header, k, p);
    TwoBytes(a.data, p, BitOfByte(p, 1));
    TwoBytes(a.data, p + 16, BitOfByte(p, 3));
    assert BitOfByte(p, 0) == p && BitOfByte(p, 2) == p + 16;
    len := header[1] * 256 + header[0];
    nlen := header[3] * 256 + header[2];
  }

  /** Two bytes as a number, the low one first. */
  lemma {:induction false} TwoBytes(data: seq<byte>, p: nat, q: nat)
    requires q == p + 8
    ensures Lsb(data, p, 16) == Lsb(data, q, 8) * 256 + Lsb(data, p, 8) < 0x1_0000
  {
    LsbSplit(data, p, 8, 8);
    LsbBound(data, p, 16);
    Pow2Consts();
    ByEight(Lsb(data, q, 8));
    ByEight(8 * Lsb(data, q, 8));
    ShlShl(Lsb(data, q, 8), 3, 3);
    var x := Shl(Lsb(data, q, 8), 6);
    assert Shl(Lsb(data, q, 8), 8) == 2 * Shl(Lsb(data, q, 8), 7) && Shl(Lsb(data, q, 8), 7) == 2 * x;
  }

  /** Bytes inside the data are a slice of it. */
  lemma {:induction false} BytesInside(data: seq<byte>, i: nat, n: nat)
    requires i + n <= |data|
    ensures BytesFrom(data, i, n) == data[i..i + n]
    decreases n
  {
    if n > 0 {
      BytesInside(data, i + 1, n - 1);
      assert data[i..i + n] == [data[i]] + data[i + 1..i + n];
    }
  }

  /** Skip to the next byte. */
  method Align(a: ZBuf)
    requires a.Valid()
    modifies a
    ensures a.Valid() && a.num_bits % 8 == 0 && a.pos == AlignUp(old(a.pos)) && a.pos % 8 == 0
    ensures a.Limit() >= old(a.Limit())
  {
    hide AlignUp, Lsb;
    AlignByBits(a.pos, a.num_bits);
    if a.num_bits % 8 != 0 {
      var discarded := a.Receive(a.num_bits % 8);
    }
  }

  lemma {:induction false} AlignByBits(pos: nat, bits: nat)
    requires (pos + bits) % 8 == 0
    ensures pos + bits % 8 == AlignUp(pos) && (bits - bits % 8) % 8 == 0 && AlignUp(pos) % 8 == 0
  {}

  /** A stored block, after its three header bits. */
  method ParseUncompressedBlock(a: ZBuf, o: Output) returns (status: Status)
    requires a.Valid() && o.Valid()
    modifies a, o, o.zout_start
    ensures o.Valid() && (o.zout_start == old(o.zout_start) || fresh(o.zout_start))
    ensures o.zout_start.Length >= old(o.zout_start.Length)
    ensures a.Limit() >= old(a.Limit())
    ensures status == Ok ==>
      a.Valid() && StoredBlock(a.data, old(a.pos), old(o.Written()), a.pos, o.Written()) && a.pos <= 8 * |a.data|
    ensures status == Corrupt ==>
      forall p: nat, w: seq<byte> :: StoredBlock(a.data, old(a.pos), old(o.Written()), p, w) ==> p > a.Limit()
    ensures status == NoRoom ==>
      forall p: nat, w: seq<byte> :: StoredBlock(a.data, old(a.pos), old(o.Written()), p, w) ==> o.TooLarge(|w|)
  {
    hide Lsb, BytesFrom, Xor, ZBuf.Valid, AlignUp;
    Align(a);
    ghost var p := a.pos;
    var len, nlen := StoredSizes(a);
    Pow2Consts();
    XorOnes(len, 16);
    if nlen != Xor(len, 0xffff) {
      return Corrupt;
    }
    a.PositionOfNext();
    if a.zbuffer + len > |a.data| {
      return Corrupt;
    }
    var ok := o.MakeRoom(len);
    if !ok {
      return NoRoom;
    }
    StoredBytes(a.data, p, a.pos, a.zbuffer, len);
    if len == 0 {
      HeaderInside(a.data, p);
    }
    o.Append(a.data[a.zbuffer..a.zbuffer + len]);
    a.SkipBytes(len);
    return Ok;
  }

  /** The header of an empty stored block ends in ones, so it lies within the data. */
  lemma {:induction false} HeaderInside(data: seq<byte>, p: nat)
    requires p % 8 == 0 && Lsb(data, p + 16, 16) == 0xffff
    ensures p + 32 <= 8 * |data|
  {
    hide Lsb;
    TwoBytes(data, p + 16, p + 24);
    LsbBound(data, p + 16, 8);
    assert Pow2(8) == 256;
    if p + 24 >= 8 * |data| {
      LsbPastEnd(data, p + 24, 8);
    }
  }

  lemma {:induction false} StoredBytes(data: seq<byte>, p: nat, pos: nat, zbuffer: nat, len: nat)
    requires pos == p + 32 && p % 8 == 0 && zbuffer + len <= |data| && (zbuffer < |data| ==> pos == 8 * zbuffer)
    ensures BytesFrom(data, p / 8 + 4, len) == data[zbuffer..zbuffer + len]
  {
    if len > 0 {
      assert zbuffer == p / 8 + 4;
    }
    if zbuffer < |data| {
      BytesInside(data, zbuffer, len);
    } else {
      assert data[zbuffer..zbuffer + len] == [];
    }
  }

  // ----- stbi__parse_zlib

  /** The tables of the fixed codes; building them never fails. */
  method BuildFixed(zl: ZHuffman, zd: ZHuffman)
    requires zl.Valid() && zd.Valid() && zl.Arrays() !! zd.Arrays()
    modifies zl.Arrays(), zd.Arrays()
    ensures zl.Built(FixedLengths()) && zd.Built(FixedDistances())
  {
    hide FixedLengths, FixedDistances, ZHuffman.Built, Below, IsLengths;
    FixedCodesComplete();
    var ok := zl.Build(FixedLengths());
    if !ok {
      assert false;
    }
    ok := zd.Build(FixedDistances());
    if !ok {
      assert false;
    }
  }

  /** A coded block ends near its start, or near the end of the data. */
  lemma {:induction false} CodedBlockIsNear(kind: nat, data: seq<byte>, pos: nat, out: seq<byte>, p: nat, w: seq<byte>)
    requires (kind == 1 || kind == 2) && CodedBlock(kind, data, pos, out, p, w)
    ensures p <= pos + 2326 || p <= 8 * |data| + 62
  {
    hide Decodes, CodesAt, FixedLengths, FixedDistances;
    if kind == 1 {
      FixedCodesComplete();
      EndsNearEnd(FixedLengths(), FixedDistances(), data, pos, out, p, w);
    } else {
      var codes := CodesAt(data, pos);
      CodesAreNear(data, pos);
      EndsNearEnd(codes.ll, codes.dl, data, codes.pos, out, p, w);
    }
  }

  /** A block that needs Huffman tables: fixed or dynamic ones, then the coded data. */
  method ParseCodedBlock(a: ZBuf, o: Output, zl: ZHuffman, zd: ZHuffman, kind: nat) returns (status: Status)
    requires a.Valid() && o.Valid() && zl.Valid() && zd.Valid() && zl.Arrays() !! zd.Arrays()
    requires o.zout_start !in zl.Arrays() && o.zout_start !in zd.Arrays() && (kind == 1 || kind == 2)
    modifies a, o, o.zout_start, zl.Arrays(), zd.Arrays()
    ensures o.Valid() && (o.zout_start == old(o.zout_start) || fresh(o.zout_start))
    ensures o.zout_start.Length >= old(o.zout_start.Length)
    ensures a.Limit() >= old(a.Limit())
    ensures status == Ok ==>
      a.Valid() && CodedBlock(kind, a.data, old(a.pos), old(o.Written()), a.pos, o.Written()) && a.pos <= a.Limit()
    ensures status == Ok ==> a.pos <= old(a.pos) + 2326 || a.pos <= 8 * |a.data| + 62
    ensures status == Corrupt ==>
      forall p: nat, w: seq<byte> :: CodedBlock(kind, a.data, old(a.pos), old(o.Written()), p, w) ==> p > a.Limit()
    ensures status == NoRoom ==>
      forall p: nat, w: seq<byte> :: CodedBlock(kind, a.data, old(a.pos), old(o.Written()), p, w) ==> o.TooLarge(|w|)
  {
    hide Decodes, CodesAt, FixedLengths, FixedDistances, ZHuffman.Built, ZBuf.Valid, Output.Written;
    ghost var ll, dl;
    ghost var pos, out, data := a.pos, o.Written(), a.data;
    if kind == 1 {
      BuildFixed(zl, zd);
      ll, dl := FixedLengths(), FixedDistances();
    } else {
      var ok;
      ok, ll, dl := ComputeHuffmanCodes(a, zl, zd);
      if !ok {
        CodedBlockMovesOn(data, pos, out);
        return Corrupt;
      }
    }
    ghost var start := a.pos;
    assert o.Written() == out;
    status := ParseHuffmanBlock(a, o, zl, zd, ll, dl);
    if status == Ok {
      CodedBlockIsNear(kind, data, pos, out, a.pos, o.Written());
    }
    forall p: nat, w: seq<byte> | CodedBlock(kind, data, pos, out, p, w)
      ensures (status == Corrupt ==> p > a.Limit()) && (status == NoRoom ==> o.TooLarge(|w|))
    {
      assert Decodes(ll, dl, data, start, out, p, w);
    }
  }

  /** The two coded kinds of block. */
  ghost predicate CodedBlock(kind: nat, data: seq<byte>, pos: nat, out: seq<byte>, pos': nat, out': seq<byte>) {
    if kind == 1 then Decodes(FixedLengths(), FixedDistances(), data, pos, out, pos', out')
    else
      var codes := CodesAt(data, pos);
      codes.Codes? && Decodes(codes.ll, codes.dl, data, codes.pos, out, pos', out')
  }

  lemma {:induction false} CodedBlockMovesOn(data: seq<byte>, pos: nat, out: seq<byte>)
    ensures var codes := CodesAt(data, pos);
      forall p: nat, w: seq<byte> :: CodedBlock(2, data, pos, out, p, w) ==> codes.Codes? && p >= codes.pos
  {
    hide CodesAt, Run;
    var codes := CodesAt(data, pos);
    forall p: nat, w: seq<byte> | CodedBlock(2, data, pos, out, p, w) ensures codes.Codes? && p >= codes.pos {
      var n: nat :| Run(codes.ll, codes.dl, data, codes.pos, out, n) == Ended(p, w);
      RunMovesOn(codes.ll, codes.dl, data, codes.pos, out, n);
    }
  }

  /** The meaning of a block, by its kind. */
  lemma {:induction false} BlockByKind(data: seq<byte>, pos: nat, after: nat, kind: nat, out: seq<byte>)
    requires after == pos + 3 && kind == Lsb(data, pos + 1, 2)
    ensures kind == 0 ==>
      forall p: nat, w: seq<byte> :: Block(data, pos, out, p, w) <==> StoredBlock(data, after, out, p, w)
    ensures kind == 1 || kind == 2 ==>
      forall p: nat, w: seq<byte> :: Block(data, pos, out, p, w) <==> CodedBlock(kind, data, after, out, p, w)
    ensures kind > 2 ==> forall p: nat, w: seq<byte> :: !Block(data, pos, out, p, w)
  {
    hide Lsb, CodesAt, Decodes, FixedLengths, FixedDistances;
  }

  /** One round of the loop over the blocks. */
  method ParseBlock(a: ZBuf, o: Output, zl: ZHuffman, zd: ZHuffman) returns (status: Status, final: nat)
    requires a.Valid() && o.Valid() && zl.Valid() && zd.Valid() && zl.Arrays() !! zd.Arrays()
    requires o.zout_start !in zl.Arrays() && o.zout_start !in zd.Arrays()
    modifies a, o, o.zout_start, zl.Arrays(), zd.Arrays()
    ensures o.Valid() && (o.zout_start == old(o.zout_start) || fresh(o.zout_start))
    ensures o.zout_start.Length >= old(o.zout_start.Length)
    ensures a.Limit() >= old(a.Limit()) && (old(a.num_bits) == 0 ==>
      a.Limit() >= old(a.pos) + 25 || old(a.hit_zeof_once))
    ensures status == Ok ==>
      a.Valid() && Block(a.data, old(a.pos), old(o.Written()), a.pos, o.Written()) && a.pos <= a.Limit()
    ensures status == Ok ==> a.pos <= old(a.pos) + 2329 || a.pos <= 8 * |a.data| + 62
    ensures final == Lsb(a.data, old(a.pos), 1)
    ensures status == Corrupt ==>
      forall p: nat, w: seq<byte> :: Block(a.data, old(a.pos), old(o.Written()), p, w) ==> p > a.Limit()
    ensures status == NoRoom ==>
      forall p: nat, w: seq<byte> :: Block(a.data, old(a.pos), old(o.Written()), p, w) ==> o.TooLarge(|w|)
  {
    hide Block, StoredBlock, CodedBlock, Lsb, ZBuf.Valid;
    ghost var pos := a.pos;
    final := a.Receive(1);
    var kind := a.Receive(2);
    BlockByKind(a.data, pos, a.pos, kind, o.Written());
    if kind == 0 {
      status := ParseUncompressedBlock(a, o);
    } else if kind == 3 {
      return Corrupt, final;
    } else {
      TwoBits(a.data, pos + 1);
      status := ParseCodedBlock(a, o, zl, zd, kind);
    }
  }

  lemma {:induction false} TwoBits(data: seq<byte>, pos: nat)
    ensures Lsb(data, pos, 2) < 4 && Lsb(data, pos, 1) < 2
  {
    LsbBound(data, pos, 2);
    LsbBound(data, pos, 1);
    assert Pow2(2) == 4 && Pow2(1) == 2;
  }

  /** Past the end there is no block: it would be a stored one with a wrong size. */
  lemma {:induction false} NoBlockPastEnd(data: seq<byte>, pos: nat, out: seq<byte>, p: nat, w: seq<byte>)
    requires pos >= 8 * |data|
    ensures !Block(data, pos, out, p, w)
  {
    hide Lsb, CodesAt, Decodes, FixedLengths, FixedDistances;
    LsbPastEnd(data, pos + 1, 2);
    LsbPastEnd(data, AlignUp(pos + 3), 16);
    LsbPastEnd(data, AlignUp(pos + 3) + 16, 16);
  }

  /** The two header bytes of section 2.2 of RFC 1950, as the decoder checks them. */
  predicate HeaderOk(data: seq<byte>) {
    && |data| > 2 && (data[0] as int * 256 + data[1]) % 31 == 0 && And(data[1], 32) == 0 && data[0] % 16 == 8
  }

  /** What section 2.2 of RFC 1950 asks: besides that, a window of at most 32768 bytes. */
  predicate Rfc1950Header(data: seq<byte>) {
    HeaderOk(data) && data[0] / 16 <= 7
  }

  /** The verdict is that of RFC 1950 exactly if the header is refused or names a window that is allowed. */
  lemma {:induction false} HeaderExact(data: seq<byte>)
    requires |data| > 2
    ensures (HeaderOk(data) <==> Rfc1950Header(data)) <==> !HeaderOk(data) || data[0] / 16 <= 7
    ensures HeaderOk([0x88, 0x1c, 0]) && !Rfc1950Header([0x88, 0x1c, 0])
  {
    NoDictionary();
  }

  lemma {:induction false} NoDictionary()
    ensures And(0x1c, 32) == 0
  {
    assert And(0, 1) == 0 && And(1, 2) == 0 && And(3, 4) == 0 && And(7, 8) == 0 && And(14, 16) == 0;
  }

  /** stbi__parse_zlib_header. */
  method ParseZlibHeader(a: ZBuf) returns (ok: bool)
    requires a.Valid() && a.pos == 0 && a.num_bits == 0 && a.zbuffer == 0 && !a.hit_zeof_once
    modifies a
    ensures ok <==> HeaderOk(a.data)
    ensures ok ==> a.Valid() && a.pos == 16 && a.num_bits == 0 && !a.hit_zeof_once
  {
    var cmf := a.AlignedByte();
    HeaderBytes(a.data);
    var cm := cmf % 16;
    var flg := a.AlignedByte();
    if a.Zeof() {
      return false;
    }
    if (cmf as int * 256 + flg) % 31 != 0 {
      return false;
    }
    if And(flg, 32) != 0 {
      return false;
    }
    return cm == 8;
  }

  lemma {:induction false} HeaderBytes(data: seq<byte>)
    ensures Lsb(data, 0, 8) == ByteAt(data, 0) && Lsb(data, 8, 8) == ByteAt(data, 1)
  {
    LsbByte(data, 0);
    LsbByte(data, 1);
  }

  /**
   stbi__parse_zlib. A stream that has an expansion, zeros behind the data included, and for which there is room, is
   accepted exactly if it ends within the limit, and the output grows by exactly the expansion. The limit is never
   below the end of the data, and no accepted stream ends more than 2328 bits behind it. Running out of room means
   that the expansion does not fit in the output buffer, nor in one that could be had.
   */
  method ParseZlib(a: ZBuf, o: Output, zl: ZHuffman, zd: ZHuffman, parse_header: bool) returns (status: Status)
    requires a.Valid() && a.pos == 0 && a.num_bits == 0 && a.zbuffer == 0 && !a.hit_zeof_once
    requires o.Valid() && zl.Valid() && zd.Valid() && zl.Arrays() !! zd.Arrays()
    requires o.zout_start !in zl.Arrays() && o.zout_start !in zd.Arrays()
    modifies a, o, o.zout_start, zl.Arrays(), zd.Arrays()
    ensures o.zout_start.Length >= old(o.zout_start.Length)
    ensures var start := if parse_header then 16 else 0;
      && (status == Ok ==> (parse_header ==> HeaderOk(a.data)) && o.Valid()
                           && Inflates(a.data, start, old(o.Written()), a.pos, o.Written()) && a.pos <= a.Limit()
                           && a.pos <= 8 * |a.data| + 2328)
      && (status == Corrupt && (parse_header ==> HeaderOk(a.data)) ==>
            a.Limit() >= start + 25
            && forall p: nat, w: seq<byte> :: Inflates(a.data, start, old(o.Written()), p, w) ==> p > a.Limit())
      && (status == NoRoom ==>
            forall p: nat, w: seq<byte> :: Inflates(a.data, start, old(o.Written()), p, w) ==> o.TooLarge(|w|))
  {
    hide Block, BlockStep, Lsb, ZBuf.Valid, HeaderOk;
    if parse_header {
      var ok := ParseZlibHeader(a);
      if !ok {
        return Corrupt;
      }
    }
    ghost var data, start, out := a.data, a.pos, o.Written();
    ghost var k: nat := 0;
    while true
      invariant a.Valid() && o.Valid()
      invariant o.zout_start == old(o.zout_start) || fresh(o.zout_start)
      invariant o.zout_start.Length >= old(o.zout_start.Length)
      invariant o.zout_start !in zl.Arrays() && o.zout_start !in zd.Arrays()
      invariant Blocks(data, start, out, k) == More(a.pos, o.Written())
      invariant a.Limit() >= start + 25 || (k == 0 && a.num_bits == 0 && !a.hit_zeof_once && a.pos == start)
      decreases 8 * |data| - a.pos
    {
      ghost var pos, w, next := a.pos, o.Written(), k + 1;
      assert Blocks(data, start, out, next) == BlockStep(data, pos, w);
      var final;
      status, final := ParseBlock(a, o, zl, zd);
      if status == Corrupt {
        StepIsBeyond(data, pos, w, a.Limit());
        StreamNeverEndsWithin(data, start, out, k, next, a.Limit());
        return;
      }
      if status == NoRoom {
        StreamNeverFits(data, start, out, k, next);
        return;
      }
      BlockStepIs(data, pos, w, a.pos, o.Written());
      BlockMovesOn(data, pos, w, a.pos, o.Written());
      TwoBits(data, pos);
      if pos >= 8 * |data| {
        NoBlockPastEnd(data, pos, w, a.pos, o.Written());
      }
      if final != 0 {
        return;
      }
      k := next;
    }
  }

  lemma {:induction false} StepIsBeyond(data: seq<byte>, pos: nat, out: seq<byte>, bound: nat)
    requires forall p: nat, w: seq<byte> :: Block(data, pos, out, p, w) ==> p > bound
    ensures var s := BlockStep(data, pos, out); s.Bad? || s.pos > bound
  {
    hide Block;
    var s := BlockStep(data, pos, out);
  }
}
