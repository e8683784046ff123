/**
 Writing a whole stream (sections 2.2 of RFC 1950 and 3.2.3 of RFC 1951): any cut of a text into stored blocks, blocks
 with the fixed codes and blocks with codes of their own. The decoder gives the text back.
 */
module DeflateStream {
  import opened Bits
  import opened BitSequence
  import opened BitWriter
  import opened CanonicalCodes
  import opened DeflateWriter
  import opened DeflateLengths
  import opened ZlibHuffman
  import opened ZlibReader
  import opened ZlibInflate
  import opened ZlibCodes
  import opened ZlibStream

  /** What fills up the byte before a stored block does not matter. */
  datatype Chunk = Stored(bytes: seq<byte>, padding: nat)
                 | Fixed(tokens: seq<Token>)
                 | Dynamic(codes: Description, tokens: seq<Token>)

  /** Bytes of text a block stands for. */
  function ChunkSize(c: Chunk): nat {
    match c
    case Stored(bytes, _) => |bytes|
    case _ => TotalSize(c.tokens)
  }

  /** The block says what the text is from position `p` on, in a way that can be written. */
  ghost predicate IsChunk(text: seq<byte>, p: nat, c: Chunk) {
    p + ChunkSize(c) <= |text| &&
    match c
    case Stored(bytes, _) => |bytes| <= 0xffff && text[p..p + |bytes|] == bytes
    case Fixed(tokens) => Parses(text, p, tokens)
    case Dynamic(codes, tokens) =>
      IsDescription(codes) && AreCodes(codes.ll, codes.dl, tokens) && Parses(text, p, tokens)
  }

  function ChunksSize(chunks: seq<Chunk>): nat {
    if chunks == [] then 0 else ChunksSize(chunks[..|chunks| - 1]) + ChunkSize(chunks[|chunks| - 1])
  }

  ghost predicate AreChunks(text: seq<byte>, chunks: seq<Chunk>)
    decreases |chunks|
  {
    chunks != [] ==>
      var init, last := chunks[..|chunks| - 1], chunks[|chunks| - 1];
      AreChunks(text, init) && IsChunk(text, ChunksSize(init), last)
  }

  // ----- the fixed codes serve all tokens

  /** Section 3.2.6: the length of the fixed code of a literal or length symbol. */
  lemma {:induction false} FixedLength(z: nat)
    requires z < 288
    ensures FixedLengths()[z] == if z < 144 then 8 else if z < 256 then 9 else if z < 280 then 7 else 8
  {
    hide HuffmanCodes.Repeat;
    HuffmanCodes.RepeatIs(8, 144);
    HuffmanCodes.RepeatIs(9, 112);
    HuffmanCodes.RepeatIs(7, 24);
    HuffmanCodes.RepeatIs(8, 8);
  }

  lemma {:induction false} FixedServes(text: seq<byte>, p: nat, tokens: seq<Token>)
    requires p <= |text| && Parses(text, p, tokens)
    ensures AreCodes(FixedLengths(), FixedDistances(), tokens)
  {
    hide FixedLengths, FixedDistances, NotOversubscribed, DeflateSymbols.CodeLength, DeflateSymbols.CodeDistance;
    FixedCodesComplete();
    FixedAreCodes();
    FixedLength(256);
    FixedServesAll(text, p, tokens);
  }

  lemma {:induction false} FixedAreCodes()
    ensures NotOversubscribed(FixedLengths()) && NotOversubscribed(FixedDistances())
  {
    FixedCodesComplete();
  }

  lemma {:induction false} FixedServesAll(text: seq<byte>, p: nat, tokens: seq<Token>)
    requires Parses(text, p, tokens)
    ensures CanCodeAll(FixedLengths(), FixedDistances(), tokens)
  {
    hide FixedLengths, FixedDistances;
    if tokens != [] {
      var n := |tokens| - 1;
      FixedServesAll(text, p, tokens[..n]);
      FixedServesOne(text, p + TotalSize(tokens[..n]), tokens[n]);
    }
  }

  lemma {:induction false} FixedServesOne(text: seq<byte>, p: nat, t: Token)
    requires Describes(text, p, t)
    ensures CanCode(FixedLengths(), FixedDistances(), t)
  {
    hide FixedLengths, DeflateSymbols.CodeLength, DeflateSymbols.CodeDistance;
    match t {
      case Literal(value) => FixedLength(value);
      case Copy(length, dist, spare) =>
        DeflateSymbols.LengthDecodes(length);
        DeflateSymbols.DistanceDecodes(dist);
        FixedLength(CopyLength(length, spare).symbol);
        HuffmanCodes.RepeatIs(5, 32);
    }
  }

  // ----- bits

  /** Bits up to the next byte boundary. */
  function Padding(pos: nat): (n: nat)
    ensures n < 8 && (pos + n) % 8 == 0
  {
    if pos % 8 == 0 then 0 else 8 - pos % 8
  }

  function BytesBits(bytes: seq<byte>): (b: seq<bool>)
    ensures |b| == 8 * |bytes|
  {
    if bytes == [] then [] else ValueBits(bytes[0], 8) + BytesBits(bytes[1..])
  }

  /** Two bytes for the size, two for its complement, and the bytes, from a byte boundary on. */
  function StoredBits(bytes: seq<byte>, padding: nat, pos: nat): seq<bool>
    requires |bytes| <= 0xffff
  {
    ValueBits(padding, Padding(pos)) + (ValueBits(|bytes|, 16) + (ValueBits(0xffff - |bytes|, 16) + BytesBits(bytes)))
  }

  function KindOf(c: Chunk): nat {
    match c
    case Stored(_, _) => 0
    case Fixed(_) => 1
    case Dynamic(_, _) => 2
  }

  /** What follows the three header bits of a block. */
  ghost function PayloadBits(text: seq<byte>, p: nat, c: Chunk, pos: nat): seq<bool>
    requires IsChunk(text, p, c)
  {
    match c
    case Stored(bytes, padding) => StoredBits(bytes, padding, pos)
    case Fixed(tokens) =>
      FixedServes(text, p, tokens);
      BodyBits(FixedLengths(), FixedDistances(), tokens)
    case Dynamic(codes, tokens) => DescriptionBits(codes) + BodyBits(codes.ll, codes.dl, tokens)
  }

  ghost function ChunkBits(text: seq<byte>, p: nat, c: Chunk, pos: nat, last: bool): seq<bool>
    requires IsChunk(text, p, c)
  {
    ValueBits(if last then 1 else 0, 1) + (ValueBits(KindOf(c), 2) + PayloadBits(text, p, c, pos + 3))
  }

  /** All blocks, one behind the other; the last one may be marked. */
  ghost function StreamBits(text: seq<byte>, chunks: seq<Chunk>, pos: nat, last: bool): seq<bool>
    requires AreChunks(text, chunks)
    decreases |chunks|
  {
    if chunks == [] then []
    else
      var init := chunks[..|chunks| - 1];
      var before := StreamBits(text, init, pos, false);
      before + ChunkBits(text, ChunksSize(init), chunks[|chunks| - 1], pos + |before|, last)
  }

  // ----- reading it

  lemma {:induction false} BytesRead(data: seq<byte>, i: nat, bytes: seq<byte>, pos: nat)
    requires pos == 8 * i && LsbAt(data, pos, BytesBits(bytes))
    ensures BytesFrom(data, i, |bytes|) == bytes
    decreases |bytes|
  {
    if bytes != [] {
      assert Pow2(8) == 256;
      hide LsbBits, ValueBits, Lsb, Pow2;
      ReadsNext(data, pos, bytes[0], 8, BytesBits(bytes[1..]), pos + 8);
      LsbByte(data, i);
      BytesRead(data, i + 1, bytes[1..], pos + 8);
    }
  }

  lemma {:induction false} PaddedIsAligned(pos: nat, p: nat)
    requires p == pos + Padding(pos)
    ensures p == AlignUp(pos) && p + 32 == 8 * (p / 8 + 4)
  {}

  lemma {:induction false} StoredReads(data: seq<byte>, pos: nat, bytes: seq<byte>, padding: nat, out: seq<byte>)
    requires |bytes| <= 0xffff && LsbAt(data, pos, StoredBits(bytes, padding, pos))
    ensures StoredBlock(data, pos, out, pos + |StoredBits(bytes, padding, pos)|, out + bytes)
  {
    Pow2Consts();
    hide LsbBits, ValueBits, Lsb, Pow2, BytesBits, BytesFrom;
    var p := pos + Padding(pos);
    PaddedIsAligned(pos, p);
    hide Padding, AlignUp;
    var body := BytesBits(bytes);
    var rest := ValueBits(0xffff - |bytes|, 16) + body;
    LsbAtSplit(data, pos, ValueBits(padding, Padding(pos)), ValueBits(|bytes|, 16) + rest, p);
    ReadsNext(data, p, |bytes|, 16, rest, p + 16);
    ReadsNext(data, p + 16, 0xffff - |bytes|, 16, body, p + 32);
    BytesRead(data, p / 8 + 4, bytes, p + 32);
  }

  lemma {:induction false} DynamicReads(text: seq<byte>, p: nat, codes: Description, tokens: seq<Token>,
                                        data: seq<byte>, pos: nat)
    requires IsDescription(codes) && AreCodes(codes.ll, codes.dl, tokens) && p <= |text| && Parses(text, p, tokens)
    requires LsbAt(data, pos, DescriptionBits(codes) + BodyBits(codes.ll, codes.dl, tokens))
    ensures p + TotalSize(tokens) <= |text|
    ensures var mid := pos + |DescriptionBits(codes)|;
      && CodesAt(data, pos) == Codes(mid, codes.ll, codes.dl)
      && Decodes(codes.ll, codes.dl, data, mid, text[..p], mid + |BodyBits(codes.ll, codes.dl, tokens)|,
                 text[..p + TotalSize(tokens)])
  {
    hide Decodes, LsbBits, DescriptionBits, BodyBits, CodesAt, IsDescription, Parses, CanCodeAll;
    var mid := pos + |DescriptionBits(codes)|;
    LsbAtSplit(data, pos, DescriptionBits(codes), BodyBits(codes.ll, codes.dl, tokens), mid);
    DescriptionReads(data, pos, codes);
    BodyDecodes(codes.ll, codes.dl, data, mid, text, p, tokens);
  }

  lemma {:induction false} HeadReads(data: seq<byte>, pos: nat, last: bool, kind: nat, payload: seq<bool>, mid: nat)
    requires kind < 3 && mid == pos + 3
    requires LsbAt(data, pos, ValueBits(if last then 1 else 0, 1) + (ValueBits(kind, 2) + payload))
    ensures Lsb(data, pos, 1) == (if last then 1 else 0) && Lsb(data, pos + 1, 2) == kind && LsbAt(data, mid, payload)
  {
    assert Pow2(1) == 2 && Pow2(2) == 4;
    hide LsbBits, ValueBits, Lsb, Pow2;
    ReadsNext(data, pos, if last then 1 else 0, 1, ValueBits(kind, 2) + payload, pos + 1);
    ReadsNext(data, pos + 1, kind, 2, payload, mid);
  }

  /** A block is read as what was written. */
  lemma {:induction false} ChunkReads(text: seq<byte>, p: nat, c: Chunk, data: seq<byte>, pos: nat, last: bool)
    requires IsChunk(text, p, c) && LsbAt(data, pos, ChunkBits(text, p, c, pos, last))
    ensures Block(data, pos, text[..p], pos + |ChunkBits(text, p, c, pos, last)|, text[..p + ChunkSize(c)])
    ensures Lsb(data, pos, 1) == if last then 1 else 0
  {
    hide LsbBits, ValueBits, Lsb, PayloadBits, IsChunk, StoredBlock, Decodes, CodesAt, FixedLengths, FixedDistances;
    HeadReads(data, pos, last, KindOf(c), PayloadBits(text, p, c, pos + 3), pos + 3);
    PayloadReads(text, p, c, data, pos + 3);
    ChunkFits(text, p, c);
  }

  lemma {:induction false} PayloadReads(text: seq<byte>, p: nat, c: Chunk, data: seq<byte>, pos: nat)
    requires IsChunk(text, p, c) && LsbAt(data, pos, PayloadBits(text, p, c, pos))
    ensures var out, end, out' := text[..p], pos + |PayloadBits(text, p, c, pos)|, text[..p + ChunkSize(c)];
      match c
      case Stored(_, _) => StoredBlock(data, pos, out, end, out')
      case Fixed(_) => Decodes(FixedLengths(), FixedDistances(), data, pos, out, end, out')
      case Dynamic(_, _) =>
        var codes := CodesAt(data, pos);
        codes.Codes? && Decodes(codes.ll, codes.dl, data, codes.pos, out, end, out')
  {
    hide StoredBlock, Decodes, CodesAt, FixedLengths, FixedDistances, LsbBits, StoredBits, BodyBits, AreCodes, Parses;
    hide DescriptionBits, IsDescription;
    match c {
      case Stored(bytes, padding) =>
        StoredReads(data, pos, bytes, padding, text[..p]);
        assert text[..p] + bytes == text[..p + |bytes|];
      case Fixed(tokens) =>
        FixedServes(text, p, tokens);
        BodyDecodes(FixedLengths(), FixedDistances(), data, pos, text, p, tokens);
      case Dynamic(codes, tokens) => DynamicReads(text, p, codes, tokens, data, pos);
    }
  }

  lemma {:induction false} StreamReads(text: seq<byte>, chunks: seq<Chunk>, data: seq<byte>, pos: nat, last: bool)
    requires AreChunks(text, chunks) && LsbAt(data, pos, StreamBits(text, chunks, pos, last))
    ensures ChunksSize(chunks) <= |text|
    ensures var end, out := pos + |StreamBits(text, chunks, pos, last)|, text[..ChunksSize(chunks)];
      Blocks(data, pos, [], |chunks|) == if last && chunks != [] then Ended(end, out) else More(end, out)
    decreases |chunks|
  {
    hide LsbBits, ChunkBits, Block, BlockStep, Lsb, IsChunk;
    if chunks != [] {
      var init, c := chunks[..|chunks| - 1], chunks[|chunks| - 1];
      var before, p := StreamBits(text, init, pos, false), ChunksSize(init);
      var mid := pos + |before|;
      LsbAtSplit(data, pos, before, ChunkBits(text, p, c, mid, last), mid);
      StreamReads(text, init, data, pos, false);
      ChunkReads(text, p, c, data, mid, last);
      ChunkFits(text, p, c);
      BlockStepIs(data, mid, text[..p], mid + |ChunkBits(text, p, c, mid, last)|, text[..p + ChunkSize(c)]);
    }
  }

  lemma {:induction false} ChunkFits(text: seq<byte>, p: nat, c: Chunk)
    requires IsChunk(text, p, c)
    ensures p + ChunkSize(c) <= |text|
  {}

  // ----- the round trip

  /** A text, and blocks that together describe it. */
  ghost predicate Compresses(text: seq<byte>, chunks: seq<Chunk>) {
    chunks != [] && AreChunks(text, chunks) && ChunksSize(chunks) == |text|
  }

  /** Every text can be written, if only as one block of literals. */
  lemma {:induction false} EveryTextCompresses(text: seq<byte>) returns (chunks: seq<Chunk>)
    ensures Compresses(text, chunks)
  {
    var tokens := LiteralTokens(text, |text|);
    chunks := [Fixed(tokens)];
    assert chunks[..0] == [];
    assert AreChunks(text, []);
    assert IsChunk(text, 0, chunks[0]);
  }

  lemma {:induction false} LiteralTokens(text: seq<byte>, n: nat) returns (tokens: seq<Token>)
    requires n <= |text|
    ensures Parses(text, 0, tokens) && TotalSize(tokens) == n
  {
    if n == 0 {
      tokens := [];
    } else {
      var init := LiteralTokens(text, n - 1);
      tokens := init + [Literal(text[n - 1])];
      assert tokens[..|init|] == init;
    }
  }

  /** What an encoder writes: the blocks, in bytes, between what comes before and what comes behind. */
  ghost function Deflated(text: seq<byte>, chunks: seq<Chunk>, before: seq<byte>, after: seq<byte>): seq<byte>
    requires Compresses(text, chunks)
  {
    before + PackLow(StreamBits(text, chunks, 8 * |before|, true)) + after
  }

  /** Inflating it gives the text, and ends in its last byte. */
  lemma {:induction false} InflateInvertsDeflate(text: seq<byte>, chunks: seq<Chunk>, before: seq<byte>,
                                                 after: seq<byte>, start: nat) returns (end: nat)
    requires Compresses(text, chunks) && start == 8 * |before|
    ensures Inflates(Deflated(text, chunks, before, after), start, [], end, text)
    ensures end == start + |StreamBits(text, chunks, start, true)| <= 8 * |Deflated(text, chunks, before, after)|
  {
    hide StreamBits, Blocks, AreChunks, PackLow, LsbBits;
    var data := Deflated(text, chunks, before, after);
    PackedLow(StreamBits(text, chunks, start, true), before, after, start);
    StreamReads(text, chunks, data, start, true);
    assert text[..|text|] == text && text[..0] == [];
    end := start + |StreamBits(text, chunks, start, true)|;
  }

  // ----- and only that inflates

  lemma {:induction false} BytesAreThere(data: seq<byte>, i: nat, n: nat, pos: nat)
    requires pos == 8 * i
    ensures LsbAt(data, pos, BytesBits(BytesFrom(data, i, n)))
    decreases n
  {
    if n > 0 {
      var bytes := BytesFrom(data, i, n);
      BytesAreThere(data, i + 1, n - 1, pos + 8);
      ValueIsThere(data, pos, 8);
      LsbByte(data, i);
      assert bytes[1..] == BytesFrom(data, i + 1, n - 1);
      hide LsbBits, ValueBits, Lsb, BytesFrom;
      LsbAtJoin(data, pos, ValueBits(bytes[0], 8), BytesBits(bytes[1..]), pos + 8);
    }
  }

  lemma {:induction false} StoredIsThere(data: seq<byte>, pos: nat, out: seq<byte>, pos': nat, out': seq<byte>)
    returns (bytes: seq<byte>, padding: nat)
    requires StoredBlock(data, pos, out, pos', out')
    ensures |bytes| <= 0xffff && LsbAt(data, pos, StoredBits(bytes, padding, pos))
    ensures pos' == pos + |StoredBits(bytes, padding, pos)| && out' == out + bytes
  {
    hide Lsb, BytesFrom, LsbBits, ValueBits, BytesBits;
    var n := Padding(pos);
    var p := pos + n;
    PaddedIsAligned(pos, p);
    hide Padding, AlignUp;
    var len := Lsb(data, p, 16);
    bytes, padding := BytesFrom(data, p / 8 + 4, len), Lsb(data, pos, n);
    ValueIsThere(data, pos, n);
    ValueIsThere(data, p, 16);
    ValueIsThere(data, p + 16, 16);
    BytesAreThere(data, p / 8 + 4, len, p + 32);
    LsbAtJoin(data, p + 16, ValueBits(0xffff - len, 16), BytesBits(bytes), p + 32);
    var rest := ValueBits(0xffff - len, 16) + BytesBits(bytes);
    LsbAtJoin(data, p, ValueBits(len, 16), rest, p + 16);
    LsbAtJoin(data, pos, ValueBits(padding, n), ValueBits(len, 16) + rest, p);
  }

  /** What follows the header of a block was written. */
  lemma {:induction false} PayloadIsThere(data: seq<byte>, pos: nat, kind: nat, out: seq<byte>, pos': nat,
                                          out': seq<byte>) returns (c: Chunk)
    requires kind == 0 ==> StoredBlock(data, pos, out, pos', out')
    requires kind != 0 ==> CodedBlock(kind, data, pos, out, pos', out') && kind < 3
    ensures KindOf(c) == kind && |out'| == |out| + ChunkSize(c) && out'[..|out|] == out && IsChunk(out', |out|, c)
    ensures LsbAt(data, pos, PayloadBits(out', |out|, c, pos)) && pos' == pos + |PayloadBits(out', |out|, c, pos)|
  {
    hide Decodes, CodesAt, FixedLengths, FixedDistances, LsbBits, StoredBits, BodyBits, Parses, StoredBlock;
    hide DescriptionBits, IsDescription, CanCodeAll, NotOversubscribed;
    if kind == 0 {
      var bytes, padding := StoredIsThere(data, pos, out, pos', out');
      c := Stored(bytes, padding);
    } else if kind == 1 {
      FixedCodesComplete();
      var tokens := DecodedIsBody(FixedLengths(), FixedDistances(), data, pos, out, pos', out');
      c := Fixed(tokens);
    } else {
      c := DynamicIsThere(data, pos, out, pos', out');
    }
  }

  lemma {:induction false} DynamicIsThere(data: seq<byte>, pos: nat, out: seq<byte>, pos': nat, out': seq<byte>)
    returns (c: Chunk)
    requires CodedBlock(2, data, pos, out, pos', out')
    ensures c.Dynamic? && |out'| == |out| + ChunkSize(c) && out'[..|out|] == out && IsChunk(out', |out|, c)
    ensures LsbAt(data, pos, PayloadBits(out', |out|, c, pos)) && pos' == pos + |PayloadBits(out', |out|, c, pos)|
  {
    hide Decodes, CodesAt, LsbBits, BodyBits, Parses, DescriptionBits, CanCodeAll, NotOversubscribed, CanWrite, Expand;
    var d := CodesAreDescription(data, pos);
    var mid := pos + |DescriptionBits(d)|;
    var tokens := DecodedIsBody(d.ll, d.dl, data, mid, out, pos', out');
    c := Dynamic(d, tokens);
    LsbAtJoin(data, pos, DescriptionBits(d), BodyBits(d.ll, d.dl, tokens), mid);
  }

  lemma {:induction false} ChunkIsThere(data: seq<byte>, pos: nat, out: seq<byte>, pos': nat, out': seq<byte>,
                                        last: bool) returns (c: Chunk)
    requires Block(data, pos, out, pos', out') && last == (Lsb(data, pos, 1) == 1)
    ensures |out'| == |out| + ChunkSize(c) && out'[..|out|] == out && IsChunk(out', |out|, c)
    ensures LsbAt(data, pos, ChunkBits(out', |out|, c, pos, last))
    ensures pos' == pos + |ChunkBits(out', |out|, c, pos, last)|
  {
    hide StoredBlock, Decodes, CodesAt, FixedLengths, FixedDistances, LsbBits, ValueBits, Lsb, PayloadBits, IsChunk;
    TwoBits(data, pos);
    TwoBits(data, pos + 1);
    c := PayloadIsThere(data, pos + 3, Lsb(data, pos + 1, 2), out, pos', out');
    ValueIsThere(data, pos, 1);
    ValueIsThere(data, pos + 1, 2);
    var payload := PayloadBits(out', |out|, c, pos + 3);
    LsbAtJoin(data, pos + 1, ValueBits(KindOf(c), 2), payload, pos + 3);
    LsbAtJoin(data, pos, ValueBits(Lsb(data, pos, 1), 1), ValueBits(KindOf(c), 2) + payload, pos + 1);
  }

  lemma {:induction false} SamePart(text: seq<byte>, more: seq<byte>, p: nat, n: nat)
    requires p + n <= |text| <= |more| && more[..|text|] == text
    ensures more[p..p + n] == text[p..p + n]
  {
    var a, b := more[p..p + n], text[p..p + n];
    forall k | 0 <= k < |a| ensures a[k] == b[k] {
      assert more[..|text|][p + k] == more[p + k];
    }
  }

  /** A block says the same in a longer text, with the same bits. */
  lemma {:induction false} LongerChunk(text: seq<byte>, more: seq<byte>, p: nat, c: Chunk, pos: nat, last: bool)
    requires |text| <= |more| && more[..|text|] == text && IsChunk(text, p, c)
    ensures IsChunk(more, p, c) && ChunkBits(more, p, c, pos, last) == ChunkBits(text, p, c, pos, last)
  {
    hide Parses, StoredBits, BodyBits, DescriptionBits, IsDescription, AreCodes, FixedLengths, FixedDistances;
    match c {
      case Stored(bytes, _) => SamePart(text, more, p, |bytes|);
      case _ => LongerText(text, more, p, c.tokens);
    }
  }

  lemma {:induction false} LongerChunks(text: seq<byte>, more: seq<byte>, chunks: seq<Chunk>, pos: nat, last: bool)
    requires |text| <= |more| && more[..|text|] == text && AreChunks(text, chunks)
    ensures AreChunks(more, chunks) && StreamBits(more, chunks, pos, last) == StreamBits(text, chunks, pos, last)
    decreases |chunks|
  {
    if chunks != [] {
      var init, c := chunks[..|chunks| - 1], chunks[|chunks| - 1];
      LongerChunks(text, more, init, pos, false);
      var before := StreamBits(text, init, pos, false);
      hide IsChunk, ChunkBits;
      LongerChunk(text, more, ChunksSize(init), c, pos + |before|, last);
      LastChunk(text, chunks, pos, last, before);
      LastChunk(more, chunks, pos, last, before);
      hide StreamBits;
    }
  }

  lemma {:induction false} LastChunk(text: seq<byte>, chunks: seq<Chunk>, pos: nat, last: bool, before: seq<bool>)
    requires chunks != [] && var init := chunks[..|chunks| - 1];
      && AreChunks(text, init) && IsChunk(text, ChunksSize(init), chunks[|chunks| - 1])
      && before == StreamBits(text, init, pos, false)
    ensures AreChunks(text, chunks)
    ensures var init := chunks[..|chunks| - 1];
      StreamBits(text, chunks, pos, last)
      == before + ChunkBits(text, ChunksSize(init), chunks[|chunks| - 1], pos + |before|, last)
  {
    hide IsChunk, ChunkBits;
  }

  /** The blocks that the decoder has read are blocks that were written. */
  lemma {:induction false} BlocksAreThere(data: seq<byte>, pos: nat, n: nat) returns (chunks: seq<Chunk>)
    requires Blocks(data, pos, [], n).More?
    ensures var s := Blocks(data, pos, [], n);
      && AreChunks(s.out, chunks) && ChunksSize(chunks) == |s.out|
      && LsbAt(data, pos, StreamBits(s.out, chunks, pos, false))
      && s.pos == pos + |StreamBits(s.out, chunks, pos, false)|
  {
    if n == 0 {
      chunks := [];
      hide Blocks, Block;
    } else {
      hide LsbBits, ChunkBits, BlockStep, Block, IsChunk, StreamBits, AreChunks, ChunksSize;
      var s, s' := Blocks(data, pos, [], n - 1), Blocks(data, pos, [], n);
      var init := BlocksAreThere(data, pos, n - 1);
      StepWasBlock(data, s.pos, s.out);
      var c := ChunkIsThere(data, s.pos, s.out, s'.pos, s'.out, false);
      chunks := OneMoreChunk(data, pos, s.out, init, s.pos, s'.pos, s'.out, c, false);
    }
  }

  lemma {:induction false} StepWasBlock(data: seq<byte>, pos: nat, out: seq<byte>)
    requires !BlockStep(data, pos, out).Bad?
    ensures var r := BlockStep(data, pos, out);
      Block(data, pos, out, r.pos, r.out) && (r.Ended? <==> Lsb(data, pos, 1) == 1)
  {
    hide Block;
  }

  lemma {:induction false} OneMoreChunk(data: seq<byte>, pos: nat, text: seq<byte>, init: seq<Chunk>, mid: nat,
                                        end: nat, more: seq<byte>, c: Chunk, last: bool) returns (chunks: seq<Chunk>)
    requires AreChunks(text, init) && ChunksSize(init) == |text| && LsbAt(data, pos, StreamBits(text, init, pos, false))
    requires mid == pos + |StreamBits(text, init, pos, false)|
    requires |more| == |text| + ChunkSize(c) && more[..|text|] == text && IsChunk(more, |text|, c)
    requires LsbAt(data, mid, ChunkBits(more, |text|, c, mid, last))
    requires end == mid + |ChunkBits(more, |text|, c, mid, last)|
    ensures chunks == init + [c] && AreChunks(more, chunks) && ChunksSize(chunks) == |more|
    ensures LsbAt(data, pos, StreamBits(more, chunks, pos, last)) && end == pos + |StreamBits(more, chunks, pos, last)|
  {
    hide LsbBits, ChunkBits, IsChunk;
    LongerChunks(text, more, init, pos, false);
    chunks := init + [c];
    assert chunks[..|init|] == init;
    LsbAtJoin(data, pos, StreamBits(more, init, pos, false), ChunkBits(more, |text|, c, mid, last), mid);
  }

  /** The bits of a stream of these blocks, with this text, lie from `start` to `end`. */
  ghost predicate IsStream(data: seq<byte>, start: nat, end: nat, text: seq<byte>, chunks: seq<Chunk>) {
    && Compresses(text, chunks) && LsbAt(data, start, StreamBits(text, chunks, start, true))
    && end == start + |StreamBits(text, chunks, start, true)|
  }

  /** Data inflate to a text exactly if they hold a stream of blocks that describe the text. */
  lemma {:induction false} InflatesExactly(data: seq<byte>, start: nat, end: nat, text: seq<byte>)
    ensures Inflates(data, start, [], end, text) <==> exists chunks :: IsStream(data, start, end, text, chunks)
  {
    hide IsStream, Inflates;
    if Inflates(data, start, [], end, text) {
      var chunks := StreamIsThere(data, start, end, text);
    }
    if chunks :| IsStream(data, start, end, text, chunks) {
      StreamInflates(data, start, end, text, chunks);
    }
  }

  lemma {:induction false} StreamInflates(data: seq<byte>, start: nat, end: nat, text: seq<byte>, chunks: seq<Chunk>)
    requires IsStream(data, start, end, text, chunks)
    ensures Inflates(data, start, [], end, text)
  {
    hide StreamBits, Blocks, AreChunks, LsbBits;
    StreamReads(text, chunks, data, start, true);
    assert text[..|text|] == text;
  }

  lemma {:induction false} StreamIsThere(data: seq<byte>, start: nat, end: nat, text: seq<byte>)
    returns (chunks: seq<Chunk>)
    requires Inflates(data, start, [], end, text)
    ensures IsStream(data, start, end, text, chunks)
  {
    hide LsbBits, ChunkBits, BlockStep, Block, IsChunk, AreChunks, StreamBits;
    var n: nat :| Blocks(data, start, [], n) == Ended(end, text);
    var k := LastBlock(data, start, n);
    var s := Blocks(data, start, [], k);
    var init := BlocksAreThere(data, start, k);
    StepWasBlock(data, s.pos, s.out);
    var c := ChunkIsThere(data, s.pos, s.out, end, text, true);
    chunks := OneMoreChunk(data, start, s.out, init, s.pos, end, text, c, true);
  }

  lemma {:induction false} LastBlock(data: seq<byte>, pos: nat, n: nat) returns (k: nat)
    requires Blocks(data, pos, [], n).Ended?
    ensures k < n && Blocks(data, pos, [], k).More?
    ensures var s := Blocks(data, pos, [], k); BlockStep(data, s.pos, s.out) == Blocks(data, pos, [], n)
  {
    hide BlockStep;
    k := n - 1;
    if !Blocks(data, pos, [], k).More? {
      k := LastBlock(data, pos, k);
    }
  }

  /** Two header bytes: method 8, a window, a level, no dictionary, and a check value that makes a multiple of 31. */
  predicate IsHeader(header: seq<byte>, window: nat, level: nat, check: nat) {
    && window < 16 && level < 4 && check < 32 && |header| == 2
    && header[0] == 16 * window + 8 && header[1] == 64 * level + check && (header[0] as int * 256 + header[1]) % 31 == 0
  }

  ghost predicate HasHeader(before: seq<byte>) {
    exists window, level, check :: IsHeader(before, window, level, check)
  }

  /** The decoder accepts exactly these two bytes, with something behind them. */
  lemma {:induction false} HeaderIsOk(data: seq<byte>)
    requires |data| > 2
    ensures HeaderOk(data) <==> HasHeader(data[..2])
  {
    hide HeaderOk, IsHeader;
    if HeaderOk(data) {
      HeaderIsWritten(data);
    }
    if w, l, c :| IsHeader(data[..2], w, l, c) {
      HeaderIsAccepted(data, w, l, c);
    }
  }

  lemma {:induction false} HeaderIsWritten(data: seq<byte>)
    requires |data| > 2 && HeaderOk(data)
    ensures IsHeader(data[..2], data[0] / 16, data[1] / 64, data[1] % 64)
  {
    hide And;
    FlagBits(data[1], data[1] / 64, data[1] % 64);
    assert data[..2][0] == data[0] && data[..2][1] == data[1];
  }

  lemma {:induction false} HeaderIsAccepted(data: seq<byte>, window: nat, level: nat, check: nat)
    requires |data| > 2 && IsHeader(data[..2], window, level, check)
    ensures HeaderOk(data)
  {
    hide And;
    assert data[..2][0] == data[0] && data[..2][1] == data[1];
    FlagBits(data[1], level, check);
  }

  /** The dictionary bit. */
  lemma {:induction false} FlagBits(flags: nat, level: nat, check: nat)
    requires flags == 64 * level + check && check < 64
    ensures And(flags, 32) == 0 <==> check < 32
  {
    assert Pow2(5) == 32;
    AndOneBit(flags, 5);
    ShrFive(flags);
    SixthBit(flags, level, check);
  }

  lemma {:induction false} SixthBit(x: nat, q: nat, r: nat)
    requires x == 64 * q + r && r < 64
    ensures x / 32 % 2 == 0 <==> r < 32
  {
    if r < 32 {
      DivModUnique(x, 32, 2 * q, r);
    } else {
      DivModUnique(x, 32, 2 * q + 1, r - 32);
    }
  }

  lemma {:induction false} ShrFive(x: nat)
    ensures Shr(x, 5) == x / 32
  {
    ByEight(x);
    assert Shr(x, 5) == x / 8 / 2 / 2;
  }

  lemma {:induction false} AndOneBit(a: nat, k: nat)
    ensures And(a, Pow2(k)) == 0 <==> Shr(a, k) % 2 == 0
    decreases k
  {
    if k == 0 {
      AndZero(a / 2);
    } else {
      AndOneBit(a / 2, k - 1);
      ShrInner(a, k);
      if a == 0 {
        ShrOfZero(k);
      }
    }
  }

  /** The decoder on data that inflate to a text and end before the data end: it is never found corrupt. */
  method InflateWhole(data: seq<byte>, size: nat, expandable: bool, parse_header: bool, ghost end: nat,
                      ghost text: seq<byte>)
    returns (status: Status, out: seq<byte>)
    requires 0 < size <= 0xffff_ffff && end <= 8 * |data| && (parse_header ==> HeaderOk(data))
    requires Inflates(data, if parse_header then 16 else 0, [], end, text)
    ensures status == Ok ==> out == text
    ensures status != Ok ==> status == NoRoom && |text| > size && (!expandable || |text| > 0x7fff_ffff)
  {
    hide Inflates, ZHuffman.Valid, HeaderOk, ZBuf.Limit, ZBuf.Valid, Blocks, Block;
    var a := new ZBuf(data);
    var o := new Output(size, expandable);
    var zl := new ZHuffman();
    var zd := new ZHuffman();
    assert o.Written() == [];
    status := ParseZlib(a, o, zl, zd, parse_header);
    if status == Ok {
      InflatesOnce(data, if parse_header then 16 else 0, [], end, text, a.pos, o.Written());
      out := o.zout_start[..o.zout];
    } else {
      out := [];
    }
  }

  /**
   The decoder on what an encoder wrote, with a zlib header or without one: the output is the text, unless there is no
   room for it.
   */
  method InflateDeflated(data: seq<byte>, size: nat, expandable: bool, parse_header: bool, ghost text: seq<byte>,
                         ghost chunks: seq<Chunk>, ghost before: seq<byte>, ghost after: seq<byte>)
    returns (status: Status, out: seq<byte>)
    requires 0 < size <= 0xffff_ffff && Compresses(text, chunks) && data == Deflated(text, chunks, before, after)
    requires if parse_header then HasHeader(before) else before == []
    ensures status == Ok ==> out == text
    ensures status != Ok ==> status == NoRoom && |text| > size && (!expandable || |text| > 0x7fff_ffff)
  {
    hide Inflates, Deflated, HeaderOk, HasHeader, Compresses, StreamBits;
    ghost var end := DeflatedInflates(parse_header, text, chunks, before, after);
    status, out := InflateWhole(data, size, expandable, parse_header, end, text);
  }

  lemma {:induction false} DeflatedInflates(parse_header: bool, text: seq<byte>, chunks: seq<Chunk>, before: seq<byte>,
                                            after: seq<byte>) returns (end: nat)
    requires Compresses(text, chunks)
    requires if parse_header then HasHeader(before) else before == []
    ensures var data := Deflated(text, chunks, before, after);
      && Inflates(data, if parse_header then 16 else 0, [], end, text) && end <= 8 * |data|
      && (parse_header ==> HeaderOk(data))
  {
    hide Inflates, Deflated, HeaderOk, HasHeader, Compresses, StreamBits;
    var start := if parse_header then 16 else 0;
    if parse_header {
      HeaderComesFirst(text, chunks, before, after);
    }
    end := InflateInvertsDeflate(text, chunks, before, after, start);
  }

  lemma {:induction false} HeaderComesFirst(text: seq<byte>, chunks: seq<Chunk>, before: seq<byte>, after: seq<byte>)
    requires Compresses(text, chunks) && HasHeader(before)
    ensures |before| == 2 && HeaderOk(Deflated(text, chunks, before, after))
  {
    hide Deflated, HeaderOk, Compresses;
    assert |before| == 2 by {
      var w, l, c :| IsHeader(before, w, l, c);
    }
    DeflatedStarts(text, chunks, before, after);
    HeaderIsOk(Deflated(text, chunks, before, after));
  }

  lemma {:induction false} DeflatedStarts(text: seq<byte>, chunks: seq<Chunk>, before: seq<byte>, after: seq<byte>)
    requires Compresses(text, chunks)
    ensures var data := Deflated(text, chunks, before, after); |data| > |before| && data[..|before|] == before
  {
    hide PackLow, AreChunks, PayloadBits, ValueBits, IsChunk;
  }
}
