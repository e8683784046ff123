/** The AC coefficients of one baseline block (section F.2.2.2 of ITU-T T.81). */
module JpegBlock {
  import opened BitSequence
  import opened JpegCodes
  import opened JpegHuffman
  import opened JpegFastAc
  import opened JpegReader

  /** The zig-zag order (Figure A.6), padded for positions past the end, eight at a time. */
  function ZigzagRow(row: nat): (r: seq<nat>)
    ensures |r| == 8
  {
    if row == 0 then [0, 1, 8, 16, 9, 2, 3, 10]
    else if row == 1 then [17, 24, 32, 25, 18, 11, 4, 5]
    else if row == 2 then [12, 19, 26, 33, 40, 48, 41, 34]
    else if row == 3 then [27, 20, 13, 6, 7, 14, 21, 28]
    else if row == 4 then [35, 42, 49, 56, 57, 50, 43, 36]
    else if row == 5 then [29, 22, 15, 23, 30, 37, 44, 51]
    else if row == 6 then [58, 59, 52, 45, 38, 31, 39, 46]
    else if row == 7 then [53, 60, 61, 54, 47, 55, 62, 63]
    else [63, 63, 63, 63, 63, 63, 63, 63]
  }

  function Dezigzag(k: nat): (zig: nat)
    ensures zig < 64
  {
    ZigzagRow(k / 8)[k % 8]
  }

  /** Conversion to a 16-bit signed number. */
  function Short(x: int): int {
    (x + 0x8000) % 0x1_0000 - 0x8000
  }

  datatype Coefficient = Coefficient(k: nat, value: int)

  datatype Block = More(pos: nat, k: nat, coeffs: seq<Coefficient>)
                 | Done(pos: nat, coeffs: seq<Coefficient>)
                 | Bad(pos: nat)

  /** How the next 16 bits are read as a code. */
  type Reading = nat -> Found

  /** As the tables have it. */
  function TableReading(sizes: seq<nat>): Reading {
    (window: nat) => if |sizes| <= 256 then Lookup(sizes, window) else Nothing
  }

  /** As Annex C has it. */
  ghost function AnnexReading(sizes: seq<nat>): Reading {
    (window: nat) => Canonical(sizes, window)
  }

  /** One round of Figure F.13: a run of zeros and a value, sixteen zeros, or the end of the block. */
  function AcStep(code: Reading, values: seq<nat>, data: seq<byte>, pos: nat, k: nat, coeffs: seq<Coefficient>): Block
  {
    match code(Msb(data, pos, 16))
    case Nothing => Bad(pos)
    case Symbol(id, len) =>
      if id >= |values| then Bad(pos)
      else
        var rs, s := values[id], values[id] % 16;
        if s == 0 then
          if rs == 0xf0 then Next(pos + len, k + 16, coeffs) else Done(pos + len, coeffs)
        else
          var value := Extend(Msb(data, pos + len, s), s);
          Next(pos + len + s, k + rs / 16 + 1, coeffs + [Coefficient(k + rs / 16, value)])
  }

  function Next(pos: nat, k: nat, coeffs: seq<Coefficient>): Block {
    if k < 64 then More(pos, k, coeffs) else Done(pos, coeffs)
  }

  /** The rest of the block from position `k` on. */
  function AcRun(code: Reading, values: seq<nat>, data: seq<byte>, pos: nat, k: nat,
                 coeffs: seq<Coefficient>): (b: Block)
    ensures !b.More? && b.pos >= pos
    decreases 64 - k
  {
    match AcStep(code, values, data, pos, k, coeffs)
    case More(p, k', c) => if k' > k then AcRun(code, values, data, p, k', c) else Bad(pos)
    case other => other
  }

  /** Dequantize the coefficients and store them in zig-zag order. */
  function Place(block: seq<int>, coeffs: seq<Coefficient>, dequant: seq<nat>): (r: seq<int>)
    requires |block| == |dequant| == 64
    ensures |r| == 64
  {
    if coeffs == [] then block
    else
      var n := |coeffs| - 1;
      var zig := Dezigzag(coeffs[n].k);
      Place(block, coeffs[..n], dequant)[zig := Short(coeffs[n].value * dequant[zig])]
  }

  /** The decoder is at `pos` with `k` and `coeffs`, or the block does not fit in the data. */
  ghost predicate OnTrack(whole: Block, rest: Block, bound: nat) {
    whole == rest || whole.pos > bound
  }

  /** Store one coefficient. */
  method Store(data: array<int>, dequant: seq<nat>, k: nat, v: int, ghost start: seq<int>,
               ghost coeffs: seq<Coefficient>)
    requires data.Length == |dequant| == |start| == 64 && k < 79
    requires data[..] == Place(start, coeffs, dequant)
    modifies data
    ensures data[..] == Place(start, coeffs + [Coefficient(k, v)], dequant)
  {
    hide Dezigzag, Short;
    var zig := Dezigzag(k);
    data[zig] := Short(v * dequant[zig]);
    assert (coeffs + [Coefficient(k, v)])[..|coeffs|] == coeffs;
  }

  /** The tables of an AC code, built by stbi__build_huffman and stbi__build_fast_ac. */
  ghost predicate Tables(h: JHuffman, fac: array<int>, sizes: seq<nat>)
    reads h, h.Arrays(), h.values, fac
  {
    && h.Built(sizes) && |sizes| <= 256 == h.values.Length && fac.Length == 512
    && (forall i :: 0 <= i < 256 ==> h.values[i] < 256)
    && (forall w :: 0 <= w < 512 ==> fac[w] == FastAc(sizes, h.values[..], w))
  }

  lemma {:induction false} TablesFacts(h: JHuffman, fac: array<int>, sizes: seq<nat>)
    requires Tables(h, fac, sizes)
    ensures h.Built(sizes) && |sizes| <= 256 == |h.values[..]| && fac.Length == 512
    ensures forall i :: 0 <= i < 256 ==> h.values[..][i] < 256
  {}

  /** A nonzero entry of the combined table agrees with decoding, and gives the length of code and value. */
  lemma {:induction false} CombinedEntry(h: JHuffman, fac: array<int>, sizes: seq<nat>, values: seq<nat>,
                                         data: seq<byte>, pos: nat, c: nat)
    requires Tables(h, fac, sizes) && values == h.values[..] && c == Msb(data, pos, 9) < 512
    ensures var r, found := fac[c], TableReading(sizes)(Msb(data, pos, 16));
      r == 0 || (&& found.Symbol? && found.id < |values| && r % 16 == found.length + values[found.id] % 16
                 && Agrees(true, r / 16 % 16, r / 256, Value, pos + r % 16, found, values, data, pos))
  {
    hide Msb, FastAc, Lookup, Extend, Canonical;
    if fac[c] != 0 {
      FastAcAgrees(sizes, values, data, pos);
    }
  }

  /** What Huffman decoding returned, as a kind of entry. */
  function KindOf(rs: nat): Kind {
    if rs % 16 != 0 then Value else if rs == 0xf0 then Zeros else EndOfBlock
  }

  /** Past the end of the data anything agrees. */
  lemma {:induction false} PastEndAgrees(ok: bool, run: nat, value: int, kind: Kind, pos': nat, total: nat,
                                         found: Found, values: seq<nat>, data: seq<byte>, pos: nat)
    requires found.Symbol? && found.id < |values| && total == found.length + values[found.id] % 16
    requires pos + total > 8 * |data|
    ensures Agrees(ok, run, value, kind, pos', found, values, data, pos)
  {}

  /** Huffman decoding, followed by the value bits if there are any. */
  lemma {:induction false} SlowAgrees(found: Found, values: seq<nat>, data: seq<byte>, pos: nat, rs: nat, q: nat,
                                      value: int, p: nat)
    requires found.Symbol? && found.id < |values| && rs == values[found.id] && q == pos + found.length
    requires rs % 16 == 0 ==> p == q
    requires rs % 16 != 0 ==>
      (p == q + rs % 16 && value == Extend(Msb(data, q, rs % 16), rs % 16)) || (p == q && q + rs % 16 > 8 * |data|)
    ensures Agrees(true, rs / 16, value, KindOf(rs), p, found, values, data, pos)
  {
    hide Extend, Msb;
  }

  lemma {:induction false} NothingAgrees(found: Found, values: seq<nat>, data: seq<byte>, pos: nat, pos': nat)
    requires found.Nothing? || (found.id < |values| && pos + found.length > 8 * |data|)
    ensures Agrees(false, 0, 0, Value, pos', found, values, data, pos)
  {}

  /** One coefficient or run, by the combined table or by Huffman code and value bits. */
  method DecodeOne(j: JReader, h: JHuffman, fac: array<int>, ghost sizes: seq<nat>)
    returns (ok: bool, run: nat, value: int, kind: Kind)
    requires j.Valid() && Tables(h, fac, sizes)
    modifies j
    ensures (ok ==> j.Valid()) && run <= 15
    ensures var found := TableReading(sizes)(Msb(j.stream, old(j.pos), 16));
      Agrees(ok, run, value, kind, j.pos, found, h.values[..], j.stream, old(j.pos))
  {
    TablesFacts(h, fac, sizes);
    hide Msb, Lookup, Extend, Agrees, JReader.Valid, JHuffman.Built, Tables;
    ghost var data, pos, values := j.stream, j.pos, h.values[..];
    ghost var found := TableReading(sizes)(Msb(data, pos, 16));
    if j.code_bits < 16 {
      j.GrowBuffer();
    }
    var c := j.PeekFast();
    var r := fac[c];
    CombinedEntry(h, fac, sizes, values, data, pos, c);
    if r != 0 {
      var s := r % 16;
      run := r / 16 % 16;
      if s > j.code_bits {
        PastEndAgrees(false, run, 0, Value, pos, s, found, values, data, pos);
        return false, run, 0, Value;
      }
      j.Consume(s);
      return true, run, r / 256, Value;
    }
    ok, run, value, kind := DecodeTwice(j, h, fac, sizes);
  }

  /** The other path: stbi__jpeg_huff_decode, then stbi__extend_receive if there are value bits. */
  method DecodeTwice(j: JReader, h: JHuffman, ghost fac: array<int>, ghost sizes: seq<nat>)
    returns (ok: bool, run: nat, value: int, kind: Kind)
    requires j.Valid() && Tables(h, fac, sizes)
    modifies j
    ensures (ok ==> j.Valid()) && run <= 15
    ensures var found := TableReading(sizes)(Msb(j.stream, old(j.pos), 16));
      Agrees(ok, run, value, kind, j.pos, found, h.values[..], j.stream, old(j.pos))
  {
    TablesFacts(h, fac, sizes);
    hide Msb, Lookup, Extend, Agrees, JReader.Valid, JHuffman.Built, Tables;
    ghost var data, pos, values := j.stream, j.pos, h.values[..];
    ghost var found := TableReading(sizes)(Msb(data, pos, 16));
    var rs := j.Decode(h, sizes);
    if rs < 0 {
      NothingAgrees(found, values, data, pos, j.pos);
      return false, 0, 0, Value;
    }
    value := 0;
    ghost var q := j.pos;
    if rs % 16 != 0 {
      value := j.ExtendReceive(rs % 16);
    }
    SlowAgrees(found, values, data, pos, rs, q, value, j.pos);
    return true, rs / 16, value, KindOf(rs);
  }

  /** What a round does to the rest of the block. */
  lemma {:induction false} RoundIsStep(code: Reading, values: seq<nat>, data: seq<byte>, pos: nat, k: nat,
                                       coeffs: seq<Coefficient>,
                                       ok: bool, run: nat, value: int, kind: Kind, pos': nat,
                                       at: nat, after: nat, skip: nat)
    requires k < 64 && at == k + run && after == at + 1 && skip == k + 16
    requires Agrees(ok, run, value, kind, pos', code(Msb(data, pos, 16)), values, data, pos)
    ensures var rest := AcRun(code, values, data, pos, k, coeffs);
      || rest.pos > 8 * |data|
      || (!ok && rest.Bad?)
      || (ok && rest == After(code, values, data, pos', coeffs, kind, value, at, after, skip))
  {}

  function After(code: Reading, values: seq<nat>, data: seq<byte>, pos: nat, coeffs: seq<Coefficient>,
                       kind: Kind, value: int, at: nat, after: nat, skip: nat): Block
  {
    match kind
    case EndOfBlock => Done(pos, coeffs)
    case Zeros => Continue(code, values, data, pos, skip, coeffs)
    case Value => Continue(code, values, data, pos, after, coeffs + [Coefficient(at, value)])
  }

  function Continue(code: Reading, values: seq<nat>, data: seq<byte>, pos: nat, k: nat, coeffs: seq<Coefficient>): Block
  {
    if k < 64 then AcRun(code, values, data, pos, k, coeffs) else Done(pos, coeffs)
  }

  datatype Kind = EndOfBlock | Zeros | Value

  /** What one round returns is what the code at `pos` says, unless it runs past the end of the data. */
  ghost predicate Agrees(ok: bool, run: nat, value: int, kind: Kind, pos': nat,
                         found: Found, values: seq<nat>, data: seq<byte>, pos: nat)
  {
    match found
    case Nothing => !ok
    case Symbol(id, len) =>
      && id < |values|
      && var rs, s := values[id], values[id] % 16;
         || pos + len + s > 8 * |data|
         || (&& ok && pos' == pos + len + s && run == rs / 16
             && kind == (if s != 0 then Value else if rs == 0xf0 then Zeros else EndOfBlock)
             && (s != 0 ==> value == Extend(Msb(data, pos + len, s), s)))
  }

  /** A round keeps the decoder on track, whichever way it ends. */
  lemma {:induction false} RoundStaysOnTrack(code: Reading, values: seq<nat>, data: seq<byte>, pos: nat, k: nat,
                                             coeffs: seq<Coefficient>,
                                             ok: bool, run: nat, value: int, kind: Kind, pos': nat,
                                             at: nat, after: nat, skip: nat, whole: Block)
    requires k < 64 && at == k + run && after == at + 1 && skip == k + 16
    requires Agrees(ok, run, value, kind, pos', code(Msb(data, pos, 16)), values, data, pos)
    requires OnTrack(whole, AcRun(code, values, data, pos, k, coeffs), 8 * |data|)
    ensures !ok ==> whole.pos > 8 * |data| || whole.Bad?
    ensures ok && kind == EndOfBlock ==> OnTrack(whole, Continue(code, values, data, pos', 64, coeffs), 8 * |data|)
    ensures ok && kind == Zeros ==> OnTrack(whole, Continue(code, values, data, pos', skip, coeffs), 8 * |data|)
    ensures ok && kind == Value ==>
      OnTrack(whole, Continue(code, values, data, pos', after, coeffs + [Coefficient(at, value)]), 8 * |data|)
  {
    hide AcRun, Agrees, Msb;
    RoundIsStep(code, values, data, pos, k, coeffs, ok, run, value, kind, pos', at, after, skip);
  }

  /** The coefficients so far are stored, and the decoder is on track for the others, from position `k` on. */
  ghost predicate InLoop(j: JReader, h: JHuffman, fac: array<int>, data: array<int>, dequant: seq<nat>, k: nat,
                         sizes: seq<nat>, values: seq<nat>, start: seq<int>, coeffs: seq<Coefficient>, whole: Block)
    reads j, h, h.Arrays(), h.values, fac, data
  {
    && j.Valid() && Tables(h, fac, sizes) && h.values[..] == values
    && data.Length == |dequant| == |start| == 64 && data[..] == Place(start, coeffs, dequant)
    && OnTrack(whole, Continue(TableReading(sizes), values, j.stream, j.pos, k, coeffs), 8 * |j.stream|)
  }

  /** One round of the AC loop: decode, then store. */
  method DecodeRound(j: JReader, h: JHuffman, fac: array<int>, data: array<int>, dequant: seq<nat>, k: nat,
                     ghost sizes: seq<nat>, ghost values: seq<nat>, ghost start: seq<int>,
                     ghost coeffs: seq<Coefficient>,
                     ghost whole: Block)
    returns (ok: bool, next: nat, ghost coeffs': seq<Coefficient>)
    requires InLoop(j, h, fac, data, dequant, k, sizes, values, start, coeffs, whole)
    requires data != fac && data as object !in h.Arrays() && 1 <= k < 64
    modifies j, data
    ensures !ok ==> whole.pos > 8 * |j.stream| || whole.Bad?
    ensures ok ==> InLoop(j, h, fac, data, dequant, next, sizes, values, start, coeffs', whole) && k < next
  {
    hide Place, AcRun, Tables, TableReading, Msb, Agrees, OnTrack, JHuffman.Built, JReader.Valid;
    ghost var pos, code := j.pos, TableReading(sizes);
    coeffs' := coeffs;
    var run, value, kind;
    ok, run, value, kind := DecodeOne(j, h, fac, sizes);
    var at, after, skip := k + run, k + run + 1, k + 16;
    RoundStaysOnTrack(code, values, j.stream, pos, k, coeffs, ok, run, value, kind, j.pos, at, after, skip, whole);
    next := k;
    if ok {
      if kind == EndOfBlock {
        next := 64;
      } else if kind == Zeros {
        next := skip;
      } else {
        Store(data, dequant, at, value, start, coeffs);
        next, coeffs' := after, coeffs + [Coefficient(at, value)];
      }
    }
  }

  /**
   The AC loop of stbi__jpeg_decode_block. A block that lies within the data is decoded to exactly the
   coefficients that its codes have by the tables, and rejected exactly if it contains an invalid code.
   */
  method DecodeAc(j: JReader, h: JHuffman, fac: array<int>, data: array<int>, dequant: seq<nat>, ghost sizes: seq<nat>)
    returns (ok: bool)
    requires j.Valid() && Tables(h, fac, sizes) && data.Length == |dequant| == 64
    requires data != fac && data != h.delta
    modifies j, data
    ensures var whole := AcRun(TableReading(sizes), h.values[..], j.stream, old(j.pos), 1, []);
      || whole.pos > 8 * |j.stream|
      || (&& (ok <==> whole.Done?)
          && (ok ==> j.Valid() && j.pos == whole.pos && data[..] == Place(old(data[..]), whole.coeffs, dequant)))
  {
    hide Place, AcRun, TableReading, Tables, JHuffman.Built;
    ghost var values, start := h.values[..], data[..];
    ghost var whole := AcRun(TableReading(sizes), values, j.stream, j.pos, 1, []);
    ghost var coeffs: seq<Coefficient> := [];
    PlaceNothing(start, dequant);
    var k := 1;
    ok := true;
    while k < 64
      invariant 1 <= k && ok && data as object !in h.Arrays()
      invariant InLoop(j, h, fac, data, dequant, k, sizes, values, start, coeffs, whole)
    {
      ok, k, coeffs := DecodeRound(j, h, fac, data, dequant, k, sizes, values, start, coeffs, whole);
      if !ok {
        return;
      }
    }
  }

  lemma {:induction false} PlaceNothing(block: seq<int>, dequant: seq<nat>)
    requires |block| == |dequant| == 64
    ensures Place(block, [], dequant) == block
  {}

  lemma {:induction false} SameStep(sizes: seq<nat>, values: seq<nat>, data: seq<byte>, pos: nat, k: nat,
                                    coeffs: seq<Coefficient>)
    requires IsSizeList(sizes) && |sizes| <= 256 && FlagIsFree(sizes)
    ensures AcStep(TableReading(sizes), values, data, pos, k, coeffs)
         == AcStep(AnnexReading(sizes), values, data, pos, k, coeffs)
  {
    hide Msb, Lookup, Canonical, Extend;
    LookupIsCanonical(sizes, Msb(data, pos, 16));
  }

  /** With the flag free, what the tables make of a block is what Annex C makes of it. */
  lemma {:induction false} RunIsCanonical(sizes: seq<nat>, values: seq<nat>, data: seq<byte>, pos: nat, k: nat,
                                          coeffs: seq<Coefficient>)
    requires IsSizeList(sizes) && |sizes| <= 256 && FlagIsFree(sizes)
    ensures AcRun(TableReading(sizes), values, data, pos, k, coeffs)
         == AcRun(AnnexReading(sizes), values, data, pos, k, coeffs)
    decreases 64 - k
  {
    SameStep(sizes, values, data, pos, k, coeffs);
    hide AcStep;
    match AcStep(AnnexReading(sizes), values, data, pos, k, coeffs) {
      case More(p, k', c) =>
        if k' > k {
          RunIsCanonical(sizes, values, data, p, k', c);
        }
      case _ =>
    }
  }
}
