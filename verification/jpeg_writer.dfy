/**
 Coding the AC coefficients of a block as an encoder does (section F.1.2.2 of ITU-T T.81), in the zig-zag order of
 Figure A.6. Decoding gives the coefficients back.
 */
module JpegWriter {
  import opened Bits
  import opened BitSequence
  import opened BitWriter
  import opened CanonicalCodes
  import opened JpegCodes
  import opened JpegFastAc
  import opened JpegBlock
  import opened JpegReader

  // ----- the zig-zag order

  /** The next place in the block: along the anti-diagonals, up and down in turn, turning at the edges. */
  function NextPlace(z: nat): nat
    requires z < 63
  {
    var row, col := z / 8, z % 8;
    if (row + col) % 2 == 0 then
      if col == 7 then z + 8 else if row == 0 then z + 1 else z - 7
    else
      if row == 7 then z + 1 else if col == 0 then z + 8 else z + 7
  }

  lemma {:induction false} ZigzagWalks(k: nat)
    requires k < 63
    ensures Dezigzag(k) < 63 && Dezigzag(k + 1) == NextPlace(Dezigzag(k))
  {
    hide ZigzagRow, NextPlace;
    var row, i := k / 8, k % 8;
    if row < 4 {
      UpperWalk(row, i);
    } else {
      LowerWalk(row, i);
    }
    RowsMeet(row);
    Following(k, row, i);
  }

  lemma {:induction false} Following(k: nat, row: nat, i: nat)
    requires k == 8 * row + i && i < 8
    ensures if i < 7 then (k + 1) / 8 == row && (k + 1) % 8 == i + 1 else (k + 1) / 8 == row + 1 && (k + 1) % 8 == 0
  {
    if i < 7 {
      DivModUnique(k + 1, 8, row, i + 1);
    } else {
      DivModUnique(k + 1, 8, row + 1, 0);
    }
  }

  lemma {:induction false} UpperWalk(row: nat, i: nat)
    requires row < 4 && i < 8
    ensures ZigzagRow(row)[i] < 63
    ensures i < 7 ==> ZigzagRow(row)[i + 1] == NextPlace(ZigzagRow(row)[i])
  {
    match row {
      case 0 =>
      case 1 =>
      case 2 =>
      case _ =>
    }
  }

  lemma {:induction false} LowerWalk(row: nat, i: nat)
    requires 4 <= row < 8 && i < 8
    ensures ZigzagRow(row)[i] < 63 || (row == 7 && i == 7)
    ensures i < 7 ==> ZigzagRow(row)[i] < 63 && ZigzagRow(row)[i + 1] == NextPlace(ZigzagRow(row)[i])
  {
    match row {
      case 4 =>
      case 5 =>
      case 6 =>
      case _ =>
    }
  }

  lemma {:induction false} RowsMeet(row: nat)
    requires row < 8
    ensures row < 7 ==> ZigzagRow(row)[7] < 63 && ZigzagRow(row + 1)[0] == NextPlace(ZigzagRow(row)[7])
  {}

  /** It starts in the upper left corner and ends in the lower right one; positions past the end stay there. */
  lemma {:induction false} ZigzagEnds(k: nat)
    requires k >= 63
    ensures Dezigzag(0) == 0 && Dezigzag(k) == 63
  {}

  /** Figure A.6, row by row: the position of each place of the block in the order. */
  function FigureA6(row: nat): (r: seq<nat>)
    requires row < 8
    ensures |r| == 8 && forall i :: 0 <= i < 8 ==> r[i] < 64
  {
    match row
    case 0 => [0, 1, 5, 6, 14, 15, 27, 28]
    case 1 => [2, 4, 7, 13, 16, 26, 29, 42]
    case 2 => [3, 8, 12, 17, 25, 30, 41, 43]
    case 3 => [9, 11, 18, 24, 31, 40, 44, 53]
    case 4 => [10, 19, 23, 32, 39, 45, 52, 54]
    case 5 => [20, 22, 33, 38, 46, 51, 55, 60]
    case 6 => [21, 34, 37, 47, 50, 56, 59, 61]
    case _ => [35, 36, 48, 49, 57, 58, 62, 63]
  }

  function PositionOf(z: nat): (k: nat)
    requires z < 64
    ensures k < 64
  {
    FigureA6(z / 8)[z % 8]
  }

  /** The order goes through each place once, at the position that the figure gives. */
  lemma {:induction false} ZigzagIsFigure(k: nat, z: nat)
    requires k < 64 && z < 64
    ensures Dezigzag(k) == z <==> PositionOf(z) == k
  {
    hide ZigzagRow, FigureA6;
    if k / 8 < 2 {
      UpperPositions(k / 8, k % 8);
    } else if k / 8 < 4 {
      MiddlePositions(k / 8, k % 8);
    } else {
      LowerPositions(k / 8, k % 8);
    }
    if z / 8 < 4 {
      UpperPlaces(z / 8, z % 8);
    } else {
      LowerPlaces(z / 8, z % 8);
    }
  }

  lemma {:induction false} UpperPositions(row: nat, i: nat)
    requires row < 2 && i < 8
    ensures ZigzagRow(row)[i] < 64 && PositionOf(ZigzagRow(row)[i]) == 8 * row + i
  {
    match row {
      case 0 =>
      case _ =>
    }
  }

  lemma {:induction false} MiddlePositions(row: nat, i: nat)
    requires 2 <= row < 4 && i < 8
    ensures ZigzagRow(row)[i] < 64 && PositionOf(ZigzagRow(row)[i]) == 8 * row + i
  {
    match row {
      case 2 =>
      case _ =>
    }
  }

  lemma {:induction false} LowerPositions(row: nat, i: nat)
    requires 4 <= row < 8 && i < 8
    ensures ZigzagRow(row)[i] < 64 && PositionOf(ZigzagRow(row)[i]) == 8 * row + i
  {
    match row {
      case 4 =>
      case 5 =>
      case 6 =>
      case _ =>
    }
  }

  lemma {:induction false} UpperPlaces(row: nat, i: nat)
    requires row < 4 && i < 8
    ensures Dezigzag(FigureA6(row)[i]) == 8 * row + i
  {
    match row {
      case 0 =>
      case 1 =>
      case 2 =>
      case _ =>
    }
  }

  lemma {:induction false} LowerPlaces(row: nat, i: nat)
    requires 4 <= row < 8 && i < 8
    ensures Dezigzag(FigureA6(row)[i]) == 8 * row + i
  {
    match row {
      case 4 =>
      case 5 =>
      case 6 =>
      case _ =>
    }
  }

  // ----- values

  /** How many bits the magnitude has: the category of Table F.2. */
  function Category(v: int): (t: nat)
    decreases if v < 0 then 1 - v else v
  {
    if v < 0 then Category(-v) else if v == 0 then 0 else 1 + Category(v / 2)
  }

  lemma {:induction false} CategoryBounds(v: int)
    ensures v == 0 <==> Category(v) == 0
    ensures v > 0 ==> Pow2(Category(v) - 1) <= v < Pow2(Category(v))
    ensures v < 0 ==> Pow2(Category(v) - 1) <= -v < Pow2(Category(v))
    decreases if v < 0 then 1 - v else v
  {
    if v < 0 {
      CategoryBounds(-v);
    } else if v > 1 {
      CategoryBounds(v / 2);
    }
  }

  /** The low bits that are sent: of the value if it is positive, otherwise of the value less one. */
  function ValueOf(v: int): (x: nat)
    requires v != 0
    ensures x < Pow2(Category(v))
  {
    CategoryBounds(v);
    if v > 0 then v else v - 1 + Pow2(Category(v))
  }

  /** EXTEND gives the value back. */
  lemma {:induction false} ExtendInverts(v: int)
    requires v != 0
    ensures Extend(ValueOf(v), Category(v)) == v
  {
    CategoryBounds(v);
    assert Pow2(Category(v)) == 2 * Pow2(Category(v) - 1);
  }

  // ----- the coefficients of a block

  /** Nonzero values at rising positions from `k` on, of categories that four bits can name. */
  ghost predicate AreCoefficients(coeffs: seq<Coefficient>, k: nat)
    decreases |coeffs|
  {
    coeffs != [] ==>
      && k <= coeffs[0].k < 64 && coeffs[0].value != 0 && Category(coeffs[0].value) <= 15
      && AreCoefficients(coeffs[1..], coeffs[0].k + 1)
  }

  /** Some symbol with a code has this value. */
  predicate HasValue(sizes: seq<nat>, values: seq<nat>, id: nat, rs: nat) {
    id < |sizes| && id < |values| && values[id] == rs && 0 < sizes[id] <= 16
  }

  ghost predicate CanCode(sizes: seq<nat>, values: seq<nat>, rs: nat) {
    exists id: nat :: HasValue(sizes, values, id, rs)
  }

  ghost function RunBits(sizes: seq<nat>, values: seq<nat>, rs: nat): seq<bool>
    requires CanCode(sizes, values, rs)
  {
    var id: nat :| HasValue(sizes, values, id, rs);
    CodeBits(SymbolCode(sizes, id), sizes[id])
  }

  /** Sixteen zeros, a run of less than sixteen zeros with a value, and the end of the block. */
  ghost predicate CanCodeAll(sizes: seq<nat>, values: seq<nat>) {
    && CanCode(sizes, values, 0xf0) && CanCode(sizes, values, 0)
    && forall run, t :: 0 <= run < 16 && 1 <= t <= 15 ==> CanCode(sizes, values, RunAndSize(run, t))
  }

  function RunAndSize(run: nat, t: nat): nat {
    16 * run + t
  }

  /** Figures F.2 and F.3: the block from position `k` on. */
  ghost function BlockBits(sizes: seq<nat>, values: seq<nat>, coeffs: seq<Coefficient>, k: nat): seq<bool>
    requires CanCodeAll(sizes, values) && AreCoefficients(coeffs, k)
    decreases |coeffs|, 64 - k
  {
    if coeffs == [] then
      if k < 64 then RunBits(sizes, values, 0) else []
    else
      var zeros, v := coeffs[0].k - k, coeffs[0].value;
      if zeros >= 16 then RunBits(sizes, values, 0xf0) + BlockBits(sizes, values, coeffs, k + 16)
      else
        CategoryBounds(v);
        RunBits(sizes, values, RunAndSize(zeros, Category(v)))
        + (CodeBits(ValueOf(v), Category(v)) + BlockBits(sizes, values, coeffs[1..], coeffs[0].k + 1))
  }

  /** A code at the front of the data is read as its symbol. */
  lemma {:induction false} RunReads(sizes: seq<nat>, values: seq<nat>, rs: nat, data: seq<byte>, pos: nat)
    requires NotOversubscribed(sizes) && CanCode(sizes, values, rs) && MsbAt(data, pos, RunBits(sizes, values, rs))
    ensures var found := Canonical(sizes, Msb(data, pos, 16));
      found.Symbol? && found.id < |values| && values[found.id] == rs && found.length == |RunBits(sizes, values, rs)|
  {
    hide NotOversubscribed, CodeBits, MsbBits, Msb, SymbolCode;
    var id := CodedSymbol(sizes, values, rs);
    CodeFitsLength(sizes, id);
    ReadsMsb(data, pos, SymbolCode(sizes, id), sizes[id]);
    var n := 16 - sizes[id];
    assert sizes[id] + n == 16;
    MsbPrefix(data, pos, sizes[id], n);
    CanonicalIs(sizes, Msb(data, pos, 16), id);
  }

  lemma {:induction false} CodedSymbol(sizes: seq<nat>, values: seq<nat>, rs: nat) returns (id: nat)
    requires CanCode(sizes, values, rs)
    ensures HasValue(sizes, values, id, rs) && RunBits(sizes, values, rs) == CodeBits(SymbolCode(sizes, id), sizes[id])
  {
    id :| HasValue(sizes, values, id, rs) && RunBits(sizes, values, rs) == CodeBits(SymbolCode(sizes, id), sizes[id]);
  }

  /** Sixteen zeros. */
  lemma {:induction false} ZerosRead(sizes: seq<nat>, values: seq<nat>, data: seq<byte>, pos: nat, k: nat,
                                     before: seq<Coefficient>)
    requires NotOversubscribed(sizes) && CanCode(sizes, values, 0xf0)
    requires MsbAt(data, pos, RunBits(sizes, values, 0xf0))
    ensures AcStep(AnnexReading(sizes), values, data, pos, k, before)
            == Next(pos + |RunBits(sizes, values, 0xf0)|, k + 16, before)
  {
    hide RunBits, Msb, MsbBits, Canonical, Extend;
    RunReads(sizes, values, 0xf0, data, pos);
  }

  /** The end of the block. */
  lemma {:induction false} EndReads(sizes: seq<nat>, values: seq<nat>, data: seq<byte>, pos: nat, k: nat,
                                    before: seq<Coefficient>)
    requires NotOversubscribed(sizes) && CanCode(sizes, values, 0) && MsbAt(data, pos, RunBits(sizes, values, 0))
    ensures AcStep(AnnexReading(sizes), values, data, pos, k, before)
            == Done(pos + |RunBits(sizes, values, 0)|, before)
  {
    hide RunBits, Msb, MsbBits, Canonical, Extend;
    RunReads(sizes, values, 0, data, pos);
  }

  /** A run of zeros and a value. */
  lemma {:induction false} ValueReads(sizes: seq<nat>, values: seq<nat>, data: seq<byte>, pos: nat, k: nat,
                                      before: seq<Coefficient>, run: nat, v: int, mid: nat)
    requires NotOversubscribed(sizes) && v != 0 && run < 16 && Category(v) <= 15
    requires CanCode(sizes, values, RunAndSize(run, Category(v)))
    requires mid == pos + |RunBits(sizes, values, RunAndSize(run, Category(v)))|
    requires MsbAt(data, pos, RunBits(sizes, values, RunAndSize(run, Category(v))))
    requires MsbAt(data, mid, CodeBits(ValueOf(v), Category(v)))
    ensures AcStep(AnnexReading(sizes), values, data, pos, k, before)
            == Next(mid + Category(v), k + run + 1, before + [Coefficient(k + run, v)])
  {
    hide RunBits, Msb, MsbBits, CodeBits, Canonical, Extend, ValueOf;
    CategoryBounds(v);
    var t := Category(v);
    RunReads(sizes, values, RunAndSize(run, t), data, pos);
    ReadsMsb(data, mid, ValueOf(v), t);
    ExtendInverts(v);
    DivModUnique(RunAndSize(run, t), 16, run, t);
  }

  lemma {:induction false} RunOn(code: Reading, values: seq<nat>, data: seq<byte>, pos: nat, k: nat,
                                 before: seq<Coefficient>, p: nat, k': nat, after: seq<Coefficient>)
    requires k < k' && k < 64 && AcStep(code, values, data, pos, k, before) == Next(p, k', after)
    ensures Continue(code, values, data, pos, k, before) == Continue(code, values, data, p, k', after)
  {
    hide AcStep;
  }

  /** Decoding the bits of a block gives its coefficients, and ends where they end. */
  lemma {:induction false} BlockDecodes(sizes: seq<nat>, values: seq<nat>, data: seq<byte>, pos: nat, k: nat,
                                        coeffs: seq<Coefficient>, before: seq<Coefficient>)
    requires NotOversubscribed(sizes) && CanCodeAll(sizes, values) && AreCoefficients(coeffs, k)
    requires MsbAt(data, pos, BlockBits(sizes, values, coeffs, k))
    ensures Continue(AnnexReading(sizes), values, data, pos, k, before)
            == Done(pos + |BlockBits(sizes, values, coeffs, k)|, before + coeffs)
    decreases |coeffs|, 64 - k
  {
    hide NotOversubscribed, RunBits, MsbBits, CodeBits, AcStep, AnnexReading, CanCode, ValueOf;
    var code := AnnexReading(sizes);
    if coeffs == [] {
      assert before + coeffs == before;
      if k < 64 {
        EndReads(sizes, values, data, pos, k, before);
        EndsHere(code, values, data, pos, k, before, pos + |RunBits(sizes, values, 0)|);
      }
    } else {
      var zeros, v := coeffs[0].k - k, coeffs[0].value;
      if zeros >= 16 {
        var mid := pos + |RunBits(sizes, values, 0xf0)|;
        MsbAtSplit(data, pos, RunBits(sizes, values, 0xf0), BlockBits(sizes, values, coeffs, k + 16), mid);
        ZerosRead(sizes, values, data, pos, k, before);
        RunOn(code, values, data, pos, k, before, mid, k + 16, before);
        BlockDecodes(sizes, values, data, mid, k + 16, coeffs, before);
      } else {
        CoefficientReads(sizes, values, data, pos, k, coeffs, before);
        var mid := pos + |RunBits(sizes, values, RunAndSize(zeros, Category(v)))| + Category(v);
        var more := before + [coeffs[0]];
        RunOn(code, values, data, pos, k, before, mid, coeffs[0].k + 1, more);
        BlockDecodes(sizes, values, data, mid, coeffs[0].k + 1, coeffs[1..], more);
        assert more + coeffs[1..] == before + coeffs;
      }
    }
  }

  lemma {:induction false} EndsHere(code: Reading, values: seq<nat>, data: seq<byte>, pos: nat, k: nat,
                                    before: seq<Coefficient>, p: nat)
    requires k < 64 && AcStep(code, values, data, pos, k, before) == Done(p, before)
    ensures Continue(code, values, data, pos, k, before) == Done(p, before)
  {
    hide AcStep;
  }

  lemma {:induction false} CoefficientReads(sizes: seq<nat>, values: seq<nat>, data: seq<byte>, pos: nat, k: nat,
                                            coeffs: seq<Coefficient>, before: seq<Coefficient>)
    requires NotOversubscribed(sizes) && CanCodeAll(sizes, values) && AreCoefficients(coeffs, k)
    requires coeffs != [] && coeffs[0].k - k < 16 && MsbAt(data, pos, BlockBits(sizes, values, coeffs, k))
    ensures CanCode(sizes, values, RunAndSize(coeffs[0].k - k, Category(coeffs[0].value)))
    ensures var run, t := coeffs[0].k - k, Category(coeffs[0].value);
      var mid := pos + |RunBits(sizes, values, RunAndSize(run, t))| + t;
      && AcStep(AnnexReading(sizes), values, data, pos, k, before)
         == Next(mid, coeffs[0].k + 1, before + [coeffs[0]])
      && MsbAt(data, mid, BlockBits(sizes, values, coeffs[1..], coeffs[0].k + 1))
  {
    hide NotOversubscribed, RunBits, MsbBits, CodeBits, AcStep, AnnexReading, CanCode, ValueOf;
    var run, v := coeffs[0].k - k, coeffs[0].value;
    var t := Category(v);
    CategoryBounds(v);
    var a, b, c := RunBits(sizes, values, RunAndSize(run, t)), CodeBits(ValueOf(v), t),
                   BlockBits(sizes, values, coeffs[1..], coeffs[0].k + 1);
    MsbAtSplit(data, pos, a, b + c, pos + |a|);
    MsbAtSplit(data, pos + |a|, b, c, pos + |a| + t);
    ValueReads(sizes, values, data, pos, k, before, run, v, pos + |a|);
  }

  /** A place that no coefficient belongs to keeps what it holds. */
  lemma {:induction false} PlaceKept(start: seq<int>, coeffs: seq<Coefficient>, dequant: seq<nat>, z: nat)
    requires |start| == |dequant| == 64 && z < 64
    requires forall i :: 0 <= i < |coeffs| ==> coeffs[i].k < 64 && coeffs[i].k != PositionOf(z)
    ensures Place(start, coeffs, dequant)[z] == start[z]
    decreases |coeffs|
  {
    if coeffs != [] {
      hide Dezigzag, PositionOf, Short;
      var n := |coeffs| - 1;
      PlaceKept(start, coeffs[..n], dequant, z);
      ZigzagIsFigure(coeffs[n].k, z);
    }
  }

  /** A coefficient lands, dequantized, at the place that Figure A.6 gives its position. */
  lemma {:induction false} CoefficientPlaced(start: seq<int>, coeffs: seq<Coefficient>, dequant: seq<nat>, z: nat,
                                             i: nat)
    requires |start| == |dequant| == 64 && z < 64 && i < |coeffs| && coeffs[i].k == PositionOf(z)
    requires forall j :: i < j < |coeffs| ==> coeffs[j].k < 64 && coeffs[j].k != PositionOf(z)
    ensures Place(start, coeffs, dequant)[z] == Short(coeffs[i].value * dequant[z])
    decreases |coeffs|
  {
    hide Dezigzag, PositionOf, Short;
    var n := |coeffs| - 1;
    ZigzagIsFigure(coeffs[n].k, z);
    if i < n {
      CoefficientPlaced(start, coeffs[..n], dequant, z, i);
    }
  }

  // ----- byte stuffing

  /** Section B.1.1.5: a zero byte follows every 0xff of the entropy-coded data. */
  function Stuffed(s: seq<byte>): seq<byte> {
    if s == [] then [] else (if s[0] == 0xff then [0xff, 0] else [s[0]]) + Stuffed(s[1..])
  }

  /** What follows is a marker, after any number of fill bytes, or nothing. */
  predicate IsMarker(rest: seq<byte>) {
    rest == [] || (|rest| > 1 && rest[0] == 0xff && rest[SkipFill(rest, 1)..] != [] && rest[SkipFill(rest, 1)] != 0)
  }

  lemma {:induction false} SkipFillAt(before: seq<byte>, rest: seq<byte>, i: nat)
    requires i <= |rest|
    ensures SkipFill(before + rest, |before| + i) == |before| + SkipFill(rest, i)
    decreases |rest| - i
  {
    if i < |rest| && rest[i] == 0xff {
      SkipFillAt(before, rest, i + 1);
    }
  }

  /** Taking the stuffing out gives the data, up to the marker. */
  lemma {:induction false} UnstuffInverts(s: seq<byte>, before: seq<byte>, rest: seq<byte>)
    requires IsMarker(rest)
    ensures Unstuff(before + Stuffed(s) + rest, |before|) == s
    decreases |s|
  {
    var raw := before + Stuffed(s) + rest;
    if s == [] {
      assert raw == before + rest;
      if rest != [] {
        SkipFillAt(before, rest, 1);
      }
    } else if s[0] == 0xff {
      var head := before + [0xff, 0];
      assert raw == head + Stuffed(s[1..]) + rest;
      UnstuffInverts(s[1..], head, rest);
    } else {
      var head := before + [s[0]];
      assert raw == head + Stuffed(s[1..]) + rest;
      UnstuffInverts(s[1..], head, rest);
    }
  }

  /** The product is kept in sixteen bits, with the sign. */
  lemma {:induction false} ShortIsWord(x: int)
    ensures -0x8000 <= Short(x) < 0x8000 && Short(x) % 0x1_0000 == x % 0x1_0000
    ensures -0x8000 <= x < 0x8000 ==> Short(x) == x
  {}
}
