/**
 What the filters of section 9 of the PNG specification say about a decoded image, byte by byte: each stored byte is
 the difference between the image and a prediction from the pixels to the left, above, and above left.
 */
module PngRows {
  import opened Wrappers
  import opened BitSequence
  import opened PngFilter

  /** The distance of `x` from a + b - c. */
  function Off(x: int, a: byte, b: byte, c: byte): nat {
    Abs(x - (a as int + b - c))
  }

  /**
   `p` is the prediction of a filter type. None predicts zero, Sub the left neighbour, Up the one above; Average the
   half of their sum, rounded down; Paeth the neighbour nearest to a + b - c, the left one before the upper one before
   the upper left one where they are equally near.
   */
  predicate IsPrediction(filter: nat, p: nat, a: byte, b: byte, c: byte) {
    match filter
    case 0 => p == 0
    case 1 => p == a
    case 2 => p == b
    case 3 => 2 * p <= a as int + b <= 2 * p + 1
    case 4 =>
      && (p == a || p == b || p == c)
      && Off(p, a, b, c) <= Off(a, a, b, c) && Off(p, a, b, c) <= Off(b, a, b, c) && Off(p, a, b, c) <= Off(c, a, b, c)
      && (p == a || Off(p, a, b, c) < Off(a, a, b, c)) && (p == a || p == b || Off(p, a, b, c) < Off(b, a, b, c))
    case _ => false
  }

  /** Exactly one number is the prediction of a valid filter type. */
  lemma {:induction false} OnePrediction(filter: nat, p: nat, a: byte, b: byte, c: byte)
    requires filter <= 4
    ensures IsPrediction(filter, p, a, b, c) <==> p == Predict(filter, a, b, c)
  {}

  // ----- rows

  /** The byte to the left, zero at the edge. */
  function LeftOf(rows: seq<seq<byte>>, bpp: nat, j: nat, k: nat): byte
    requires j < |rows| && k < |rows[j]|
  {
    if k < bpp then 0 else rows[j][k - bpp]
  }

  /** The byte above, zero in the first row. */
  function AboveOf(rows: seq<seq<byte>>, j: nat, k: nat): byte
    requires j < |rows| && (j > 0 ==> k < |rows[j - 1]|)
  {
    if j == 0 then 0 else rows[j - 1][k]
  }

  /** The byte above left, zero at both edges. */
  function AboveLeftOf(rows: seq<seq<byte>>, bpp: nat, j: nat, k: nat): byte
    requires j < |rows| && (j > 0 ==> k < |rows[j - 1]|)
  {
    if j == 0 || k < bpp then 0 else rows[j - 1][k - bpp]
  }

  predicate ValidFilters(lines: seq<Line>) {
    forall j :: 0 <= j < |lines| ==> lines[j].filter <= 4
  }

  predicate Rectangular(rows: seq<seq<byte>>, y: nat, nk: nat) {
    |rows| == y && forall j :: 0 <= j < y ==> |rows[j]| == nk
  }

  function Difference(x: byte, y: byte): byte {
    (x as int + 256 - y) % 256
  }

  /** What the stored byte `k` of row `j` must be. */
  predicate ByteAgrees(filter: nat, stored: byte, rows: seq<seq<byte>>, bpp: nat, j: nat, k: nat)
    requires j < |rows| && k < |rows[j]| && (j > 0 ==> k < |rows[j - 1]|)
  {
    IsPrediction(filter, Difference(rows[j][k], stored), LeftOf(rows, bpp, j, k), AboveOf(rows, j, k),
                 AboveLeftOf(rows, bpp, j, k))
  }

  lemma {:induction false} TakeAway(stored: byte, p: byte)
    ensures Difference((stored + p) % 256, stored) == p
  {}

  /** One row under the row above. */
  lemma {:induction false} RowAgrees(filter: nat, raw: seq<byte>, prior: seq<byte>, bpp: nat, k: nat)
    requires filter <= 4 && k < |raw| == |prior| && bpp > 0
    ensures var row := ReconstructRow(filter, raw, prior, bpp);
      IsPrediction(filter, Difference(row[k], raw[k]), if k < bpp then 0 else row[k - bpp], prior[k],
                   if k < bpp then 0 else prior[k - bpp])
  {
    hide Reconstruct, Predict, IsPrediction;
    ReconstructAt(filter, raw, prior, bpp, k);
    var row := ReconstructRow(filter, raw, prior, bpp);
    var a, c := Left(row, k, bpp), Left(prior, k, bpp);
    TakeAway(raw[k], Predict(filter, a, prior[k], c));
    OnePrediction(filter, Predict(filter, a, prior[k], c), a, prior[k], c);
  }

  /** The rows that unfiltering gives, from row `j` on under the row above. */
  lemma {:induction false} UnfilteredRow(lines: seq<Line>, prior: seq<byte>, bpp: nat, rows: seq<seq<byte>>, j: nat)
    requires forall i :: 0 <= i < |lines| ==> |lines[i].bytes| == |prior|
    requires Unfilter(lines, prior, bpp) == Some(rows) && j < |lines|
    ensures |rows| == |lines| && (forall i :: 0 <= i < |rows| ==> |rows[i]| == |prior|) && lines[j].filter <= 4
    ensures rows[j] == ReconstructRow(lines[j].filter, lines[j].bytes, if j == 0 then prior else rows[j - 1], bpp)
    decreases |lines|
  {
    hide ReconstructRow;
    var row := ReconstructRow(lines[0].filter, lines[0].bytes, prior, bpp);
    var rest := Unfilter(lines[1..], row, bpp).value;
    if |lines| > 1 {
      UnfilteredRow(lines[1..], row, bpp, rest, if j > 0 then j - 1 else 0);
    }
  }

  lemma {:induction false} UnfilterFails(lines: seq<Line>, prior: seq<byte>, bpp: nat)
    requires forall i :: 0 <= i < |lines| ==> |lines[i].bytes| == |prior|
    ensures Unfilter(lines, prior, bpp).Some? <==> ValidFilters(lines)
    decreases |lines|
  {
    hide ReconstructRow;
    if lines != [] && lines[0].filter <= 4 {
      var row := ReconstructRow(lines[0].filter, lines[0].bytes, prior, bpp);
      UnfilterFails(lines[1..], row, bpp);
      assert lines == [lines[0]] + lines[1..];
    }
  }

  /** Every byte of the image agrees with what is stored for it. */
  lemma {:induction false} LinesAgree(lines: seq<Line>, nk: nat, bpp: nat, rows: seq<seq<byte>>, j: nat, k: nat)
    requires forall i :: 0 <= i < |lines| ==> |lines[i].bytes| == nk
    requires Unfilter(lines, Zeros(nk), bpp) == Some(rows) && j < |lines| && k < nk && bpp > 0
    ensures Rectangular(rows, |lines|, nk) && lines[j].filter <= 4
    ensures ByteAgrees(lines[j].filter, lines[j].bytes[k], rows, bpp, j, k)
  {
    hide Unfilter, ReconstructRow, IsPrediction;
    UnfilteredRow(lines, Zeros(nk), bpp, rows, j);
    RowAgrees(lines[j].filter, lines[j].bytes, if j == 0 then Zeros(nk) else rows[j - 1], bpp, k);
  }

  /** Every byte of an image agrees with what is stored for it. */
  ghost predicate ImageAgrees(lines: seq<Line>, rows: seq<seq<byte>>, bpp: nat, nk: nat) {
    Rectangular(rows, |lines|, nk) && forall j, k :: 0 <= j < |lines| && 0 <= k < nk && k < |lines[j].bytes| ==>
      ByteAgrees(lines[j].filter, lines[j].bytes[k], rows, bpp, j, k)
  }

  lemma {:induction false} UnfilteredAgrees(lines: seq<Line>, nk: nat, bpp: nat)
    requires (forall i :: 0 <= i < |lines| ==> |lines[i].bytes| == nk) && bpp > 0
    ensures var r := Unfilter(lines, Zeros(nk), bpp);
      if ValidFilters(lines) then r.Some? && ImageAgrees(lines, r.value, bpp, nk) else r.None?
  {
    hide Unfilter, ByteAgrees;
    UnfilterFails(lines, Zeros(nk), bpp);
    var r := Unfilter(lines, Zeros(nk), bpp);
    if r.Some? {
      if |lines| > 0 {
        UnfilteredRow(lines, Zeros(nk), bpp, r.value, 0);
      } else {
        NothingToUnfilter(Zeros(nk), bpp);
      }
      forall j, k | 0 <= j < |lines| && 0 <= k < nk ensures Rectangular(r.value, |lines|, nk)
        && ByteAgrees(lines[j].filter, lines[j].bytes[k], r.value, bpp, j, k)
      {
        LinesAgree(lines, nk, bpp, r.value, j, k);
      }
    }
  }

  lemma {:induction false} NothingToUnfilter(prior: seq<byte>, bpp: nat)
    ensures Unfilter([], prior, bpp) == Some([])
  {}
}
