/**
 The filters of section 9 of the PNG specification, and undoing them. A row is predicted
 from the pixel to the left, the row above, and the pixel above left.
 */
module PngFilter {
  import opened BitSequence
  import opened Wrappers

  // ----- the Paeth predictor

  function Abs(x: int): nat {
    if x < 0 then -x else x
  }

  /** Section 9.4: the neighbour closest to a + b - c, ties in the order a, b, c. */
  function PaethPredictor(a: byte, b: byte, c: byte): byte {
    var p := a as int + b - c;
    var pa, pb, pc := Abs(p - a), Abs(p - b), Abs(p - c);
    if pa <= pb && pa <= pc then a else if pb <= pc then b else c
  }

  /** stbi__paeth. */
  function Paeth(a: byte, b: byte, c: byte): byte {
    var thresh: int := c * 3 - (a + b);
    var lo := if a < b then a else b;
    var hi := if a < b then b else a;
    var t0 := if hi <= thresh then lo else c;
    if thresh <= lo then hi else t0
  }

  lemma {:induction false} PaethIsPredictor(a: byte, b: byte, c: byte)
    ensures Paeth(a, b, c) == PaethPredictor(a, b, c)
  {
    var p: int := a + b - c;
    assert p - a == b - c && p - b == a - c && p - c == a + b - 2 * c;
  }

  // ----- filtering and reconstruction of one row

  /** The filter types of section 9.2; 5 is the decoder's own, for Average without a row above. */
  function Predict(filter: nat, a: byte, b: byte, c: byte): byte {
    if filter == 1 then a
    else if filter == 2 then b
    else if filter == 3 then (a + b) / 2
    else if filter == 4 then PaethPredictor(a, b, c)
    else if filter == 5 then a / 2
    else 0
  }

  /** The byte `bpp` positions before `k`, zero at the left edge. */
  function Left(row: seq<byte>, k: nat, bpp: nat): byte
    requires k <= |row|
  {
    if 0 < bpp <= k then row[k - bpp] else 0
  }

  function PredictAt(filter: nat, row: seq<byte>, prior: seq<byte>, bpp: nat, k: nat): byte
    requires k <= |row| && k < |prior|
  {
    Predict(filter, Left(row, k, bpp), prior[k], Left(prior, k, bpp))
  }

  /** The first `n` reconstructed bytes, each predicted from bytes reconstructed before. */
  function Reconstruct(filter: nat, raw: seq<byte>, prior: seq<byte>, bpp: nat, n: nat): (row: seq<byte>)
    requires n <= |raw| == |prior|
    ensures |row| == n
  {
    if n == 0 then []
    else
      var row := Reconstruct(filter, raw, prior, bpp, n - 1);
      row + [(raw[n - 1] + PredictAt(filter, row, prior, bpp, n - 1)) % 256]
  }

  function ReconstructRow(filter: nat, raw: seq<byte>, prior: seq<byte>, bpp: nat): (row: seq<byte>)
    requires |raw| == |prior|
    ensures |row| == |raw|
  {
    Reconstruct(filter, raw, prior, bpp, |raw|)
  }

  /** What an encoder stores for a row. */
  function FilterRow(filter: nat, row: seq<byte>, prior: seq<byte>, bpp: nat): (raw: seq<byte>)
    requires |row| == |prior|
    ensures |raw| == |row|
  {
    seq(|row|, k requires 0 <= k < |row| => (row[k] + 256 - PredictAt(filter, row[..k], prior, bpp, k)) % 256)
  }

  lemma {:induction false} ReconstructPrefix(filter: nat, raw: seq<byte>, prior: seq<byte>, bpp: nat, m: nat, n: nat)
    requires m <= n <= |raw| == |prior|
    ensures Reconstruct(filter, raw, prior, bpp, n)[..m] == Reconstruct(filter, raw, prior, bpp, m)
  {
    if m < n {
      ReconstructPrefix(filter, raw, prior, bpp, m, n - 1);
    }
  }

  /** Every byte of the reconstructed row is the stored one plus the prediction from the row itself. */
  lemma {:induction false} ReconstructAt(filter: nat, raw: seq<byte>, prior: seq<byte>, bpp: nat, k: nat)
    requires k < |raw| == |prior|
    ensures var row := ReconstructRow(filter, raw, prior, bpp);
      row[k] == (raw[k] + PredictAt(filter, row, prior, bpp, k)) % 256
  {
    ReconstructPrefix(filter, raw, prior, bpp, k, |raw|);
    ReconstructPrefix(filter, raw, prior, bpp, k + 1, |raw|);
    var row, part := ReconstructRow(filter, raw, prior, bpp), Reconstruct(filter, raw, prior, bpp, k + 1);
    assert row[k] == row[..k + 1][k] == part[k];
    assert bpp <= k && bpp > 0 ==> row[k - bpp] == row[..k][k - bpp];
  }

  /** Adding a prediction undoes subtracting it. */
  lemma {:induction false} AddBack(x: byte, p: byte)
    ensures ((x + 256 - p) % 256 + p) % 256 == x
  {}

  /** Reconstruction inverts every filter, whatever the row above and the pixel size. */
  lemma {:induction false} UnfilterInvertsFilter(filter: nat, row: seq<byte>, prior: seq<byte>, bpp: nat, n: nat)
    requires n <= |row| == |prior|
    ensures Reconstruct(filter, FilterRow(filter, row, prior, bpp), prior, bpp, n) == row[..n]
  {
    if n > 0 {
      UnfilterInvertsFilter(filter, row, prior, bpp, n - 1);
      AddBack(row[n - 1], PredictAt(filter, row[..n - 1], prior, bpp, n - 1));
      assert row[..n] == row[..n - 1] + [row[n - 1]];
    }
  }

  // ----- the first row

  /** first_row_filter: which filter to use where there is no row above. */
  function FirstRowFilter(filter: nat): nat {
    if filter == 2 then 0 else if filter == 3 then 5 else if filter == 4 then 1 else filter
  }

  /** The special filters do what the general ones do under a row of zeros, whatever the buffer for that row holds. */
  lemma {:induction false} FirstRow(filter: nat, raw: seq<byte>, any: seq<byte>, bpp: nat, n: nat)
    requires filter <= 4 && n <= |raw| == |any|
    ensures Reconstruct(filter, raw, Zeros(|raw|), bpp, n) == Reconstruct(FirstRowFilter(filter), raw, any, bpp, n)
  {
    if n > 0 {
      FirstRow(filter, raw, any, bpp, n - 1);
    }
  }

  // ----- a whole image

  datatype Line = Line(filter: nat, bytes: seq<byte>)

  /** The rows of an image from its scan lines; an invalid filter type makes it fail. */
  function Unfilter(lines: seq<Line>, prior: seq<byte>, bpp: nat): Option<seq<seq<byte>>>
    requires forall i :: 0 <= i < |lines| ==> |lines[i].bytes| == |prior|
  {
    if lines == [] then Some([])
    else if lines[0].filter > 4 then None
    else
      var row := ReconstructRow(lines[0].filter, lines[0].bytes, prior, bpp);
      match Unfilter(lines[1..], row, bpp)
      case None => None
      case Some(rest) => Some([row] + rest)
  }

  /** An encoder's scan lines, with any choice of filters. */
  function FilterImage(rows: seq<seq<byte>>, filters: seq<nat>, prior: seq<byte>, bpp: nat): (lines: seq<Line>)
    requires |filters| == |rows| && forall i :: 0 <= i < |rows| ==> |rows[i]| == |prior|
    ensures |lines| == |rows| && forall i :: 0 <= i < |lines| ==> |lines[i].bytes| == |prior|
  {
    if rows == [] then []
    else
      [Line(filters[0], FilterRow(filters[0], rows[0], prior, bpp))]
      + FilterImage(rows[1..], filters[1..], rows[0], bpp)
  }

  /** Any image, filtered with any valid filter types, comes back. */
  lemma {:induction false} ImageRoundTrip(rows: seq<seq<byte>>, filters: seq<nat>, prior: seq<byte>, bpp: nat)
    requires |filters| == |rows| && forall i :: 0 <= i < |rows| ==> |rows[i]| == |prior|
    requires forall i :: 0 <= i < |filters| ==> filters[i] <= 4
    ensures Unfilter(FilterImage(rows, filters, prior, bpp), prior, bpp) == Some(rows)
    decreases |rows|
  {
    if rows != [] {
      var lines := FilterImage(rows, filters, prior, bpp);
      assert lines[1..] == FilterImage(rows[1..], filters[1..], rows[0], bpp);
      UnfilterInvertsFilter(filters[0], rows[0], prior, bpp, |rows[0]|);
      assert rows[0][..|rows[0]|] == rows[0] && [rows[0]] + rows[1..] == rows;
      ImageRoundTrip(rows[1..], filters[1..], rows[0], bpp);
    }
  }
}
