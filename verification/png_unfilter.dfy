/** Undoing the filters in two alternating halves of one buffer, row by row. */
module PngUnfilter {
  import opened BitSequence
  import opened Wrappers
  import opened PngFilter
  import opened PngRows

  /** The first `n` bytes of the row at `cur` are those of `row`. */
  ghost predicate RowHolds(buf: array<byte>, cur: nat, n: nat, row: seq<byte>)
    reads buf
  {
    cur + n <= buf.Length && n <= |row| && buf[cur..cur + n] == row[..n]
  }

  /** Everything but the row at `cur` is as in `before`. */
  ghost predicate RestHolds(buf: array<byte>, cur: nat, nk: nat, before: seq<byte>)
    reads buf
  {
    buf.Length == |before| && forall i :: 0 <= i < |before| && !(cur <= i < cur + nk) ==> buf[i] == before[i]
  }

  /** Where the two rows of a job are, and what they hold. */
  ghost predicate Job(buf: array<byte>, cur: nat, prior: nat, nk: nat, bpp: nat, raw: seq<byte>, above: seq<byte>)
    reads buf
  {
    && |raw| == |above| == nk && 0 < bpp <= nk
    && cur + nk <= buf.Length && prior + nk <= buf.Length && (cur + nk <= prior || prior + nk <= cur)
    && buf[prior..prior + nk] == above
  }

  /** Store the next byte of the row. */
  method PutByte(buf: array<byte>, cur: nat, k: nat, v: byte, ghost nk: nat, ghost row: seq<byte>,
                 ghost before: seq<byte>)
    requires RowHolds(buf, cur, k, row) && RestHolds(buf, cur, nk, before) && k < nk == |row| && cur + nk <= buf.Length
    requires v == row[k]
    modifies buf
    ensures RowHolds(buf, cur, k + 1, row) && RestHolds(buf, cur, nk, before)
  {
    buf[cur + k] := v;
    assert row[..k + 1] == row[..k] + [row[k]];
    assert buf[cur..cur + k + 1] == buf[cur..cur + k] + [buf[cur + k]];
  }

  /** Bytes of the row above, and of the row so far, while the row is being written. */
  lemma {:induction false} Neighbours(buf: array<byte>, cur: nat, prior: nat, nk: nat, bpp: nat, raw: seq<byte>,
                                      above: seq<byte>,
                                      before: seq<byte>, row: seq<byte>, k: nat)
    requires |raw| == |above| == |row| == nk && 0 < bpp <= nk && k < nk && |before| == buf.Length
    requires cur + nk <= buf.Length && prior + nk <= buf.Length && (cur + nk <= prior || prior + nk <= cur)
    requires before[prior..prior + nk] == above
    requires RowHolds(buf, cur, k, row) && RestHolds(buf, cur, nk, before)
    ensures buf[prior + k] == above[k]
    ensures k >= bpp ==> buf[prior + k - bpp] == above[k - bpp] && buf[cur + k - bpp] == row[k - bpp]
  {
    assert above[k] == before[prior..prior + nk][k] == before[prior + k];
    if k >= bpp {
      assert above[k - bpp] == before[prior..prior + nk][k - bpp] == before[prior + (k - bpp)];
      assert row[k - bpp] == row[..k][k - bpp] == buf[cur..cur + k][k - bpp] == buf[cur + (k - bpp)];
    }
  }

  /** No filter. */
  method UnfilterNone(buf: array<byte>, cur: nat, prior: nat, nk: nat, bpp: nat, raw: seq<byte>, ghost above: seq<byte>)
    requires Job(buf, cur, prior, nk, bpp, raw, above)
    modifies buf
    ensures RowHolds(buf, cur, nk, ReconstructRow(0, raw, above, bpp)) && RestHolds(buf, cur, nk, old(buf[..]))
  {
    ghost var before, row := buf[..], ReconstructRow(0, raw, above, bpp);
    hide RowHolds, RestHolds, Reconstruct, PaethPredictor, Paeth;
    for k := 0 to nk
      invariant RowHolds(buf, cur, k, row) && RestHolds(buf, cur, nk, before)
    {
      ReconstructAt(0, raw, above, bpp, k);
      PutByte(buf, cur, k, raw[k], nk, row, before);
    }
  }

  /** Sub. */
  method UnfilterSub(buf: array<byte>, cur: nat, prior: nat, nk: nat, bpp: nat, raw: seq<byte>, ghost above: seq<byte>)
    requires Job(buf, cur, prior, nk, bpp, raw, above)
    modifies buf
    ensures RowHolds(buf, cur, nk, ReconstructRow(1, raw, above, bpp)) && RestHolds(buf, cur, nk, old(buf[..]))
  {
    ghost var before, row := buf[..], ReconstructRow(1, raw, above, bpp);
    hide RowHolds, RestHolds, Reconstruct, PaethPredictor, Paeth;
    for k := 0 to bpp
      invariant RowHolds(buf, cur, k, row) && RestHolds(buf, cur, nk, before)
    {
      ReconstructAt(1, raw, above, bpp, k);
      PutByte(buf, cur, k, raw[k], nk, row, before);
    }
    for k := bpp to nk
      invariant RowHolds(buf, cur, k, row) && RestHolds(buf, cur, nk, before)
    {
      ReconstructAt(1, raw, above, bpp, k);
      Neighbours(buf, cur, prior, nk, bpp, raw, above, before, row, k);
      PutByte(buf, cur, k, (raw[k] as int + buf[cur + k - bpp]) % 256, nk, row, before);
    }
  }

  /** Up. */
  method UnfilterUp(buf: array<byte>, cur: nat, prior: nat, nk: nat, bpp: nat, raw: seq<byte>, ghost above: seq<byte>)
    requires Job(buf, cur, prior, nk, bpp, raw, above)
    modifies buf
    ensures RowHolds(buf, cur, nk, ReconstructRow(2, raw, above, bpp)) && RestHolds(buf, cur, nk, old(buf[..]))
  {
    ghost var before, row := buf[..], ReconstructRow(2, raw, above, bpp);
    hide RowHolds, RestHolds, Reconstruct, PaethPredictor, Paeth;
    for k := 0 to nk
      invariant RowHolds(buf, cur, k, row) && RestHolds(buf, cur, nk, before)
    {
      ReconstructAt(2, raw, above, bpp, k);
      Neighbours(buf, cur, prior, nk, bpp, raw, above, before, row, k);
      PutByte(buf, cur, k, (raw[k] as int + buf[prior + k]) % 256, nk, row, before);
    }
  }

  /** Average. */
  method UnfilterAvg(buf: array<byte>, cur: nat, prior: nat, nk: nat, bpp: nat, raw: seq<byte>, ghost above: seq<byte>)
    requires Job(buf, cur, prior, nk, bpp, raw, above)
    modifies buf
    ensures RowHolds(buf, cur, nk, ReconstructRow(3, raw, above, bpp)) && RestHolds(buf, cur, nk, old(buf[..]))
  {
    ghost var before, row := buf[..], ReconstructRow(3, raw, above, bpp);
    hide RowHolds, RestHolds, Reconstruct, PaethPredictor, Paeth;
    for k := 0 to bpp
      invariant RowHolds(buf, cur, k, row) && RestHolds(buf, cur, nk, before)
    {
      ReconstructAt(3, raw, above, bpp, k);
      Neighbours(buf, cur, prior, nk, bpp, raw, above, before, row, k);
      PutByte(buf, cur, k, (raw[k] as int + buf[prior + k] / 2) % 256, nk, row, before);
    }
    for k := bpp to nk
      invariant RowHolds(buf, cur, k, row) && RestHolds(buf, cur, nk, before)
    {
      ReconstructAt(3, raw, above, bpp, k);
      Neighbours(buf, cur, prior, nk, bpp, raw, above, before, row, k);
      PutByte(buf, cur, k, (raw[k] as int + (buf[prior + k] as int + buf[cur + k - bpp]) / 2) % 256, nk, row, before);
    }
  }

  /** Paeth; at the left edge the predictor is the byte above. */
  method UnfilterPaeth(buf: array<byte>, cur: nat, prior: nat, nk: nat, bpp: nat, raw: seq<byte>,
                       ghost above: seq<byte>)
    requires Job(buf, cur, prior, nk, bpp, raw, above)
    modifies buf
    ensures RowHolds(buf, cur, nk, ReconstructRow(4, raw, above, bpp)) && RestHolds(buf, cur, nk, old(buf[..]))
  {
    ghost var before, row := buf[..], ReconstructRow(4, raw, above, bpp);
    hide RowHolds, RestHolds, Reconstruct, PaethPredictor, Paeth;
    for k := 0 to bpp
      invariant RowHolds(buf, cur, k, row) && RestHolds(buf, cur, nk, before)
    {
      ReconstructAt(4, raw, above, bpp, k);
      Neighbours(buf, cur, prior, nk, bpp, raw, above, before, row, k);
      PutByte(buf, cur, k, (raw[k] as int + buf[prior + k]) % 256, nk, row, before);
    }
    for k := bpp to nk
      invariant RowHolds(buf, cur, k, row) && RestHolds(buf, cur, nk, before)
    {
      ReconstructAt(4, raw, above, bpp, k);
      Neighbours(buf, cur, prior, nk, bpp, raw, above, before, row, k);
      PaethIsPredictor(row[k - bpp], above[k], above[k - bpp]);
      var p := Paeth(buf[cur + k - bpp], buf[prior + k], buf[prior + k - bpp]);
      PutByte(buf, cur, k, (raw[k] as int + p) % 256, nk, row, before);
    }
  }

  /** Average in the first row. */
  method UnfilterAvgFirst(buf: array<byte>, cur: nat, prior: nat, nk: nat, bpp: nat, raw: seq<byte>,
                          ghost above: seq<byte>)
    requires Job(buf, cur, prior, nk, bpp, raw, above)
    modifies buf
    ensures RowHolds(buf, cur, nk, ReconstructRow(5, raw, above, bpp)) && RestHolds(buf, cur, nk, old(buf[..]))
  {
    ghost var before, row := buf[..], ReconstructRow(5, raw, above, bpp);
    hide RowHolds, RestHolds, Reconstruct, PaethPredictor, Paeth;
    for k := 0 to bpp
      invariant RowHolds(buf, cur, k, row) && RestHolds(buf, cur, nk, before)
    {
      ReconstructAt(5, raw, above, bpp, k);
      PutByte(buf, cur, k, raw[k], nk, row, before);
    }
    for k := bpp to nk
      invariant RowHolds(buf, cur, k, row) && RestHolds(buf, cur, nk, before)
    {
      ReconstructAt(5, raw, above, bpp, k);
      Neighbours(buf, cur, prior, nk, bpp, raw, above, before, row, k);
      PutByte(buf, cur, k, (raw[k] as int + buf[cur + k - bpp] / 2) % 256, nk, row, before);
    }
  }

  /** The switch over the filter types. */
  method UnfilterRow(buf: array<byte>, cur: nat, prior: nat, nk: nat, bpp: nat, raw: seq<byte>, filter: nat,
                     ghost above: seq<byte>)
    requires Job(buf, cur, prior, nk, bpp, raw, above) && filter <= 5
    modifies buf
    ensures RowHolds(buf, cur, nk, ReconstructRow(filter, raw, above, bpp)) && RestHolds(buf, cur, nk, old(buf[..]))
  {
    if filter == 0 {
      UnfilterNone(buf, cur, prior, nk, bpp, raw, above);
    } else if filter == 1 {
      UnfilterSub(buf, cur, prior, nk, bpp, raw, above);
    } else if filter == 2 {
      UnfilterUp(buf, cur, prior, nk, bpp, raw, above);
    } else if filter == 3 {
      UnfilterAvg(buf, cur, prior, nk, bpp, raw, above);
    } else if filter == 4 {
      UnfilterPaeth(buf, cur, prior, nk, bpp, raw, above);
    } else {
      UnfilterAvgFirst(buf, cur, prior, nk, bpp, raw, above);
    }
  }

  // ----- all rows

  /** How many bytes `y` scan lines take. */
  function Need(nk: nat, y: nat): nat {
    if y == 0 then 0 else nk + 1 + Need(nk, y - 1)
  }

  lemma {:induction false} NeedIsProduct(nk: nat, y: nat)
    ensures Need(nk, y) == (nk + 1) * y
  {
    if y > 0 {
      NeedIsProduct(nk, y - 1);
      assert (nk + 1) * y == (nk + 1) * (y - 1) + (nk + 1);
    }
  }

  /** The scan lines in the inflated data: a filter byte, then the row. */
  function Lines(raw: seq<byte>, nk: nat, y: nat): (lines: seq<Line>)
    requires |raw| >= Need(nk, y)
    ensures |lines| == y && forall i :: 0 <= i < y ==> |lines[i].bytes| == nk
    decreases y
  {
    if y == 0 then [] else [Line(raw[0], raw[1..nk + 1])] + Lines(raw[nk + 1..], nk, y - 1)
  }

  function Concat(rows: seq<seq<byte>>): seq<byte> {
    if rows == [] then [] else Concat(rows[..|rows| - 1]) + rows[|rows| - 1]
  }

  function Prepend(done: seq<seq<byte>>, rest: Option<seq<seq<byte>>>): Option<seq<seq<byte>>> {
    match rest
    case None => None
    case Some(r) => Some(done + r)
  }

  /** Unfiltering one more line. */
  lemma {:induction false} UnfilterStep(lines: seq<Line>, prior: seq<byte>, bpp: nat, done: seq<seq<byte>>)
    requires lines != [] && forall i :: 0 <= i < |lines| ==> |lines[i].bytes| == |prior|
    ensures lines[0].filter > 4 ==> Prepend(done, Unfilter(lines, prior, bpp)) == None
    ensures lines[0].filter <= 4 ==> var row := ReconstructRow(lines[0].filter, lines[0].bytes, prior, bpp);
      Prepend(done, Unfilter(lines, prior, bpp)) == Prepend(done + [row], Unfilter(lines[1..], row, bpp))
  {
    if lines[0].filter <= 4 {
      var row := ReconstructRow(lines[0].filter, lines[0].bytes, prior, bpp);
      match Unfilter(lines[1..], row, bpp)
      case None =>
      case Some(r) => assert done + ([row] + r) == (done + [row]) + r;
    }
  }

  /** The half of the buffer that holds row `j`: (j & 1) times the row length. */
  function Half(j: nat, nk: nat): nat {
    if j % 2 == 0 then 0 else nk
  }

  /** The half for row `j` holds `row`. */
  ghost predicate HalfHolds(buf: array<byte>, j: nat, nk: nat, row: seq<byte>)
    reads buf
  {
    buf.Length == 2 * nk && var at := Half(j, nk); buf[at..at + nk] == row
  }

  /** One row: undo its filter under the row above, or with the special filters in the first row. */
  method NextRow(buf: array<byte>, j: nat, nk: nat, bpp: nat, raw: seq<byte>, f: nat, ghost above: seq<byte>,
                 ghost odd: nat)
    requires odd == j + 1 && buf.Length == 2 * nk && |raw| == |above| == nk && 0 < bpp <= nk && f <= 4
    requires if j == 0 then above == Zeros(nk) else HalfHolds(buf, odd, nk, above)
    modifies buf
    ensures HalfHolds(buf, j, nk, ReconstructRow(f, raw, above, bpp))
  {
    hide Reconstruct, Zeros, FirstRowFilter;
    var cur, prior := Half(j, nk), Half(j + 1, nk);
    ghost var there := buf[prior..prior + nk];
    var filter := f;
    if j == 0 {
      filter := FirstRowFilter(f);
      FirstRow(f, raw, there, bpp, nk);
      FirstFilters(f);
    }
    UnfilterRow(buf, cur, prior, nk, bpp, raw, filter, there);
    ghost var row := ReconstructRow(f, raw, above, bpp);
    assert row[..nk] == row;
  }

  lemma {:induction false} FirstFilters(f: nat)
    requires f <= 4
    ensures FirstRowFilter(f) <= 5
  {}

  /** The filter byte and the row that follow. */
  method TakeLine(raw: seq<byte>, at: nat, nk: nat, ghost rest: seq<byte>, ghost left: nat, ghost fewer: nat)
    returns (filter: nat, bytes: seq<byte>, next: nat, ghost tail: seq<byte>)
    requires at <= |raw| && rest == raw[at..] && left == fewer + 1 && |rest| >= Need(nk, left)
    ensures |bytes| == nk && next <= |raw| && tail == raw[next..] && |tail| >= Need(nk, fewer)
    ensures var lines := Lines(rest, nk, left); lines[0] == Line(filter, bytes) && lines[1..] == Lines(tail, nk, fewer)
  {
    hide Lines, Need;
    NeedStep(nk, left, fewer);
    LinesStep(rest, nk, left, fewer);
    next := at + 1 + nk;
    filter, bytes, tail := raw[at], raw[at + 1..next], rest[nk + 1..];
    assert rest[1..nk + 1] == bytes;
  }

  /**
   The row loop of stbi__create_png_image_raw, for eight-bit samples without an added alpha channel.
   It fails exactly on too little data or an invalid filter type; otherwise the output is the rows of the
   image. Extra data at the end is ignored.
   */
  method CreateRows(raw: seq<byte>, y: nat, nk: nat, bpp: nat) returns (ok: bool, out: array<byte>)
    requires 0 < bpp <= nk
    ensures |raw| < Need(nk, y) ==> !ok
    ensures |raw| >= Need(nk, y) ==>
      match Unfilter(Lines(raw, nk, y), Zeros(nk), bpp)
      case None => !ok
      case Some(rows) => ok && out[..] == Concat(rows)
    ensures |raw| >= Need(nk, y) ==>
      var lines := Lines(raw, nk, y);
      && (ok <==> ValidFilters(lines))
      && (ok ==> exists rows :: out[..] == Concat(rows) && ImageAgrees(lines, rows, bpp, nk))
  {
    hide Unfilter, ImageAgrees, Concat, Lines;
    NeedIsProduct(nk, y);
    RoomIsProduct(nk, y);
    out := new byte[y * nk];
    if |raw| < (nk + 1) * y {
      return false, out;
    }
    UnfilteredAgrees(Lines(raw, nk, y), nk, bpp);
    ok := AllRows(raw, y, nk, bpp, out);
  }

  /** The loop over the rows. */
  method AllRows(raw: seq<byte>, y: nat, nk: nat, bpp: nat, out: array<byte>) returns (ok: bool)
    requires 0 < bpp <= nk && |raw| >= Need(nk, y) && out.Length == Room(nk, y)
    modifies out
    ensures match Unfilter(Lines(raw, nk, y), Zeros(nk), bpp)
      case None => !ok
      case Some(rows) => ok && out[..] == Concat(rows)
  {
    assert Concat([]) == [] == out[..0];
    hide ReconstructRow, Need, Room, Zeros, Lines, Unfilter, Prepend, Concat, Half, HalfHolds;
    PrependNone(Unfilter(Lines(raw, nk, y), Zeros(nk), bpp));
    var filter_buf := new byte[2 * nk];
    ghost var whole := Unfilter(Lines(raw, nk, y), Zeros(nk), bpp);
    ghost var done: seq<seq<byte>>, above, rest, left, odd := [], Zeros(nk), raw, y, 1;
    var at: nat, dest: nat := 0, 0;
    assert raw[0..] == raw;
    for j := 0 to y
      invariant left == y - j && at <= |raw| && rest == raw[at..] && |rest| >= Need(nk, left)
      invariant dest + Room(nk, left) == out.Length && out[..dest] == Concat(done)
      invariant |above| == nk && (j == 0 ==> above == Zeros(nk))
      invariant odd == j + 1 && filter_buf.Length == 2 * nk && (j > 0 ==> HalfHolds(filter_buf, odd, nk, above))
      invariant whole == Prepend(done, Unfilter(Lines(rest, nk, left), above, bpp))
    {
      ghost var fewer: nat := left - 1;
      RoomStep(nk, left, fewer);
      UnfilterStep(Lines(rest, nk, left), above, bpp, done);
      var end := dest + nk;
      var filter, bytes;
      filter, bytes, at, rest := TakeLine(raw, at, nk, rest, left, fewer);
      if filter > 4 {
        return false;
      }
      NextRow(filter_buf, j, nk, bpp, bytes, filter, above, odd);
      above, odd := ReconstructRow(filter, bytes, above, bpp), odd + 1;
      CopyHalf(filter_buf, j, out, dest, nk, end, above);
      HalvesAlternate(filter_buf, j, nk, odd, above);
      ConcatSnoc(done, above);
      done, left, dest := done + [above], fewer, end;
    }
    assert left == 0;
    AllDone(rest, nk, above, bpp, done);
    assert dest == out.Length && out[..dest] == out[..];
    return true;
  }

  /** The size of `n` rows. */
  function Room(nk: nat, n: nat): nat {
    if n == 0 then 0 else nk + Room(nk, n - 1)
  }

  lemma {:induction false} RoomIsProduct(nk: nat, n: nat)
    ensures Room(nk, n) == n * nk
  {
    if n > 0 {
      RoomIsProduct(nk, n - 1);
      assert n * nk == (n - 1) * nk + nk;
    }
  }

  lemma {:induction false} RoomStep(nk: nat, n: nat, fewer: nat)
    requires n == fewer + 1
    ensures Room(nk, n) == nk + Room(nk, fewer)
  {}

  /** The current row is the prior one of the next round. */
  lemma {:induction false} HalvesAlternate(buf: array<byte>, j: nat, nk: nat, odd: nat, row: seq<byte>)
    requires odd == j + 2 && HalfHolds(buf, j, nk, row)
    ensures HalfHolds(buf, odd, nk, row)
  {}

  lemma {:induction false} PrependNone(rest: Option<seq<seq<byte>>>)
    ensures Prepend([], rest) == rest
  {
    match rest
    case None =>
    case Some(r) => assert [] + r == r;
  }

  /** After the last line nothing is left to unfilter. */
  lemma {:induction false} AllDone(raw: seq<byte>, nk: nat, above: seq<byte>, bpp: nat, done: seq<seq<byte>>)
    requires |above| == nk
    ensures Room(nk, 0) == 0 && Prepend(done, Unfilter(Lines(raw, nk, 0), above, bpp)) == Some(done)
  {
    assert done + [] == done;
  }

  lemma {:induction false} ConcatSnoc(rows: seq<seq<byte>>, row: seq<byte>)
    ensures Concat(rows + [row]) == Concat(rows) + row
  {
    assert (rows + [row])[..|rows|] == rows;
  }

  lemma {:induction false} NeedStep(nk: nat, y: nat, fewer: nat)
    requires y == fewer + 1
    ensures Need(nk, y) == nk + 1 + Need(nk, fewer)
  {}

  lemma {:induction false} LinesStep(raw: seq<byte>, nk: nat, y: nat, fewer: nat)
    requires y == fewer + 1 && |raw| >= Need(nk, y)
    ensures var lines := Lines(raw, nk, y);
      lines[0] == Line(raw[0], raw[1..nk + 1]) && lines[1..] == Lines(raw[nk + 1..], nk, fewer)
  {}

  method CopyHalf(src: array<byte>, j: nat, dst: array<byte>, to: nat, nk: nat, ghost end: nat, ghost row: seq<byte>)
    requires src != dst && HalfHolds(src, j, nk, row) && end == to + nk <= dst.Length
    modifies dst
    ensures dst[..end] == old(dst[..to]) + row
  {
    CopyRow(src, Half(j, nk), dst, to, nk, end);
  }

  /** memcpy of a row to its place in the output. */
  method CopyRow(src: array<byte>, from: nat, dst: array<byte>, to: nat, n: nat, ghost end: nat)
    requires src != dst && from + n <= src.Length && end == to + n <= dst.Length
    modifies dst
    ensures dst[..end] == old(dst[..to]) + src[from..from + n]
  {
    for i := 0 to n
      invariant dst[..to + i] == old(dst[..to]) + src[from..from + i]
    {
      dst[to + i] := src[from + i];
      assert src[from..from + i + 1] == src[from..from + i] + [src[from + i]];
      assert dst[..to + (i + 1)] == dst[..to + i] + [src[from + i]];
    }
  }

  // ----- and back

  /** Scan lines as an encoder writes them. */
  function Serialize(lines: seq<Line>): seq<byte>
    requires forall i :: 0 <= i < |lines| ==> lines[i].filter <= 4
  {
    if lines == [] then [] else [lines[0].filter] + lines[0].bytes + Serialize(lines[1..])
  }

  lemma {:induction false} LinesOfSerialize(lines: seq<Line>, nk: nat, extra: seq<byte>)
    requires forall i :: 0 <= i < |lines| ==> lines[i].filter <= 4 && |lines[i].bytes| == nk
    ensures |Serialize(lines) + extra| >= Need(nk, |lines|) && Lines(Serialize(lines) + extra, nk, |lines|) == lines
    decreases |lines|
  {
    if lines != [] {
      hide Lines, Need, Serialize;
      var tail := lines[1..];
      var rest := Serialize(tail) + extra;
      LinesOfSerialize(tail, nk, extra);
      SerializeHead(lines, tail, extra);
      LinesFrom(lines[0], rest, nk, |lines|, |tail|);
      assert [lines[0]] + tail == lines;
    } else {
      assert Need(nk, 0) == 0;
    }
  }

  lemma {:induction false} SerializeHead(lines: seq<Line>, tail: seq<Line>, extra: seq<byte>)
    requires lines != [] && tail == lines[1..] && forall i :: 0 <= i < |lines| ==> lines[i].filter <= 4
    ensures Serialize(lines) + extra == [lines[0].filter] + lines[0].bytes + (Serialize(tail) + extra)
  {}

  /** The first line of the data. */
  lemma {:induction false} LinesFrom(line: Line, rest: seq<byte>, nk: nat, y: nat, fewer: nat)
    requires y == fewer + 1 && line.filter <= 4 && |line.bytes| == nk && |rest| >= Need(nk, fewer)
    ensures var raw := [line.filter] + line.bytes + rest;
      |raw| >= Need(nk, y) && Lines(raw, nk, y) == [line] + Lines(rest, nk, fewer)
  {
    var raw := [line.filter] + line.bytes + rest;
    NeedStep(nk, y, fewer);
    assert raw[1..nk + 1] == line.bytes && raw[nk + 1..] == rest;
  }

  lemma {:induction false} FiltersKept(rows: seq<seq<byte>>, filters: seq<nat>, prior: seq<byte>, bpp: nat)
    requires |filters| == |rows| && forall i :: 0 <= i < |rows| ==> |rows[i]| == |prior|
    ensures forall i :: 0 <= i < |rows| ==> FilterImage(rows, filters, prior, bpp)[i].filter == filters[i]
    decreases |rows|
  {
    if rows != [] {
      FiltersKept(rows[1..], filters[1..], rows[0], bpp);
      var lines := FilterImage(rows, filters, prior, bpp);
      forall i | 0 <= i < |rows| ensures lines[i].filter == filters[i] {
        if i > 0 {
          assert lines[i] == lines[1..][i - 1];
        }
      }
    }
  }

  /** What an encoder wrote, with any filters and any bytes behind, decodes to the image. */
  lemma {:induction false} DecodeEncoded(rows: seq<seq<byte>>, filters: seq<nat>, nk: nat, bpp: nat, extra: seq<byte>)
    requires |filters| == |rows| && forall i :: 0 <= i < |rows| ==> |rows[i]| == nk
    requires forall i :: 0 <= i < |filters| ==> filters[i] <= 4
    ensures var lines := FilterImage(rows, filters, Zeros(nk), bpp);
      && (forall i :: 0 <= i < |lines| ==> lines[i].filter <= 4)
      && var raw := Serialize(lines) + extra;
         |raw| >= Need(nk, |rows|) && Unfilter(Lines(raw, nk, |rows|), Zeros(nk), bpp) == Some(rows)
  {
    FiltersKept(rows, filters, Zeros(nk), bpp);
    ImageRoundTrip(rows, filters, Zeros(nk), bpp);
    LinesOfSerialize(FilterImage(rows, filters, Zeros(nk), bpp), nk, extra);
  }
}
