/**
 The order in which a GIF frame is drawn: row by row, or in the four passes of Appendix E
 of GIF89a. Positions count pixels; the source counts bytes, four per pixel.
 */
module GifInterlace {
  import opened Bits

  /** Every `step`-th row from `row` on. */
  function Pass(row: nat, step: nat, h: nat): seq<nat>
    requires step > 0
    decreases h - row
  {
    if row >= h then [] else [row] + Pass(row + step, step, h)
  }

  /** The passes that follow when `parse` of them are left. */
  function LaterPasses(parse: nat, h: nat): seq<nat> {
    if parse == 0 then []
    else if parse == 1 then Pass(1, 2, h)
    else if parse == 2 then Pass(2, 4, h) + Pass(1, 2, h)
    else Pass(4, 8, h) + Pass(2, 4, h) + Pass(1, 2, h)
  }

  /** The rows of a frame of height `h` in drawing order. */
  function RowOrder(interlaced: bool, h: nat): seq<nat> {
    if interlaced then Pass(0, 8, h) + LaterPasses(3, h) else Pass(0, 1, h)
  }

  datatype Frame = Frame(startX: nat, startY: nat, w: nat, h: nat, lineSize: nat)

  function Index(f: Frame, col: nat, row: nat): nat {
    f.startX + col + (f.startY + row * f.lineSize)
  }

  /** The pixels still to be drawn, from column `col` of the first of the given rows. */
  function Path(f: Frame, col: nat, rows: seq<nat>): seq<nat>
    decreases |rows|, f.w - col
  {
    if rows == [] then []
    else if col < f.w then [Index(f, col, rows[0])] + Path(f, col + 1, rows)
    else Path(f, 0, rows[1..])
  }

  // ----- each row, and each pixel, exactly once

  function Occurrences(s: seq<nat>, x: nat): nat {
    if s == [] then 0 else (if s[0] == x then 1 else 0) + Occurrences(s[1..], x)
  }

  lemma {:induction false} OccurrencesConcat(s: seq<nat>, t: seq<nat>, x: nat)
    ensures Occurrences(s + t, x) == Occurrences(s, x) + Occurrences(t, x)
  {
    if s == [] {
      assert s + t == t;
    } else {
      assert (s + t)[1..] == s[1..] + t;
      OccurrencesConcat(s[1..], t, x);
    }
  }

  /** From a row on, the next one with its remainder is a step further. */
  lemma {:induction false} NextOfPass(row: nat, step: nat, r: nat)
    requires step == 1 || step == 2 || step == 4 || step == 8
    ensures row + step <= r ==> ((r - (row + step)) % step == 0 <==> (r - row) % step == 0)
    ensures row < r < row + step ==> (r - row) % step != 0
    ensures (row - row) % step == 0
  {
    if row + step <= r {
      var d: nat := r - (row + step);
      assert (d + step) % step == d % step by {
        AddStep(d, step);
      }
    }
  }

  lemma {:induction false} AddStep(d: nat, step: nat)
    requires step == 1 || step == 2 || step == 4 || step == 8
    ensures (d + step) % step == d % step
  {}

  /** A pass draws the rows with the right remainder, once each. */
  lemma {:induction false} PassOnce(row: nat, step: nat, h: nat, r: nat)
    requires step == 1 || step == 2 || step == 4 || step == 8
    ensures Occurrences(Pass(row, step, h), r) == if row <= r < h && (r - row) % step == 0 then 1 else 0
    decreases h - row
  {
    if row < h {
      PassOnce(row + step, step, h, r);
      assert Pass(row, step, h)[1..] == Pass(row + step, step, h);
      NextOfPass(row, step, r);
    }
  }

  /** The four passes split the rows by remainder. */
  lemma {:induction false} Residues(r: nat)
    ensures (if r % 8 == 0 then 1 else 0) + (if 4 <= r && (r - 4) % 8 == 0 then 1 else 0)
          + (if 2 <= r && (r - 2) % 4 == 0 then 1 else 0) + (if 1 <= r && (r - 1) % 2 == 0 then 1 else 0) == 1
  {
    var k, q := r / 8, r % 8;
    assert r == 8 * k + q;
  }

  /** Both drawing orders reach each row of the frame exactly once, and no other row. */
  lemma {:induction false} RowOrderIsPermutation(interlaced: bool, h: nat, r: nat)
    ensures Occurrences(RowOrder(interlaced, h), r) == if r < h then 1 else 0
  {
    hide Pass, Occurrences;
    var a, b, c, d := Pass(0, 8, h), Pass(4, 8, h), Pass(2, 4, h), Pass(1, 2, h);
    if interlaced {
      OccurrencesConcat(a, b + c + d, r);
      OccurrencesConcat(b + c, d, r);
      OccurrencesConcat(b, c, r);
      PassOnce(0, 8, h, r);
      PassOnce(4, 8, h, r);
      PassOnce(2, 4, h, r);
      PassOnce(1, 2, h, r);
      Residues(r);
    } else {
      PassOnce(0, 1, h, r);
    }
  }

  /** Different pixels of the frame have different positions. */
  lemma {:induction false} IndexInjective(f: Frame, c: nat, r: nat, c': nat, r': nat)
    requires c < f.w && c' < f.w && f.w <= f.lineSize
    ensures Index(f, c, r) == Index(f, c', r') <==> c == c' && r == r'
  {
    if r < r' {
      MulStrict(r, r', f.lineSize);
    } else if r' < r {
      MulStrict(r', r, f.lineSize);
    }
  }

  lemma {:induction false} PathOccurrences(f: Frame, col: nat, rows: seq<nat>, c: nat, r: nat)
    requires c < f.w <= f.lineSize && col <= f.w
    ensures Occurrences(Path(f, col, rows), Index(f, c, r))
         == Occurrences(rows, r) - if rows != [] && rows[0] == r && c < col then 1 else 0
    decreases |rows|, f.w - col
  {
    if rows != [] {
      if col < f.w {
        IndexInjective(f, col, rows[0], c, r);
        PathOccurrences(f, col + 1, rows, c, r);
        assert Path(f, col, rows)[1..] == Path(f, col + 1, rows);
      } else {
        PathOccurrences(f, 0, rows[1..], c, r);
      }
    }
  }

  /** The whole path draws each pixel of the frame exactly once. */
  lemma {:induction false} EachPixelOnce(f: Frame, interlaced: bool, c: nat, r: nat)
    requires c < f.w <= f.lineSize && r < f.h
    ensures Occurrences(Path(f, 0, RowOrder(interlaced, f.h)), Index(f, c, r)) == 1
  {
    PathOccurrences(f, 0, RowOrder(interlaced, f.h), c, r);
    RowOrderIsPermutation(interlaced, f.h, r);
  }

  /** The pass that a row belongs to (Appendix E of GIF89a). */
  function Group(r: nat): nat {
    if r % 8 == 0 then 1 else if r % 8 == 4 then 2 else if r % 4 == 2 then 3 else 4
  }

  /** Rows come pass by pass, and from top to bottom within a pass. */
  predicate ComesBefore(a: nat, b: nat) {
    Group(a) < Group(b) || (Group(a) == Group(b) && a < b)
  }

  ghost predicate InOrder(rows: seq<nat>) {
    forall i, j :: 0 <= i < j < |rows| ==> ComesBefore(rows[i], rows[j])
  }

  predicate InPass(r: nat, row: nat, step: nat)
    requires step > 0
  {
    row <= r && r % step == row % step
  }

  /** The rows of a pass have the same remainder, and rise. */
  lemma {:induction false} PassRows(row: nat, step: nat, h: nat)
    requires step == 1 || step == 2 || step == 4 || step == 8
    ensures forall i, j :: 0 <= i < j < |Pass(row, step, h)| ==> Pass(row, step, h)[i] < Pass(row, step, h)[j]
    ensures forall i :: 0 <= i < |Pass(row, step, h)| ==> InPass(Pass(row, step, h)[i], row, step)
    decreases h - row
  {
    if row < h {
      PassRows(row + step, step, h);
      AddStep(row, step);
      var rows, rest := Pass(row, step, h), Pass(row + step, step, h);
      assert rows == [row] + rest;
      hide Pass;
      forall i | 0 <= i < |rows| ensures InPass(rows[i], row, step) && (i > 0 ==> row < rows[i]) {
        if i > 0 {
          assert rows[i] == rest[i - 1] && InPass(rest[i - 1], row + step, step);
        }
      }
      forall i, j | 0 <= i < j < |rows| ensures rows[i] < rows[j] {
        assert rows[j] == rest[j - 1];
        if i > 0 {
          assert rows[i] == rest[i - 1];
        }
      }
    }
  }

  lemma {:induction false} ConcatInOrder(a: seq<nat>, b: seq<nat>)
    requires InOrder(a) && InOrder(b)
    requires forall i, j :: 0 <= i < |a| && 0 <= j < |b| ==> ComesBefore(a[i], b[j])
    ensures InOrder(a + b)
  {
    hide ComesBefore;
  }

  lemma {:induction false} OnePass(row: nat, step: nat, h: nat, group: nat)
    requires (row, step, group) in {(0, 8, 1), (4, 8, 2), (2, 4, 3), (1, 2, 4)}
    ensures InOrder(Pass(row, step, h))
    ensures forall i :: 0 <= i < |Pass(row, step, h)| ==> Group(Pass(row, step, h)[i]) == group
  {
    PassRows(row, step, h);
    var rows := Pass(row, step, h);
    hide Pass, InPass;
    forall i | 0 <= i < |rows| ensures Group(rows[i]) == group {
      GroupOf(rows[i], row, step, group);
    }
  }

  lemma {:induction false} Remainders(r: nat)
    ensures r % 8 == 0 || r % 8 == 4 ==> r % 2 == 0 && r % 4 == 0
    ensures r % 4 == 2 ==> r % 2 == 0 && r % 8 != 0 && r % 8 != 4
    ensures r % 2 == 1 ==> r % 8 != 0 && r % 8 != 4 && r % 4 != 2
  {}

  lemma {:induction false} GroupOf(r: nat, row: nat, step: nat, group: nat)
    requires (row, step, group) in {(0, 8, 1), (4, 8, 2), (2, 4, 3), (1, 2, 4)} && InPass(r, row, step)
    ensures Group(r) == group
  {
    Remainders(r);
    if step == 8 {
      assert r % 8 == row;
    } else if step == 4 {
      assert r % 4 == 2;
    } else {
      assert r % 2 == 1;
    }
  }

  /** The drawing order of an interlaced frame. */
  lemma {:induction false} RowsInOrder(h: nat)
    ensures InOrder(RowOrder(true, h))
  {
    var a, b, c, d := Pass(0, 8, h), Pass(4, 8, h), Pass(2, 4, h), Pass(1, 2, h);
    OnePass(0, 8, h, 1);
    OnePass(4, 8, h, 2);
    OnePass(2, 4, h, 3);
    OnePass(1, 2, h, 4);
    hide Pass, Group, InOrder;
    ConcatInOrder(b, c);
    ConcatInOrder(b + c, d);
    ConcatInOrder(a, b + c + d);
  }
}
