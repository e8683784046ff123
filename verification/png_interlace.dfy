/** The seven passes of Adam7 (section 8.2 of the PNG specification) and the scatter that puts them together. */
module PngInterlace {
  import opened Bits

  function XOrig(p: nat): nat
    requires p < 7
  {
    [0, 4, 0, 2, 0, 1, 0][p]
  }

  function YOrig(p: nat): nat
    requires p < 7
  {
    [0, 0, 4, 0, 2, 0, 1][p]
  }

  function XSpc(p: nat): (s: nat)
    requires p < 7
    ensures s > 0
  {
    [8, 8, 4, 4, 2, 2, 1][p]
  }

  function YSpc(p: nat): (s: nat)
    requires p < 7
    ensures s > 0
  {
    [8, 8, 8, 4, 4, 2, 2][p]
  }

  /** How many columns of an image of width `w` pass `p` has. */
  function Columns(w: nat, p: nat): nat
    requires p < 7
  {
    (w + XSpc(p) - 1 - XOrig(p)) / XSpc(p)
  }

  function Rows(h: nat, p: nat): nat
    requires p < 7
  {
    (h + YSpc(p) - 1 - YOrig(p)) / YSpc(p)
  }

  /** Pixel (i, j) of pass `p` is pixel (x, y) of the image. */
  predicate Lands(w: nat, h: nat, p: nat, i: nat, j: nat, x: nat, y: nat) {
    p < 7 && i < Columns(w, p) && j < Rows(h, p) && x == i * XSpc(p) + XOrig(p) && y == j * YSpc(p) + YOrig(p)
  }

  /** The pass that holds a pixel, from the figure of section 8.2. */
  function PassOf(x: nat, y: nat): (p: nat)
    ensures p < 7
  {
    if y % 2 == 1 then 6
    else if x % 2 == 1 then 5
    else if y % 4 == 2 then 4
    else if x % 4 == 2 then 3
    else if y % 8 == 4 then 2
    else if x % 8 == 4 then 1
    else 0
  }

  function ColumnOf(x: nat, y: nat): nat {
    x / XSpc(PassOf(x, y))
  }

  function RowOf(x: nat, y: nat): nat {
    y / YSpc(PassOf(x, y))
  }

  /** One axis: the positions of a pass are those with its remainder. */
  lemma {:induction false} Axis(n: nat, o: nat, s: nat, i: nat, x: nat)
    requires o < s && (s == 1 || s == 2 || s == 4 || s == 8)
    ensures i < (n + s - 1 - o) / s && x == i * s + o <==> x < n && x % s == o && i == x / s
  {
    if s == 1 {
    } else if s == 2 {
    } else if s == 4 {
    } else {
      AxisEight(n, o, i, x);
    }
  }

  lemma {:induction false} AxisEight(n: nat, o: nat, i: nat, x: nat)
    requires o < 8
    ensures i < (n + 7 - o) / 8 && x == i * 8 + o <==> x < n && x % 8 == o && i == x / 8
  {}

  lemma {:induction false} Remainders(x: nat)
    ensures x % 4 == x % 8 % 4 && x % 2 == x % 4 % 2
  {
    ModFour(x / 8, x % 8);
    ModTwo(x / 4, x % 4);
  }

  lemma {:induction false} ModFour(q: nat, r: nat)
    requires r < 8
    ensures (8 * q + r) % 4 == r % 4
  {
    DivModUnique(8 * q + r, 4, 2 * q + r / 4, r % 4);
  }

  lemma {:induction false} ModTwo(q: nat, r: nat)
    requires r < 4
    ensures (4 * q + r) % 2 == r % 2
  {
    DivModUnique(4 * q + r, 2, 2 * q + r / 2, r % 2);
  }

  lemma {:induction false} PassTable(p: nat)
    requires p < 7
    ensures XOrig(p) < XSpc(p) && (XSpc(p) == 1 || XSpc(p) == 2 || XSpc(p) == 4 || XSpc(p) == 8)
    ensures YOrig(p) < YSpc(p) && (YSpc(p) == 1 || YSpc(p) == 2 || YSpc(p) == 4 || YSpc(p) == 8)
  {}

  /** A pixel has the remainders of exactly one pass. */
  lemma {:induction false} RemaindersTell(p: nat, x: nat, y: nat)
    requires p < 7
    ensures x % XSpc(p) == XOrig(p) && y % YSpc(p) == YOrig(p) <==> p == PassOf(x, y)
  {
    Remainders(x);
    Remainders(y);
    if p == 0 {
    } else if p == 1 {
    } else if p == 2 {
    } else if p == 3 {
    } else if p == 4 {
    } else if p == 5 {
    }
  }

  /** The seven passes together hit each pixel of the image exactly once, and nothing outside it. */
  lemma {:induction false} ExactlyOnce(w: nat, h: nat, p: nat, i: nat, j: nat, x: nat, y: nat)
    ensures Lands(w, h, p, i, j, x, y) <==>
      x < w && y < h && p == PassOf(x, y) && i == ColumnOf(x, y) && j == RowOf(x, y)
  {
    if p < 7 {
      hide XOrig, YOrig, XSpc, YSpc, PassOf;
      PassTable(p);
      Axis(w, XOrig(p), XSpc(p), i, x);
      Axis(h, YOrig(p), YSpc(p), j, y);
      RemaindersTell(p, x, y);
    }
  }

  // ----- the scatter

  /** The pictures of the passes, row by row. */
  ghost predicate PassImages<T>(images: seq<seq<seq<T>>>, w: nat, h: nat) {
    && |images| == 7
    && forall p :: 0 <= p < 7 && Columns(w, p) > 0 ==>
         |images[p]| == Rows(h, p) && forall j :: 0 <= j < |images[p]| ==> |images[p][j]| == Columns(w, p)
  }

  /** Whether a pixel was copied before pixel (i, j) of pass `p`. */
  predicate CopiedBefore(p: nat, i: nat, j: nat, x: nat, y: nat) {
    var q := PassOf(x, y);
    q < p || (q == p && (RowOf(x, y) < j || (RowOf(x, y) == j && ColumnOf(x, y) < i)))
  }

  ghost predicate Scattered<T>(final: array2<T>, images: seq<seq<seq<T>>>, w: nat, h: nat, p: nat, i: nat, j: nat)
    reads final
    requires PassImages(images, w, h) && final.Length0 == h && final.Length1 == w
  {
    forall x: nat, y: nat :: x < w && y < h && CopiedBefore(p, i, j, x, y) ==>
      InImage(images, w, h, x, y) && final[y, x] == images[PassOf(x, y)][RowOf(x, y)][ColumnOf(x, y)]
  }

  predicate InImage<T>(images: seq<seq<seq<T>>>, w: nat, h: nat, x: nat, y: nat) {
    var p := PassOf(x, y);
    p < |images| && RowOf(x, y) < |images[p]| && ColumnOf(x, y) < |images[p][RowOf(x, y)]|
  }

  /** Copy one pixel of a pass to its place. */
  method CopyPixel<T>(final: array2<T>, images: seq<seq<seq<T>>>, w: nat, h: nat, p: nat, i: nat, j: nat)
    requires PassImages(images, w, h) && final.Length0 == h && final.Length1 == w
    requires p < 7 && i < Columns(w, p) && j < Rows(h, p) && Scattered(final, images, w, h, p, i, j)
    modifies final
    ensures Scattered(final, images, w, h, p, i + 1, j)
  {
    hide XOrig, YOrig, XSpc, YSpc, PassOf, Columns, Rows, ColumnOf, RowOf;
    var out_y, out_x := j * YSpc(p) + YOrig(p), i * XSpc(p) + XOrig(p);
    ExactlyOnce(w, h, p, i, j, out_x, out_y);
    final[out_y, out_x] := images[p][j][i];
    forall x: nat, y: nat | x < w && y < h && CopiedBefore(p, i + 1, j, x, y)
      ensures InImage(images, w, h, x, y) && final[y, x] == images[PassOf(x, y)][RowOf(x, y)][ColumnOf(x, y)]
    {
      if x != out_x || y != out_y {
        ExactlyOnce(w, h, p, i, j, x, y);
      }
    }
  }

  /** One pass: all its pixels, row by row. */
  method CopyPass<T>(final: array2<T>, images: seq<seq<seq<T>>>, w: nat, h: nat, p: nat)
    requires PassImages(images, w, h) && final.Length0 == h && final.Length1 == w
    requires p < 7 && Scattered(final, images, w, h, p, 0, 0)
    modifies final
    ensures Scattered(final, images, w, h, p + 1, 0, 0)
  {
    hide XOrig, YOrig, XSpc, YSpc, PassOf, Columns, Rows, ColumnOf, RowOf;
    var x, y := Columns(w, p), Rows(h, p);
    if x > 0 && y > 0 {
      for j := 0 to y
        invariant Scattered(final, images, w, h, p, 0, j)
      {
        for i := 0 to x
          invariant Scattered(final, images, w, h, p, i, j)
        {
          CopyPixel(final, images, w, h, p, i, j);
        }
        RowFinished(final, images, w, h, p, j, j + 1);
      }
    }
    PassFinished(final, images, w, h, p, y, p + 1);
  }

  lemma {:induction false} RowFinished<T>(final: array2<T>, images: seq<seq<seq<T>>>, w: nat, h: nat, p: nat, j: nat,
                                          next: nat)
    requires PassImages(images, w, h) && final.Length0 == h && final.Length1 == w && p < 7 && next == j + 1
    requires Scattered(final, images, w, h, p, Columns(w, p), j)
    ensures Scattered(final, images, w, h, p, 0, next)
  {
    hide XOrig, YOrig, XSpc, YSpc, PassOf, Columns, Rows, ColumnOf, RowOf;
    forall x: nat, y: nat | x < w && y < h && CopiedBefore(p, 0, next, x, y)
      ensures InImage(images, w, h, x, y) && final[y, x] == images[PassOf(x, y)][RowOf(x, y)][ColumnOf(x, y)]
    {
      ExactlyOnce(w, h, PassOf(x, y), ColumnOf(x, y), RowOf(x, y), x, y);
    }
  }

  lemma {:induction false} PassFinished<T>(final: array2<T>, images: seq<seq<seq<T>>>, w: nat, h: nat, p: nat,
                                           j: nat, next: nat)
    requires PassImages(images, w, h) && final.Length0 == h && final.Length1 == w && p < 7 && j == Rows(h, p)
    requires next == p + 1
    requires Scattered(final, images, w, h, p, 0, if Columns(w, p) > 0 then j else 0)
    ensures Scattered(final, images, w, h, next, 0, 0)
  {
    hide XOrig, YOrig, XSpc, YSpc, PassOf, Columns, Rows, ColumnOf, RowOf;
    forall x: nat, y: nat | x < w && y < h && CopiedBefore(next, 0, 0, x, y)
      ensures InImage(images, w, h, x, y) && final[y, x] == images[PassOf(x, y)][RowOf(x, y)][ColumnOf(x, y)]
    {
      ExactlyOnce(w, h, PassOf(x, y), ColumnOf(x, y), RowOf(x, y), x, y);
    }
  }

  /**
   The de-interlacing loop of stbi__create_png_image: every pixel of the image comes from its own place in its own
   pass.
   */
  method Deinterlace<T(0)>(images: seq<seq<seq<T>>>, w: nat, h: nat) returns (final: array2<T>)
    requires PassImages(images, w, h)
    ensures final.Length0 == h && final.Length1 == w
    ensures forall x: nat, y: nat :: x < w && y < h ==>
      InImage(images, w, h, x, y) && final[y, x] == images[PassOf(x, y)][RowOf(x, y)][ColumnOf(x, y)]
  {
    hide XOrig, YOrig, XSpc, YSpc, PassOf, Columns, Rows, ColumnOf, RowOf;
    final := new T[h, w];
    for p := 0 to 7
      invariant Scattered(final, images, w, h, p, 0, 0)
    {
      CopyPass(final, images, w, h, p);
    }
    assert forall x: nat, y: nat :: x < w && y < h ==> CopiedBefore(7, 0, 0, x, y);
  }

  /** Section 8.2 of the PNG specification: the passes, counted from one, in a row of each square of eight by eight. */
  function Adam7Row(y: nat): (row: seq<nat>)
    requires y < 8
    ensures |row| == 8
  {
    match y
    case 0 => [1, 6, 4, 6, 2, 6, 4, 6]
    case 2 => [5, 6, 5, 6, 5, 6, 5, 6]
    case 4 => [3, 6, 4, 6, 3, 6, 4, 6]
    case 6 => [5, 6, 5, 6, 5, 6, 5, 6]
    case _ => [7, 7, 7, 7, 7, 7, 7, 7]
  }

  lemma {:induction false} PassIsAdam7(x: nat, y: nat)
    ensures PassOf(x, y) + 1 == Adam7Row(y % 8)[x % 8]
  {
    Within(x, x / 8, x % 8);
    Within(y, y / 8, y % 8);
    PassInSquare(x % 8, y % 8);
  }

  lemma {:induction false} Within(x: nat, q: nat, i: nat)
    requires x == 8 * q + i && i < 8
    ensures x % 2 == i % 2 && x % 4 == i % 4 && x % 8 == i
  {
    assert i == 2 * (i / 2) + i % 2 && i == 4 * (i / 4) + i % 4;
    DivModUnique(x, 2, 4 * q + i / 2, i % 2);
    DivModUnique(x, 4, 2 * q + i / 4, i % 4);
    DivModUnique(x, 8, q, i);
  }

  lemma {:induction false} PassInSquare(x: nat, y: nat)
    requires x < 8 && y < 8
    ensures PassOf(x, y) + 1 == Adam7Row(y)[x]
  {
    match y {
      case 0 =>
      case 2 =>
      case 4 =>
      case 6 =>
      case _ => assert y % 2 == 1;
    }
  }
}
