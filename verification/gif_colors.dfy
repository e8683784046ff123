/**
 The colours of a GIF frame: the file gives red, green and blue for each index; the table holds them the other way
 round, and drawing turns them back.
 */
module GifColors {
  import opened BitSequence
  import opened GifInterlace
  import opened GifRaster

  /** The table of `n` colours that starts at `at` in the file, `transparent` being the transparent one or -1. */
  ghost predicate IsTable(table: seq<Color>, raw: seq<byte>, at: nat, n: nat, transparent: int) {
    |table| == 256 && n <= 256 && forall i :: 0 <= i < n ==>
      table[i] == Color(ByteAt(raw, at + 3 * i + 2), ByteAt(raw, at + 3 * i + 1), ByteAt(raw, at + 3 * i),
                        if i == transparent then 0 else 255)
  }

  /** stbi__gif_parse_colortable. */
  method ParseColorTable(raw: seq<byte>, at: nat, pal: array<Color>, n: nat, transparent: int) returns (next: nat)
    requires pal.Length == 256 && n <= 256
    modifies pal
    ensures IsTable(pal[..], raw, at, n, transparent) && next == at + 3 * n
    ensures forall i :: n <= i < 256 ==> pal[i] == old(pal[i])
  {
    next := at;
    for i := 0 to n
      invariant next == at + 3 * i && IsTable(pal[..], raw, at, i, transparent)
      invariant forall j :: i <= j < 256 ==> pal[j] == old(pal[j])
    {
      var c2 := ByteAt(raw, next);
      var c1 := ByteAt(raw, next + 1);
      var c0 := ByteAt(raw, next + 2);
      next := next + 3;
      pal[i] := Color(c0, c1, c2, if transparent == i then 0 else 255);
    }
  }

  /** What is drawn at one place of a path that comes by only once. */
  lemma {:induction false} DrawnAt(img: Image, path: seq<nat>, table: seq<Color>, indices: seq<byte>, k: nat)
    requires PathFits(path, img) && |table| == 256 && k < |path| && Occurrences(path, path[k]) == 1
    ensures k < |indices| ==>
      var drawn, c := Draw(img, path, table, indices), table[indices[k]];
      && drawn.history[path[k]]
      && drawn.pixels[path[k]] == if c.c3 > 128 then Color(c.c2, c.c1, c.c0, c.c3) else img.pixels[path[k]]
    decreases |indices|
  {
    if k < |indices| {
      var first := Paint(img, path[0], table[indices[0]]);
      if k == 0 {
        NotDrawn(first, path[1..], table, indices[1..], path[0]);
      } else {
        OccursAt(path[1..], k - 1);
        assert path[1..][k - 1] == path[k];
        DrawnAt(first, path[1..], table, indices[1..], k - 1);
      }
    }
  }

  lemma {:induction false} OccursAt(s: seq<nat>, k: nat)
    requires k < |s|
    ensures Occurrences(s, s[k]) >= 1
  {
    if k > 0 {
      OccursAt(s[1..], k - 1);
    }
  }

  /** Places off the path stay as they are. */
  lemma {:induction false} NotDrawn(img: Image, path: seq<nat>, table: seq<Color>, indices: seq<byte>, at: nat)
    requires PathFits(path, img) && |table| == 256 && at < |img.pixels| && Occurrences(path, at) == 0
    ensures var drawn := Draw(img, path, table, indices);
      drawn.pixels[at] == img.pixels[at] && drawn.history[at] == img.history[at]
    decreases |indices|
  {
    if indices != [] && path != [] {
      NotDrawn(Paint(img, path[0], table[indices[0]]), path[1..], table, indices[1..], at);
    }
  }

  /**
   A pixel of the frame that index `k` of the data reaches gets red, green and blue as the file gives them for that
   index, and full opacity, unless the index is the transparent one; then it stays as it is.
   */
  lemma {:induction false} PixelOfFile(img: Image, f: Frame, interlaced: bool, c: nat, r: nat, raw: seq<byte>, at: nat,
                                       n: nat, transparent: int, table: seq<Color>, indices: seq<byte>, k: nat)
    requires var path := Path(f, 0, RowOrder(interlaced, f.h));
      && PathFits(path, img) && c < f.w <= f.lineSize && r < f.h && k < |path| && path[k] == Index(f, c, r)
    requires IsTable(table, raw, at, n, transparent) && k < |indices| && indices[k] < n
    ensures var drawn := Draw(img, Path(f, 0, RowOrder(interlaced, f.h)), table, indices);
      var place: nat, i: nat := Index(f, c, r), indices[k];
      && place < |drawn.pixels|
      && drawn.pixels[place] ==
         if i == transparent then img.pixels[place]
         else Color(ByteAt(raw, at + 3 * i), ByteAt(raw, at + 3 * i + 1), ByteAt(raw, at + 3 * i + 2), 255)
  {
    hide Path, RowOrder, Occurrences, Draw;
    EachPixelOnce(f, interlaced, c, r);
    DrawnAt(img, Path(f, 0, RowOrder(interlaced, f.h)), table, indices, k);
  }
}
