/** Drawing the decoded indices, and the decoder's linked string table. */
module GifRaster {
  import opened Bits
  import opened BitSequence
  import opened GifInterlace
  import opened GifLzw
  import GifReference

  datatype Color = Color(c0: byte, c1: byte, c2: byte, c3: byte)

  /** The pixels of the image, and which of them this frame reached. */
  datatype Image = Image(pixels: seq<Color>, history: seq<bool>)

  predicate Fits(f: Frame, n: nat) {
    f.startX + f.w <= f.lineSize && f.startY + f.h * f.lineSize <= n
  }

  /** Mark a pixel, and paint it unless the colour is transparent. */
  function Paint(img: Image, at: nat, c: Color): Image
    requires at < |img.pixels| == |img.history|
  {
    Image(if c.c3 > 128 then img.pixels[at := Color(c.c2, c.c1, c.c0, c.c3)] else img.pixels, img.history[at := true])
  }

  predicate PathFits(path: seq<nat>, img: Image) {
    |img.pixels| == |img.history| && forall i :: 0 <= i < |path| ==> path[i] < |img.pixels|
  }

  /** Draw indices along a path; what does not fit is dropped. */
  function Draw(img: Image, path: seq<nat>, table: seq<Color>, indices: seq<byte>): (r: Image)
    requires PathFits(path, img) && |table| == 256
    ensures |r.pixels| == |img.pixels| && |r.history| == |img.history|
    decreases |indices|
  {
    if indices == [] || path == [] then img
    else Draw(Paint(img, path[0], table[indices[0]]), path[1..], table, indices[1..])
  }

  function Drop(path: seq<nat>, n: nat): seq<nat> {
    if n <= |path| then path[n..] else []
  }

  /** Drawing in two parts. */
  lemma {:induction false} DrawConcat(img: Image, path: seq<nat>, table: seq<Color>, s: seq<byte>, t: seq<byte>)
    requires PathFits(path, img) && |table| == 256
    ensures PathFits(Drop(path, |s|), Draw(img, path, table, s))
    ensures Draw(img, path, table, s + t) == Draw(Draw(img, path, table, s), Drop(path, |s|), table, t)
    decreases |s|
  {
    if s == [] {
      assert s + t == t && Drop(path, 0) == path;
    } else if path == [] {
      assert Drop(path, |s|) == [];
    } else {
      assert (s + t)[1..] == s[1..] + t && (s + t)[0] == s[0];
      DrawConcat(Paint(img, path[0], table[s[0]]), path[1..], table, s[1..], t);
      assert Drop(path, |s|) == Drop(path[1..], |s| - 1);
    }
  }

  lemma {:induction false} DropDrop(path: seq<nat>, m: nat, n: nat, total: nat)
    requires total == m + n
    ensures Drop(Drop(path, m), n) == Drop(path, total)
  {}

  /** Positions inside the frame are inside the image. */
  lemma {:induction false} IndexFits(f: Frame, col: nat, row: nat, n: nat)
    requires Fits(f, n) && col < f.w && row < f.h
    ensures Index(f, col, row) < n
  {
    MulStrict(row, f.h, f.lineSize);
  }

  ghost predicate RowsFit(f: Frame, rows: seq<nat>) {
    forall i :: 0 <= i < |rows| ==> rows[i] < f.h
  }

  lemma {:induction false} PathIsInside(f: Frame, col: nat, rows: seq<nat>, n: nat)
    requires Fits(f, n) && RowsFit(f, rows)
    ensures forall i :: 0 <= i < |Path(f, col, rows)| ==> Path(f, col, rows)[i] < n
    decreases |rows|, f.w - col
  {
    if rows != [] {
      if col < f.w {
        IndexFits(f, col, rows[0], n);
        PathIsInside(f, col + 1, rows, n);
      } else {
        PathIsInside(f, 0, rows[1..], n);
      }
    }
  }

  lemma {:induction false} PassFits(row: nat, step: nat, h: nat)
    requires step > 0
    ensures forall i :: 0 <= i < |Pass(row, step, h)| ==> Pass(row, step, h)[i] < h
    decreases h - row
  {
    if row < h {
      PassFits(row + step, step, h);
    }
  }

  lemma {:induction false} LaterPassesFit(parse: nat, h: nat)
    ensures forall i :: 0 <= i < |LaterPasses(parse, h)| ==> LaterPasses(parse, h)[i] < h
  {
    PassFits(1, 2, h);
    PassFits(2, 4, h);
    PassFits(4, 8, h);
  }

  lemma {:induction false} FirstRows(f: Frame, interlaced: bool)
    ensures var rows := RowOrder(interlaced, f.h);
      && RowsFit(f, rows) && (f.h == 0 ==> rows == []) && (f.h > 0 ==> rows != [] && rows[0] == 0)
      && rows == Pass(0, if interlaced then 8 else 1, f.h) + LaterPasses(if interlaced then 3 else 0, f.h)
  {
    PassFits(0, 8, f.h);
    PassFits(0, 1, f.h);
    LaterPassesFit(3, f.h);
  }

  /** Whether a row is inside shows in its offset. */
  lemma {:induction false} RowInside(f: Frame, row: nat)
    requires f.lineSize > 0
    ensures row < f.h <==> f.startY + row * f.lineSize < f.startY + f.h * f.lineSize
  {
    if row < f.h {
      MulStrict(row, f.h, f.lineSize);
    } else {
      MulMono(f.h, row, f.lineSize);
    }
  }

  /** The next pass of an interlaced frame. */
  lemma {:induction false} NextPass(parse: nat, h: nat, line: nat)
    requires 1 <= parse <= 3
    ensures LaterPasses(parse, h) == Pass(Pow2(parse - 1), Pow2(parse), h) + LaterPasses(parse - 1, h)
    ensures Pow2(parse) * line / 2 == Pow2(parse - 1) * line
  {
    assert Pow2(0) == 1 && Pow2(1) == 2 && Pow2(2) == 4 && Pow2(3) == 8;
    if parse == 1 {
    } else if parse == 2 {
    } else {
      assert Pow2(3) * line == 8 * line && 8 * line / 2 == 4 * line;
    }
  }

  // ----- the table of strings

  datatype LzwCode = LzwCode(prefix: int, first: byte, suffix: byte)

  /** The table entry for `code` spells its string, the last element here and the others at a smaller code. */
  ghost predicate Spells(cs: nat, dict: seq<seq<byte>>, code: nat, c: LzwCode)
    requires IsEntry(cs, dict, code)
  {
    var s := Entry(cs, dict, code);
    && s != [] && c.first == s[0] && c.suffix == s[|s| - 1]
    && if code < Pow2(cs) then c.prefix == -1
       else 0 <= c.prefix < code && IsEntry(cs, dict, c.prefix) && Entry(cs, dict, c.prefix) == s[..|s| - 1]
  }

  ghost predicate TableSpells(cs: nat, dict: seq<seq<byte>>, codes: seq<LzwCode>) {
    && Pow2(cs) + 2 + |dict| <= |codes|
    && forall code: nat :: IsEntry(cs, dict, code) ==> Spells(cs, dict, code, codes[code])
  }

  /** An entry is its prefix, if it has one, and its last element. */
  lemma {:induction false} Spelling(cs: nat, dict: seq<seq<byte>>, codes: seq<LzwCode>, code: nat)
    requires TableSpells(cs, dict, codes) && IsEntry(cs, dict, code)
    ensures code < |codes|
    ensures var word, c := Entry(cs, dict, code), codes[code];
      var n := |word| - 1;
      && n >= 0 && word[n] == c.suffix && (c.prefix < 0 ==> word[..n] == [])
      && (c.prefix >= 0 ==> c.prefix < code && IsEntry(cs, dict, c.prefix) && Entry(cs, dict, c.prefix) == word[..n])
  {
    assert Spells(cs, dict, code, codes[code]);
  }

  /** A longer dictionary leaves the old entries as they are. */
  lemma {:induction false} SpellsStill(cs: nat, dict: seq<seq<byte>>, x: seq<byte>, code: nat, c: LzwCode)
    requires IsEntry(cs, dict, code) && Spells(cs, dict, code, c)
    ensures Spells(cs, dict + [x], code, c)
  {
    hide Pow2;
    assert Entry(cs, dict + [x], code) == Entry(cs, dict, code);
    if code >= Pow2(cs) {
      assert Entry(cs, dict + [x], c.prefix) == Entry(cs, dict, c.prefix);
    }
  }

  /** The new entry: the last string, one element longer. */
  lemma {:induction false} SpellsNew(cs: nat, dict: seq<seq<byte>>, prev: nat, c: LzwCode, x: byte)
    requires IsEntry(cs, dict, prev) && Spells(cs, dict, prev, c)
    ensures Spells(cs, dict + [Entry(cs, dict, prev) + [x]], Pow2(cs) + 2 + |dict|, LzwCode(prev, c.first, x))
  {
    hide Pow2;
    var word := Entry(cs, dict, prev);
    assert (word + [x])[..|word|] == word;
    assert Entry(cs, dict + [word + [x]], prev) == word;
  }

  lemma {:induction false} AddEntry(cs: nat, dict: seq<seq<byte>>, codes: seq<LzwCode>, prev: nat, x: byte,
                                    codes': seq<LzwCode>)
    requires TableSpells(cs, dict, codes) && IsEntry(cs, dict, prev) && Pow2(cs) + 2 + |dict| < |codes|
    requires codes' == codes[Pow2(cs) + 2 + |dict| := LzwCode(prev, codes[prev].first, x)]
    ensures TableSpells(cs, dict + [Entry(cs, dict, prev) + [x]], codes')
  {
    hide Pow2, Spells, Entry;
    var word := Entry(cs, dict, prev) + [x];
    SpellsNew(cs, dict, prev, codes[prev], x);
    forall code: nat | IsEntry(cs, dict + [word], code) ensures Spells(cs, dict + [word], code, codes'[code]) {
      if code < Pow2(cs) + 2 + |dict| {
        SpellsStill(cs, dict, word, code, codes[code]);
      }
    }
  }

  /** Without its dictionary the table still holds the roots. */
  lemma {:induction false} RootsSpell(cs: nat, dict: seq<seq<byte>>, codes: seq<LzwCode>)
    requires TableSpells(cs, dict, codes)
    ensures TableSpells(cs, [], codes)
  {
    forall code: nat | IsEntry(cs, [], code) ensures Spells(cs, [], code, codes[code]) {
      assert Spells(cs, dict, code, codes[code]);
    }
  }

  // ----- the bit buffer over the sub-blocks

  /** The buffer holds the next bits; what follows is the rest of this block and the blocks after it. */
  ghost predicate Buffered(raw: seq<byte>, data: seq<byte>, at: nat, len: nat, pos: nat, bits: nat, valid_bits: nat) {
    var n := (pos + valid_bits) / 8;
    && pos + valid_bits == 8 * n && n <= |data| && bits == Lsb(data, pos, valid_bits)
    && data[n..] == BytesFrom(raw, at, len) + Deblock(raw, at + len)
  }

  lemma {:induction false} NothingBuffered(raw: seq<byte>, at: nat)
    ensures Buffered(raw, Deblock(raw, at), at, 0, 0, 0, 0)
  {}

  lemma {:induction false} NextBlock(raw: seq<byte>, data: seq<byte>, at: nat, pos: nat, bits: nat, valid_bits: nat)
    requires Buffered(raw, data, at, 0, pos, bits, valid_bits)
    ensures ByteAt(raw, at) > 0 ==> Buffered(raw, data, at + 1, ByteAt(raw, at), pos, bits, valid_bits)
    ensures ByteAt(raw, at) == 0 ==> pos + valid_bits == 8 * |data|
  {}

  lemma {:induction false} LoadByte(raw: seq<byte>, data: seq<byte>, at: nat, len: nat, pos: nat, bits: nat,
                                    valid_bits: nat)
    requires Buffered(raw, data, at, len, pos, bits, valid_bits) && len > 0
    ensures Buffered(raw, data, at + 1, len - 1, pos, Or(bits, Shl(ByteAt(raw, at), valid_bits)), valid_bits + 8)
    ensures pos + valid_bits + 8 <= 8 * |data|
  {
    var n, b := (pos + valid_bits) / 8, ByteAt(raw, at);
    var rest := BytesFrom(raw, at + 1, len - 1) + Deblock(raw, at + len);
    assert data[n..] == [b] + rest;
    assert data[n] == data[n..][0] == b && data[n + 1..] == data[n..][1..] == rest;
    AppendLow(data, pos, valid_bits, n, valid_bits + 8);
    assert at + 1 + (len - 1) == at + len && (pos + (valid_bits + 8)) / 8 == n + 1;
  }

  lemma {:induction false} TakeCode(raw: seq<byte>, data: seq<byte>, at: nat, len: nat, pos: nat, bits: nat,
                                    valid_bits: nat, size: nat)
    requires Buffered(raw, data, at, len, pos, bits, valid_bits) && size <= valid_bits
    ensures And(bits, Pow2(size) - 1) == Lsb(data, pos, size)
    ensures Buffered(raw, data, at, len, pos + size, Shr(bits, size), valid_bits - size)
  {
    AndMask(bits, size);
    assert size + (valid_bits - size) == valid_bits;
    LsbPrefix(data, pos, size, valid_bits - size);
    assert pos + size + (valid_bits - size) == pos + valid_bits;
  }

  /** The next byte of the sub-blocks, or the terminator. */
  method LoadMore(raw: seq<byte>, at: nat, len: nat, bits: nat, valid_bits: nat, ghost data: seq<byte>, ghost pos: nat)
    returns (ended: bool, at': nat, len': nat, bits': nat, valid_bits': nat)
    requires Buffered(raw, data, at, len, pos, bits, valid_bits)
    ensures ended ==> pos + valid_bits == 8 * |data|
    ensures !ended ==> Buffered(raw, data, at', len', pos, bits', valid_bits') && valid_bits' == valid_bits + 8
    ensures !ended ==> pos + valid_bits' <= 8 * |data|
  {
    hide Deblock, BytesFrom, Shl, Or, Buffered;
    ended, at', len', bits', valid_bits' := false, at, len, bits, valid_bits;
    if len == 0 {
      len' := ByteAt(raw, at);
      NextBlock(raw, data, at, pos, bits, valid_bits);
      at' := at + 1;
      if len' == 0 {
        ended := true;
        return;
      }
    }
    LoadByte(raw, data, at', len', pos, bits, valid_bits);
    len' := len' - 1;
    bits' := Or(bits, Shl(ByteAt(raw, at'), valid_bits));
    at' := at' + 1;
    valid_bits' := valid_bits + 8;
  }

  /** Take one code from the low end of the buffer. */
  method ReadCode(raw: seq<byte>, at: nat, len: nat, bits: nat, valid_bits: nat, codesize: nat,
                  ghost data: seq<byte>, ghost pos: nat)
    returns (code: nat, bits': nat, valid_bits': nat, ghost after: nat)
    requires Buffered(raw, data, at, len, pos, bits, valid_bits) && codesize <= valid_bits
    ensures code == Lsb(data, pos, codesize) && valid_bits' == valid_bits - codesize
    ensures after == pos + codesize && Buffered(raw, data, at, len, after, bits', valid_bits')
  {
    hide Shr, And, Lsb, Buffered;
    TakeCode(raw, data, at, len, pos, bits, valid_bits, codesize);
    code := And(bits, Pow2(codesize) - 1);
    bits', after := Shr(bits, codesize), pos + codesize;
    valid_bits' := valid_bits - codesize;
  }

  lemma {:induction false} StopsAtEnd(cs: nat, data: seq<byte>, s: State)
    requires Sound(s) && s.pos + s.size > 8 * |data|
    ensures Step(cs, data, s) == Finished(s.out)
  {}

  class Gif {
    const codes: array<LzwCode>
    const out: array<Color>
    const history: array<bool>
    const color_table: seq<Color>
    const frame: Frame
    var cur_x: nat
    var cur_y: nat
    var step: nat
    var parse: nat
    ghost var rows: seq<nat>      // rows still to be drawn; the first one from column `col` on
    ghost var col: nat
    ghost var gap: nat            // distance of the rows in this pass

    ghost function MaxY(): nat
      reads this
    {
      frame.startY + frame.h * frame.lineSize
    }

    /** The cursor stands for the rest of the drawing order. */
    ghost predicate CursorAt(row: nat)
      reads this
    {
      && parse <= 3 && gap > 0 && frame.w > 0
      && cur_y == frame.startY + row * frame.lineSize && step == gap * frame.lineSize
      && rows == Pass(row, gap, frame.h) + LaterPasses(parse, frame.h)
    }

    ghost predicate Valid()
      reads this, out, history
    {
      && |color_table| == 256 && codes.Length == 8192 && out.Length == history.Length
      && Fits(frame, out.Length) && RowsFit(frame, rows)
      && if rows == [] then cur_y >= MaxY()
         else rows[0] < frame.h && CursorAt(rows[0]) && col < frame.w && cur_x == frame.startX + col
    }

    ghost function Remaining(): seq<nat>
      reads this
    {
      Path(frame, col, rows)
    }

    ghost function Picture(): Image
      reads out, history
    {
      Image(out[..], history[..])
    }

    constructor (out: array<Color>, history: array<bool>, table: seq<Color>, frame: Frame, interlaced: bool)
      requires |table| == 256 && out.Length == history.Length && Fits(frame, out.Length)
      ensures Valid() && this.out == out && this.history == history && this.frame == frame && color_table == table
      ensures Remaining() == Path(frame, 0, if frame.w == 0 then [] else RowOrder(interlaced, frame.h))
      ensures fresh(codes)
    {
      codes := new LzwCode[8192](_ => LzwCode(-1, 0, 0));
      this.out, this.history, this.frame, color_table := out, history, frame, table;
      cur_x, cur_y := frame.startX, frame.startY;
      step := if interlaced then 8 * frame.lineSize else frame.lineSize;
      parse := if interlaced then 3 else 0;
      rows := if frame.w == 0 then [] else RowOrder(interlaced, frame.h);
      col, gap := 0, if interlaced then 8 else 1;
      new;
      if frame.w == 0 {
        cur_y := frame.startY + frame.h * frame.lineSize;
      }
      hide RowOrder, Pass, LaterPasses, Path;
      FirstRows(frame, interlaced);
    }

    /** The end of a row: on to the next row of the pass, or to the next pass that has one. */
    method NextRow()
      requires |color_table| == 256 && codes.Length == 8192 && out.Length == history.Length
      requires Fits(frame, out.Length) && RowsFit(frame, rows) && rows != [] && CursorAt(rows[0])
      modifies this
      ensures Valid() && Remaining() == Path(frame, 0, old(rows)[1..])
    {
      hide Pass, LaterPasses, Path, Pow2;
      ghost var row: nat := rows[0] + gap;
      NextInPass(rows[0], gap, frame.h, LaterPasses(parse, frame.h));
      assert (rows[0] + gap) * frame.lineSize == rows[0] * frame.lineSize + gap * frame.lineSize;
      cur_x := frame.startX;
      cur_y := cur_y + step;
      rows, col := rows[1..], 0;
      RowInside(frame, row);
      while cur_y >= frame.startY + frame.h * frame.lineSize && parse > 0
        invariant CursorAt(row) && rows == old(rows)[1..] && col == 0 && cur_x == frame.startX
        invariant row < frame.h <==> cur_y < MaxY()
        decreases parse
      {
        NextPass(parse, frame.h, frame.lineSize);
        EmptyPass(row, gap, frame.h);
        step := Pow2(parse) * frame.lineSize;
        cur_y := frame.startY + step / 2;
        row, gap := Pow2(parse - 1), Pow2(parse);
        parse := parse - 1;
        RowInside(frame, row);
      }
      FirstOfPass(row, gap, frame.h, LaterPasses(parse, frame.h), parse);
    }

    /** Draw one index at the cursor, unless the frame is full, and move on. */
    method EmitPixel(suffix: byte)
      requires Valid()
      modifies this, out, history
      ensures Valid() && PathFits(old(Remaining()), old(Picture()))
      ensures Remaining() == Drop(old(Remaining()), 1)
      ensures Picture() == Draw(old(Picture()), old(Remaining()), color_table, [suffix])
    {
      hide Pass, LaterPasses, Path, Draw, Index;
      ghost var before, path := Picture(), Remaining();
      PathIsInside(frame, col, rows, out.Length);
      if cur_y >= frame.startY + frame.h * frame.lineSize {
        if rows != [] {
          RowInside(frame, rows[0]);
        }
        NothingLeft(frame, col, before, color_table, [suffix]);
        return;
      }
      RowInside(frame, rows[0]);
      PathHead(frame, col, rows);
      PaintPixel(cur_x + cur_y, suffix);
      DrawOne(before, path, color_table, suffix);
      cur_x := cur_x + 1;
      col := col + 1;
      if cur_x >= frame.startX + frame.w {
        PathTurn(frame, rows);
        NextRow();
      }
    }

    /** stbi__out_gif_code draws the string of a code; the prefix chain ends because prefixes are smaller codes. */
    method OutGifCode(code: nat, ghost cs: nat, ghost dict: seq<seq<byte>>)
      requires Valid() && TableSpells(cs, dict, codes[..]) && IsEntry(cs, dict, code)
      modifies this, out, history
      ensures Valid() && PathFits(old(Remaining()), old(Picture()))
      ensures Remaining() == Drop(old(Remaining()), |Entry(cs, dict, code)|)
      ensures Picture() == Draw(old(Picture()), old(Remaining()), color_table, Entry(cs, dict, code))
      decreases code
    {
      hide Draw, Path, Pow2, Drop, TableSpells, Spells, IsEntry, Entry;
      ghost var before, path, word := Picture(), Remaining(), Entry(cs, dict, code);
      PathIsInside(frame, col, rows, out.Length);
      Spelling(cs, dict, codes[..], code);
      ghost var n := |word| - 1;
      assert word[..n] + [word[n]] == word;
      DrawConcat(before, path, color_table, word[..n], [word[n]]);
      DropDrop(path, n, 1, |word|);
      if codes[code].prefix >= 0 {
        OutGifCode(codes[code].prefix, cs, dict);
      } else {
        DrawNothing(before, path, color_table);
      }
      EmitPixel(codes[code].suffix);
    }

    /** The table and the last code stand for the reference dictionary and the last string. */
    ghost predicate Corresponds(cs: nat, s: State, avail: nat, oldcode: int)
      reads this, codes
    {
      && avail == Avail(cs, s) && TableSpells(cs, s.dict, codes[..])
      && if s.prev == [] then oldcode == -1
         else 0 <= oldcode && IsEntry(cs, s.dict, oldcode) && Entry(cs, s.dict, oldcode) == s.prev
    }

    /** A code for a string: define the next entry, draw, and perhaps lengthen the codes. */
    method StringCode(code: nat, codesize: nat, avail: nat, oldcode: int, ghost cs: nat, ghost s: State)
      returns (ok: bool, codesize': nat, avail': nat, ghost word: seq<byte>)
      requires Valid() && Sound(s) && IsString(cs, s, code) && codesize == s.size && Corresponds(cs, s, avail, oldcode)
      modifies this, codes, out, history
      ensures ok <==> Emit(cs, s, code).Running?
      ensures ok ==> var t := Emit(cs, s, code).state;
        && Valid() && PathFits(old(Remaining()), old(Picture()))
        && t.out == s.out + word && t.pos == s.pos + s.size && t.cleared == s.cleared
        && codesize' == t.size >= codesize && Corresponds(cs, t, avail', code)
        && Remaining() == Drop(old(Remaining()), |word|)
        && Picture() == Draw(old(Picture()), old(Remaining()), color_table, word)
    {
      hide Draw, Path, Pow2, Drop, Low, And;
      ghost var dict := s.dict;
      word := [];
      codesize', avail' := codesize, avail;
      if oldcode >= 0 {
        avail' := avail + 1;
        if avail' > 8192 {
          return false, codesize', avail', word;
        }
        word := StringOf(cs, s, code);
        DefineEntry(code, avail, oldcode, cs, s);
        dict := s.dict + [s.prev + [word[0]]];
      } else if code == avail {
        return false, codesize', avail', word;
      } else {
        word := [code % 256];
      }
      OutGifCode(code, cs, dict);
      AndMask(avail', codesize);
      if And(avail', Pow2(codesize) - 1) == 0 && avail' <= 0xfff {
        codesize' := codesize + 1;
      }
      ok := true;
    }

    /** The new table entry is the last string and the first element of the current one. */
    method DefineEntry(code: nat, avail: nat, oldcode: int, ghost cs: nat, ghost s: State)
      requires codes.Length == 8192 && Sound(s) && IsString(cs, s, code) && Corresponds(cs, s, avail, oldcode)
      requires s.prev != [] && avail < 8192
      modifies codes
      ensures var w := StringOf(cs, s, code);
        var dict := s.dict + [s.prev + [w[0]]];
        TableSpells(cs, dict, codes[..]) && IsEntry(cs, dict, code) && Entry(cs, dict, code) == w
    {
      hide Pow2;
      ghost var table, w := codes[..], StringOf(cs, s, code);
      assert Spells(cs, s.dict, oldcode, table[oldcode]);
      if code < avail {
        assert Spells(cs, s.dict, code, table[code]);
      }
      var first := codes[oldcode].first;
      codes[avail] := LzwCode(oldcode, first, codes[avail].suffix);
      // the source compares with the index after this one, which no code reaches
      var suffix := codes[code].first;
      if code == avail + 1 {
        suffix := first;
      }
      codes[avail] := codes[avail].(suffix := suffix);
      assert suffix == w[0];
      AddEntry(cs, s.dict, table, oldcode, suffix, codes[..]);
    }

    /** A clear code, the end code, a string code, or one that is not defined yet. */
    method ObeyCode(code: nat, lzw_cs: nat, codesize: nat, avail: nat, oldcode: int, first: bool,
                    ghost data: seq<byte>, ghost s: State, ghost after: nat)
      returns (ok: bool, more: bool, codesize': nat, avail': nat, oldcode': int, first': bool,
               ghost t: State, ghost word: seq<byte>)
      requires Valid() && Sound(s) && Corresponds(lzw_cs, s, avail, oldcode) && codesize == s.size
      requires first == !s.cleared
      requires after == s.pos + s.size <= 8 * |data| && code == Lsb(data, s.pos, s.size)
      modifies this, codes, out, history
      ensures !more ==> Step(lzw_cs, data, s) == if ok then Finished(s.out) else Failed
      ensures !more && ok ==> Picture() == old(Picture())
      ensures more ==> Step(lzw_cs, data, s) == Running(t) && Sound(t)
      ensures more ==>
        && Valid() && PathFits(old(Remaining()), old(Picture())) && t.out == s.out + word && t.pos == after
        && codesize' == t.size && t.size >= (if codesize < lzw_cs + 1 then codesize else lzw_cs + 1)
        && first' == !t.cleared && Corresponds(lzw_cs, t, avail', oldcode')
        && Remaining() == Drop(old(Remaining()), |word|)
        && Picture() == Draw(old(Picture()), old(Remaining()), color_table, word)
    {
      hide Draw, Path, Pow2, Drop, Lsb, Emit, TableSpells;
      ok, more, codesize', avail', oldcode', first', word := true, true, codesize, avail, oldcode, first, [];
      t := s;
      var clear := Pow2(lzw_cs);
      if code == clear {
        codesize' := lzw_cs + 1;
        avail', oldcode', first' := clear + 2, -1, false;
        t := Step(lzw_cs, data, s).state;
        RootsSpell(lzw_cs, s.dict, codes[..]);
        PathIsInside(frame, col, rows, out.Length);
        DrawNothing(Picture(), Remaining(), color_table);
      } else if code == clear + 1 {
        more := false;
      } else if code <= avail {
        if first {
          ok, more := false, false;
          return;
        }
        ok, codesize', avail', word := StringCode(code, codesize, avail, oldcode, lzw_cs, s);
        oldcode', more := code, ok;
        if ok {
          t := Emit(lzw_cs, s, code).state;
        }
      } else {
        ok, more := false, false;
      }
    }

    /** The roots of the table. */
    method InitRoots(clear: nat, ghost cs: nat)
      requires codes.Length == 8192 && clear == Pow2(cs) <= 4096
      modifies codes
      ensures TableSpells(cs, [], codes[..])
    {
      for init_code := 0 to clear
        invariant forall i :: 0 <= i < init_code ==> codes[i] == LzwCode(-1, i % 256, i % 256)
      {
        codes[init_code] := LzwCode(-1, init_code % 256, init_code % 256);
      }
    }

    /**
     stbi__process_gif_raster. For minimum code sizes from 1 to 11 it succeeds exactly if the data are valid by
     Appendix F and the decoder refuses no string; the picture is then the indices of Appendix F drawn along the path.
     */
    method ProcessRaster(raw: seq<byte>, start: nat) returns (ok: bool, ghost result: Outcome)
      requires Valid()
      modifies this, codes, out, history
      ensures ByteAt(raw, start) > 12 ==> !ok
      ensures ByteAt(raw, start) <= 12 ==>
        && Decodes(ByteAt(raw, start), Deblock(raw, start + 1), result) && (ok <==> result.Finished?)
        && PathFits(old(Remaining()), old(Picture()))
        && (ok ==> Picture() == Draw(old(Picture()), old(Remaining()), color_table, result.out))
      ensures 1 <= ByteAt(raw, start) <= 11 ==>
        var cs, data := ByteAt(raw, start), Deblock(raw, start + 1);
        && PathFits(old(Remaining()), old(Picture()))
        && forall reference: Outcome :: GifReference.RefDecodes(cs, data, reference) ==>
             && (ok <==> reference.Finished? && !GifReference.Refused(cs, data))
             && (ok ==> Picture() == Draw(old(Picture()), old(Remaining()), color_table, reference.out))
    {
      hide Draw, Decodes, Deblock, Gif.Valid, GifReference.RefDecodes, GifReference.Refused;
      ok, result := DecodeRaster(raw, start);
      ghost var cs, data := ByteAt(raw, start), Deblock(raw, start + 1);
      forall reference: Outcome | 1 <= cs <= 11 && GifReference.RefDecodes(cs, data, reference)
        ensures result == if GifReference.Refused(cs, data) then Failed else reference
        ensures reference.Finished? || reference.Failed?
      {
        GifReference.OutcomeExact(cs, data, result, reference);
        GifReference.NotRunning(cs, data, reference);
      }
    }

    /**
     stbi__process_gif_raster. It succeeds exactly if the reference decoder does, and then the picture is
     the one with the decoded indices drawn in order.
     */
    method DecodeRaster(raw: seq<byte>, start: nat) returns (ok: bool, ghost result: Outcome)
      requires Valid()
      modifies this, codes, out, history
      ensures ByteAt(raw, start) > 12 ==> !ok
      ensures ByteAt(raw, start) <= 12 ==>
        && Decodes(ByteAt(raw, start), Deblock(raw, start + 1), result) && (ok <==> result.Finished?)
        && PathFits(old(Remaining()), old(Picture()))
        && (ok ==> Picture() == Draw(old(Picture()), old(Remaining()), color_table, result.out))
    {
      var lzw_cs := ByteAt(raw, start);
      result := Failed;
      if lzw_cs > 12 {
        return false, result;
      }
      hide Draw, Path, Pow2, Drop, Low, And, Lsb, Deblock, BytesFrom, Step, Shl, Shr, Buffered, Run, Avail;
      ghost var before, path, data := Picture(), Remaining(), Deblock(raw, start + 1);
      PathIsInside(frame, col, rows, out.Length);
      var avail := StartDecoding(raw, start + 1, lzw_cs, data);
      hide Gif.Corresponds, Gif.Valid, Gif.Underway;
      var at: nat, len: nat := start + 1, 0;
      var oldcode: int := -1;
      var codesize: nat, first := lzw_cs + 1, true;
      var bits: nat, valid_bits: nat := 0, 0;
      ghost var s, k: nat := GifLzw.Start(lzw_cs), 0;
      RunStart(lzw_cs, data);
      while true
        invariant Underway(raw, data, at, len, bits, valid_bits, lzw_cs, s,
                           codesize, avail, oldcode, first, before, path)
        invariant Run(lzw_cs, data, k) == Running(s)
        decreases 8 * |data| - s.pos, 8 * |data| - s.pos - valid_bits
      {
        ghost var next := k + 1;
        RunStep(lzw_cs, data, k, next);
        ghost var t;
        var more;
        ok, more, at, len, bits, valid_bits, codesize, avail, oldcode, first, t :=
          Round(raw, data, at, len, bits, valid_bits, lzw_cs, s, codesize, avail, oldcode, first, before, path);
        if !more {
          return ok, if ok then Finished(s.out) else Failed;
        }
        if t.pos > s.pos {
          k := next;
        }
        s := t;
      }
    }

    /** What the main loop keeps: table, cursor, picture and bit buffer stand for the state of the reference. */
    ghost predicate Underway(raw: seq<byte>, data: seq<byte>, at: nat, len: nat, bits: nat, valid_bits: nat, cs: nat,
                             s: State,
                             codesize: nat, avail: nat, oldcode: int, first: bool, before: Image, path: seq<nat>)
      reads this, codes, out, history
    {
      && Valid() && Sound(s) && Corresponds(cs, s, avail, oldcode) && codesize == s.size >= 1 && first == !s.cleared
      && PathFits(path, before) && Remaining() == Drop(path, |s.out|)
      && Picture() == Draw(before, path, color_table, s.out)
      && Buffered(raw, data, at, len, s.pos, bits, valid_bits) && s.pos + valid_bits <= 8 * |data|
    }

    /** The table before the first code. */
    method StartDecoding(raw: seq<byte>, at: nat, lzw_cs: nat, ghost data: seq<byte>) returns (avail: nat)
      requires Valid() && lzw_cs <= 12 && data == Deblock(raw, at) && PathFits(Remaining(), Picture())
      modifies codes
      ensures Underway(raw, data, at, 0, 0, 0, lzw_cs, GifLzw.Start(lzw_cs),
                       lzw_cs + 1, avail, -1, true, Picture(), Remaining())
    {
      hide Draw, Path, Pow2, Drop, Low, And, Lsb, Deblock, BytesFrom, Shl, Shr, Buffered;
      var clear := Pow2(lzw_cs);
      Pow2Mono(lzw_cs, 12);
      TwelveBits();
      InitRoots(clear, lzw_cs);
      avail := clear + 2;
      assert |color_table| == 256;
      DrawNothing(Picture(), Remaining(), color_table);
      NothingBuffered(raw, at);
    }

    /** One round of the main loop: load a byte, or take a code and obey it. */
    method Round(raw: seq<byte>, ghost data: seq<byte>, at: nat, len: nat, bits: nat, valid_bits: nat, lzw_cs: nat,
                 ghost s: State,
                 codesize: nat, avail: nat, oldcode: int, first: bool, ghost before: Image, ghost path: seq<nat>)
      returns (ok: bool, more: bool, at': nat, len': nat, bits': nat, valid_bits': nat,
               codesize': nat, avail': nat, oldcode': int, first': bool, ghost t: State)
      requires Underway(raw, data, at, len, bits, valid_bits, lzw_cs, s, codesize, avail, oldcode, first, before, path)
      modifies this, codes, out, history
      ensures !more ==> Step(lzw_cs, data, s) == if ok then Finished(s.out) else Failed
      ensures !more && ok ==> Picture() == Draw(before, path, color_table, s.out)
      ensures more ==>
        && Underway(raw, data, at', len', bits', valid_bits', lzw_cs, t,
                    codesize', avail', oldcode', first', before, path)
        && if t.pos > s.pos then Step(lzw_cs, data, s) == Running(t) else t == s && valid_bits' > valid_bits
    {
      assert |color_table| == 256;
      hide Draw, Path, Pow2, Drop, Low, And, Lsb, Deblock, BytesFrom, Step, Shl, Shr, Buffered, Avail, Gif.Corresponds;
      hide Gif.Valid;
      ok, more, t := true, true, s;
      at', len', bits', valid_bits' := at, len, bits, valid_bits;
      codesize', avail', oldcode', first' := codesize, avail, oldcode, first;
      if valid_bits < codesize {
        var ended;
        ended, at', len', bits', valid_bits' := LoadMore(raw, at, len, bits, valid_bits, data, s.pos);
        if ended {
          StopsAtEnd(lzw_cs, data, s);
          more := false;
        }
      } else {
        ghost var pos, word;
        var code;
        code, bits', valid_bits', pos := ReadCode(raw, at, len, bits, valid_bits, codesize, data, s.pos);
        ok, more, codesize', avail', oldcode', first', t, word :=
          ObeyCode(code, lzw_cs, codesize, avail, oldcode, first, data, s, pos);
        if more {
          DrawConcat(before, path, color_table, s.out, word);
          DropDrop(path, |s.out|, |word|, |t.out|);
        }
      }
    }

    method PaintPixel(idx: nat, suffix: byte)
      requires |color_table| == 256 && idx < out.Length == history.Length
      modifies out, history
      ensures Picture() == Paint(old(Picture()), idx, color_table[suffix])
    {
      history[idx] := true;
      var c := color_table[suffix];
      if c.c3 > 128 {
        out[idx] := Color(c.c2, c.c1, c.c0, c.c3);
      }
    }
  }

  lemma {:induction false} DrawNothing(img: Image, path: seq<nat>, table: seq<Color>)
    requires PathFits(path, img) && |table| == 256
    ensures Draw(img, path, table, []) == img && Drop(path, 0) == path
  {}

  lemma {:induction false} PathHead(f: Frame, col: nat, rows: seq<nat>)
    requires rows != [] && col < f.w
    ensures var path := Path(f, col, rows);
      && path != [] && path[0] == f.startX + col + (f.startY + rows[0] * f.lineSize)
      && Drop(path, 1) == Path(f, col + 1, rows)
  {}

  lemma {:induction false} PathTurn(f: Frame, rows: seq<nat>)
    requires rows != []
    ensures Path(f, f.w, rows) == Path(f, 0, rows[1..])
  {}

  lemma {:induction false} NothingLeft(f: Frame, col: nat, img: Image, table: seq<Color>, s: seq<byte>)
    requires PathFits([], img) && |table| == 256
    ensures Path(f, col, []) == [] == Drop([], 1) && Draw(img, [], table, s) == img
  {}

  lemma {:induction false} DrawOne(img: Image, path: seq<nat>, table: seq<Color>, x: byte)
    requires PathFits(path, img) && |table| == 256 && path != []
    ensures Draw(img, path, table, [x]) == Paint(img, path[0], table[x])
  {
    assert [x][1..] == [];
  }

  lemma {:induction false} NextInPass(row: nat, gap: nat, h: nat, later: seq<nat>)
    requires gap > 0 && row < h
    ensures (Pass(row, gap, h) + later)[1..] == Pass(row + gap, gap, h) + later
  {}

  lemma {:induction false} EmptyPass(row: nat, gap: nat, h: nat)
    requires gap > 0
    ensures row >= h ==> Pass(row, gap, h) == []
  {}

  lemma {:induction false} FirstOfPass(row: nat, gap: nat, h: nat, later: seq<nat>, parse: nat)
    requires gap > 0 && later == LaterPasses(parse, h)
    ensures row < h ==> var rows := Pass(row, gap, h) + later; rows != [] && rows[0] == row
    ensures row >= h && parse == 0 ==> Pass(row, gap, h) + later == []
  {}
}
