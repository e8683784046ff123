/**
 Writing indices as LZW codes for a GIF (Appendix F of GIF89a). The indices are cut into words, each a single index or
 an earlier word with the first index of the word behind that; any such cut will do. Decoding gives the indices back.
 */
module GifWriter {
  import opened Bits
  import opened BitSequence
  import opened BitWriter
  import opened GifLzw
  import opened GifReference

  /** The words between two clear codes, and their codes. */
  datatype Segment = Segment(words: seq<seq<byte>>, codes: seq<nat>)

  /**
   The code of word `i`: its only index, or the number of an earlier word that is shorter by one; the index it lacks is
   the first of the word behind it, which may be this one.
   */
  predicate CodeSpells(cs: nat, words: seq<seq<byte>>, i: nat, code: nat)
    requires i < |words| && forall k :: 0 <= k < |words| ==> words[k] != []
  {
    if code < Pow2(cs) then |words[i]| == 1 && words[i][0] == code
    else
      var j := code - Pow2(cs) - 2;
      0 <= j < i && code < TABLE_SIZE && words[i] == words[j] + [words[j + 1][0]]
  }

  ghost predicate IsSegment(cs: nat, g: Segment) {
    && |g.words| == |g.codes| && (forall k :: 0 <= k < |g.words| ==> g.words[k] != [])
    && forall i :: 0 <= i < |g.words| ==> CodeSpells(cs, g.words, i, g.codes[i])
  }

  function Joined(words: seq<seq<byte>>): seq<byte> {
    if words == [] then [] else Joined(words[..|words| - 1]) + words[|words| - 1]
  }

  /** How many words are numbered after `n` codes: all but the last one, as long as there are numbers. */
  function Numbered(cs: nat, n: nat): nat {
    var full := TABLE_SIZE - 2 - Pow2(cs);
    if n == 0 || full < 0 then 0 else if n - 1 < full then n - 1 else full
  }

  /** From `w` bits on, as many as the next number needs, but at most twelve. */
  function WidthFrom(w: nat, next: nat): nat
    decreases 12 - w
  {
    if w >= 12 || next < Pow2(w) then w else WidthFrom(w + 1, next)
  }

  /** The width of the code after `n` codes. */
  function Width(cs: nat, n: nat): nat {
    WidthFrom(cs + 1, Pow2(cs) + 2 + Numbered(cs, n))
  }

  /** The first `n` codes. */
  function CodesBits(cs: nat, codes: seq<nat>, n: nat): seq<bool>
    requires n <= |codes|
  {
    if n == 0 then [] else CodesBits(cs, codes, n - 1) + ValueBits(codes[n - 1], Width(cs, n - 1))
  }

  // ----- decoding a segment

  /** The words that have a number. */
  function NumberedWords(cs: nat, words: seq<seq<byte>>, n: nat): (dict: seq<seq<byte>>)
    requires n <= |words| && forall k :: 0 <= k < |words| ==> words[k] != []
    ensures |dict| == Numbered(cs, n)
  {
    seq(Numbered(cs, n), j requires 0 <= j < Numbered(cs, n) => words[j] + [words[j + 1][0]])
  }

  /** The decoder after `n` codes of a segment that starts at `pos`, with `out` written before. */
  function StateAfter(cs: nat, g: Segment, pos: nat, out: seq<byte>, n: nat): Progress
    requires |g.words| == |g.codes| && n <= |g.words| && forall k :: 0 <= k < |g.words| ==> g.words[k] != []
  {
    var prev := if n == 0 then [] else g.words[n - 1];
    Progress(State(pos + |CodesBits(cs, g.codes, n)|, Width(cs, n), NumberedWords(cs, g.words, n), prev, true,
                   out + Joined(g.words[..n])), n)
  }

  lemma {:induction false} WidthAtLeast(w: nat, next: nat)
    requires w <= 12
    ensures w <= WidthFrom(w, next) <= 12
    decreases 12 - w
  {
    if w < 12 && next >= Pow2(w) {
      WidthAtLeast(w + 1, next);
    }
  }

  /** The width goes up by one where the next number needs one more bit. */
  lemma {:induction false} WidthOfNext(w: nat, next: nat)
    requires w <= 12
    ensures var v := WidthFrom(w, next);
      WidthFrom(w, next + 1) == if v < 12 && next + 1 == Pow2(v) then v + 1 else v
    ensures var v := WidthFrom(w, next); v == 12 || next < Pow2(v)
    decreases 12 - w
  {
    if w < 12 && next >= Pow2(w) {
      WidthOfNext(w + 1, next);
    }
  }

  /** That is where the decoder's test holds. */
  lemma {:induction false} GrowIsNextWidth(cs: nat, size: nat, avail: nat)
    requires cs <= 11 && avail < TABLE_SIZE && size == WidthFrom(cs + 1, avail)
    ensures WidthFrom(cs + 1, avail + 1) == if Low(avail + 1, size) == 0 && avail + 1 <= 0xfff then size + 1 else size
  {
    WidthOfNext(cs + 1, avail);
    WidthAtLeast(cs + 1, avail);
    assert Pow2(12) == 4096;
    if avail + 1 < Pow2(size) {
      LowSmall(avail + 1, size);
    } else if size < 12 {
      ShlOne(size);
      ShrOfShl(1, size);
      Pow2Mono(size, 11);
      assert Pow2(11) == 2048;
    }
  }

  /** The code that comes next, and its bits. */
  lemma {:induction false} ReadsNextCode(cs: nat, data: seq<byte>, g: Segment, pos: nat, n: nat, at: nat, w: nat)
    requires 2 <= cs <= 8 && IsSegment(cs, g) && n < |g.codes|
    requires at == pos + |CodesBits(cs, g.codes, n)| && w == Width(cs, n)
    requires LsbAt(data, at, ValueBits(g.codes[n], w))
    ensures Lsb(data, at, w) == g.codes[n] && |CodesBits(cs, g.codes, n + 1)| == |CodesBits(cs, g.codes, n)| + w
    ensures cs + 1 <= w <= 12
  {
    hide LsbBits, ValueBits, Lsb;
    WidthAtLeast(cs + 1, Pow2(cs) + 2 + Numbered(cs, n));
    CodeFits(cs, g, n);
    ReadsValue(data, at, g.codes[n], w);
  }

  /** The width is enough for the code. */
  lemma {:induction false} CodeFits(cs: nat, g: Segment, n: nat)
    requires 2 <= cs <= 8 && IsSegment(cs, g) && n < |g.codes|
    ensures g.codes[n] < Pow2(Width(cs, n))
  {
    assert Pow2(12) == 4096 && Pow2(8) == 256;
    Pow2Mono(cs, 8);
    var next := Pow2(cs) + 2 + Numbered(cs, n);
    assert CodeSpells(cs, g.words, n, g.codes[n]);
    WidthOfNext(cs + 1, next);
    if Width(cs, n) < 12 {
      assert g.codes[n] <= next;
    }
  }

  lemma {:induction false} JoinedSnoc(words: seq<seq<byte>>, n: nat)
    requires n < |words|
    ensures Joined(words[..n + 1]) == Joined(words[..n]) + words[n]
  {
    assert words[..n + 1][..n] == words[..n];
  }

  /** After a clear code, and after the first code behind it, codes have one bit more than the minimum. */
  lemma {:induction false} FirstWidths(cs: nat)
    requires 2 <= cs <= 8
    ensures Numbered(cs, 0) == Numbered(cs, 1) == 0 && Width(cs, 0) == Width(cs, 1) == cs + 1
    ensures Low(Pow2(cs) + 2, cs + 1) > 0 && 4 <= Pow2(cs) <= 256
  {
    assert Pow2(2) == 4 && Pow2(8) == 256;
    Pow2Mono(cs, 8);
    Pow2Mono(2, cs);
    assert Pow2(cs + 1) == 2 * Pow2(cs);
    LowSmall(Pow2(cs) + 2, cs + 1);
  }

  lemma {:induction false} FirstStates(cs: nat, g: Segment, pos: nat, out: seq<byte>)
    requires 2 <= cs <= 8 && IsSegment(cs, g)
    ensures StateAfter(cs, g, pos, out, 0) == Progress(State(pos, cs + 1, [], [], true, out), 0)
    ensures g.words != [] ==>
      StateAfter(cs, g, pos, out, 1) == Progress(State(pos + cs + 1, cs + 1, [], g.words[0], true, out + g.words[0]), 1)
  {
    FirstWidths(cs);
    hide Width, Numbered, Pow2;
    assert Joined(g.words[..0]) == [];
    if g.words != [] {
      JoinedSnoc(g.words, 0);
    }
  }

  lemma {:induction false} FirstCode(cs: nat, data: seq<byte>, g: Segment, pos: nat, out: seq<byte>)
    requires 2 <= cs <= 8 && IsSegment(cs, g) && g.codes != []
    requires LsbAt(data, pos, ValueBits(g.codes[0], Width(cs, 0))) && pos + cs + 1 <= 8 * |data|
    ensures RefStep(cs, data, StateAfter(cs, g, pos, out, 0)) == Going(StateAfter(cs, g, pos, out, 1))
  {
    hide LsbBits, ValueBits, Lsb, Low, Width, WidthFrom, Numbered, Joined, StateAfter, Pow2;
    FirstStates(cs, g, pos, out);
    FirstWidths(cs);
    ReadsNextCode(cs, data, g, pos, 0, pos, cs + 1);
    assert CodeSpells(cs, g.words, 0, g.codes[0]);
    assert g.words[0] == [g.codes[0]];
  }

  /** The decoder finds the word that the code stands for: in its table, or put together from the last one. */
  lemma {:induction false} WordOfCode(cs: nat, g: Segment, s: State, n: nat)
    requires cs <= 8 && IsSegment(cs, g) && 1 <= n < |g.words| && Sound(s)
    requires s.prev == g.words[n - 1] && s.dict == NumberedWords(cs, g.words, n)
    ensures var code := g.codes[n];
      if Avail(cs, s) < TABLE_SIZE then IsString(cs, s, code) && StringOf(cs, s, code) == g.words[n]
      else code < Avail(cs, s) && IsEntry(cs, s.dict, code) && Entry(cs, s.dict, code) == g.words[n]
  {
    assert Pow2(8) == 256;
    Pow2Mono(cs, 8);
    var code := g.codes[n];
    assert CodeSpells(cs, g.words, n, code);
    if code < Pow2(cs) {
      assert g.words[n] == [code];
    } else {
      hide Pow2;
      var j := code - Pow2(cs) - 2;
      if j < |s.dict| {
        assert s.dict[j] == g.words[j] + [g.words[j + 1][0]];
      } else {
        assert j == n - 1 && g.words[n][0] == g.words[j][0];
      }
    }
  }

  /** One more word is numbered, unless all numbers are taken. */
  lemma {:induction false} NextNumber(cs: nat, words: seq<seq<byte>>, n: nat)
    requires cs <= 8 && 1 <= n < |words| && forall k :: 0 <= k < |words| ==> words[k] != []
    ensures var dict := NumberedWords(cs, words, n);
      NumberedWords(cs, words, n + 1) ==
        if Pow2(cs) + 2 + |dict| < TABLE_SIZE then dict + [words[n - 1] + [words[n][0]]] else dict
    ensures Pow2(cs) + 2 + |NumberedWords(cs, words, n)| <= TABLE_SIZE
  {
    assert Pow2(8) == 256;
    Pow2Mono(cs, 8);
  }

  lemma {:induction false} NextState(cs: nat, g: Segment, pos: nat, out: seq<byte>, n: nat)
    requires 2 <= cs <= 8 && IsSegment(cs, g) && 1 <= n < |g.words|
    ensures var s := StateAfter(cs, g, pos, out, n).s;
      Sound(s) && s.prev != [] && StateAfter(cs, g, pos, out, n + 1) == Progress(AfterString(cs, s, g.words[n]), n + 1)
  {
    hide Width, Low, Pow2, NumberedWords, CodesBits, Joined, Numbered;
    NextNumber(cs, g.words, n);
    JoinedSnoc(g.words, n);
    NumberedSound(cs, g.words, n);
    NextWidth(cs, n);
    MoreBits(cs, g.codes, n);
  }

  lemma {:induction false} MoreBits(cs: nat, codes: seq<nat>, n: nat)
    requires n < |codes|
    ensures |CodesBits(cs, codes, n + 1)| == |CodesBits(cs, codes, n)| + Width(cs, n)
  {}

  /** The width after the next code, as the decoder computes it. */
  lemma {:induction false} NextWidth(cs: nat, n: nat)
    requires cs <= 8 && n >= 1
    ensures var avail, size := Pow2(cs) + 2 + Numbered(cs, n), Width(cs, n);
      Width(cs, n + 1) ==
        if avail < TABLE_SIZE && Low(avail + 1, size) == 0 && avail + 1 <= 0xfff then size + 1 else size
  {
    assert Pow2(8) == 256;
    Pow2Mono(cs, 8);
    hide WidthFrom, Low, Pow2;
    var avail := Pow2(cs) + 2 + Numbered(cs, n);
    if avail < TABLE_SIZE {
      GrowIsNextWidth(cs, Width(cs, n), avail);
    }
  }

  lemma {:induction false} NumberedSound(cs: nat, words: seq<seq<byte>>, n: nat)
    requires n <= |words| && forall k :: 0 <= k < |words| ==> words[k] != []
    ensures forall i :: 0 <= i < |NumberedWords(cs, words, n)| ==> NumberedWords(cs, words, n)[i] != []
  {}

  /** The state after a string, while there are numbers, and after that. */
  function AfterString(cs: nat, s: State, w: seq<byte>): State
    requires s.prev != [] && w != []
  {
    var next := s.(pos := s.pos + s.size, prev := w, out := s.out + w);
    if Avail(cs, s) < TABLE_SIZE then Grow(cs, next.(dict := s.dict + [s.prev + [w[0]]])) else next
  }

  lemma {:induction false} StringStep(cs: nat, data: seq<byte>, s: State, n: nat, code: nat, w: seq<byte>)
    requires Sound(s) && s.prev != [] && w != [] && s.pos + s.size <= 8 * |data| && Lsb(data, s.pos, s.size) == code
    requires code != Pow2(cs) && code != Pow2(cs) + 1
    requires if Avail(cs, s) < TABLE_SIZE then IsString(cs, s, code) && StringOf(cs, s, code) == w
             else code < Avail(cs, s) && IsEntry(cs, s.dict, code) && Entry(cs, s.dict, code) == w
    ensures RefStep(cs, data, Progress(s, n)) == Going(Progress(AfterString(cs, s, w), n + 1))
  {
    hide Low, Pow2;
  }

  /** One code: the decoder takes one step, and the output grows by the word. */
  lemma {:induction false} LaterCode(cs: nat, data: seq<byte>, g: Segment, pos: nat, out: seq<byte>, n: nat, at: nat)
    requires 2 <= cs <= 8 && IsSegment(cs, g) && 1 <= n < |g.codes| && at == pos + |CodesBits(cs, g.codes, n)|
    requires LsbAt(data, at, ValueBits(g.codes[n], Width(cs, n))) && at + Width(cs, n) <= 8 * |data|
    ensures Sound(StateAfter(cs, g, pos, out, n).s)
    ensures RefStep(cs, data, StateAfter(cs, g, pos, out, n)) == Going(StateAfter(cs, g, pos, out, n + 1))
  {
    hide LsbBits, ValueBits, Lsb, Low, Width, Numbered, Joined, Pow2, NumberedWords, StringOf, Entry, Grow, CodesBits;
    hide RefStep;
    var s := StateAfter(cs, g, pos, out, n).s;
    NextState(cs, g, pos, out, n);
    ReadsNextCode(cs, data, g, pos, n, at, Width(cs, n));
    WordOfCode(cs, g, s, n);
    assert CodeSpells(cs, g.words, n, g.codes[n]);
    StringStep(cs, data, s, n, g.codes[n], g.words[n]);
  }

  lemma {:induction false} AnyCode(cs: nat, data: seq<byte>, g: Segment, pos: nat, out: seq<byte>, n: nat, at: nat)
    requires 2 <= cs <= 8 && IsSegment(cs, g) && n < |g.codes| && at == pos + |CodesBits(cs, g.codes, n)|
    requires LsbAt(data, at, ValueBits(g.codes[n], Width(cs, n))) && at + Width(cs, n) <= 8 * |data|
    ensures Sound(StateAfter(cs, g, pos, out, n).s)
    ensures RefStep(cs, data, StateAfter(cs, g, pos, out, n)) == Going(StateAfter(cs, g, pos, out, n + 1))
  {
    hide LsbBits, ValueBits, RefStep, StateAfter, Width;
    if n == 0 {
      FirstWidths(cs);
      FirstStates(cs, g, pos, out);
      FirstCode(cs, data, g, pos, out);
    } else {
      LaterCode(cs, data, g, pos, out, n, at);
    }
  }

  // ----- whole data

  /** A clear code, then the codes of the segment. */
  function SegmentBits(cs: nat, g: Segment, w: nat): seq<bool> {
    ValueBits(Pow2(cs), w) + CodesBits(cs, g.codes, |g.codes|)
  }

  /** The width that the next code has, after the segments so far. */
  function WidthAfter(cs: nat, segments: seq<Segment>): nat {
    if segments == [] then cs + 1 else Width(cs, |segments[|segments| - 1].codes|)
  }

  function SegmentsBits(cs: nat, segments: seq<Segment>): seq<bool> {
    if segments == [] then []
    else
      var init := segments[..|segments| - 1];
      SegmentsBits(cs, init) + SegmentBits(cs, segments[|segments| - 1], WidthAfter(cs, init))
  }

  /** All codes: segments, and the end code. */
  function GifBits(cs: nat, segments: seq<Segment>): seq<bool> {
    SegmentsBits(cs, segments) + ValueBits(Pow2(cs) + 1, WidthAfter(cs, segments))
  }

  /** The indices that the segments stand for. */
  function Indices(segments: seq<Segment>): seq<byte> {
    if segments == [] then []
    else Indices(segments[..|segments| - 1]) + Joined(segments[|segments| - 1].words)
  }

  ghost predicate AreSegments(cs: nat, segments: seq<Segment>) {
    forall i :: 0 <= i < |segments| ==> IsSegment(cs, segments[i])
  }

  /** How many codes the segments take. */
  function CodeCount(segments: seq<Segment>): nat {
    if segments == [] then 0 else CodeCount(segments[..|segments| - 1]) + 1 + |segments[|segments| - 1].codes|
  }

  /** The codes of a segment, one after the other. */
  lemma {:induction false} CodesDecode(cs: nat, data: seq<byte>, g: Segment, pos: nat, out: seq<byte>, n: nat,
                                       before: nat)
    requires 2 <= cs <= 8 && IsSegment(cs, g) && n <= |g.codes|
    requires LsbAt(data, pos, CodesBits(cs, g.codes, n)) && pos + |CodesBits(cs, g.codes, n)| <= 8 * |data|
    requires RefRun(cs, data, before) == Going(StateAfter(cs, g, pos, out, 0))
    ensures RefRun(cs, data, before + n) == Going(StateAfter(cs, g, pos, out, n))
  {
    hide LsbBits, ValueBits, RefStep, StateAfter, Width;
    if n > 0 {
      var at := pos + |CodesBits(cs, g.codes, n - 1)|;
      LsbAtSplit(data, pos, CodesBits(cs, g.codes, n - 1), ValueBits(g.codes[n - 1], Width(cs, n - 1)), at);
      CodesDecode(cs, data, g, pos, out, n - 1, before);
      AnyCode(cs, data, g, pos, out, n - 1, at);
    }
  }

  /** A clear code makes the decoder forget its table. */
  lemma {:induction false} ClearReads(cs: nat, data: seq<byte>, p: Progress, g: Segment)
    requires 2 <= cs <= 8 && IsSegment(cs, g) && Sound(p.s) && cs + 1 <= p.s.size && p.s.pos + p.s.size <= 8 * |data|
    requires LsbAt(data, p.s.pos, ValueBits(Pow2(cs), p.s.size))
    ensures RefStep(cs, data, p) == Going(StateAfter(cs, g, p.s.pos + p.s.size, p.s.out, 0))
  {
    FirstStates(cs, g, p.s.pos + p.s.size, p.s.out);
    Pow2Mono(cs, p.s.size);
    hide StateAfter, LsbBits, ValueBits, Lsb, Low, Pow2;
    ReadsValue(data, p.s.pos, Pow2(cs), p.s.size);
  }

  /** The decoder after the segments: where their codes end, with their indices written. */
  ghost predicate Reached(cs: nat, r: Result, segments: seq<Segment>) {
    && r.Going? && Sound(r.p.s) && r.p.s.pos == |SegmentsBits(cs, segments)| && r.p.s.out == Indices(segments)
    && r.p.s.size == WidthAfter(cs, segments) && cs + 1 <= r.p.s.size
  }

  lemma {:induction false} SegmentsDecode(cs: nat, data: seq<byte>, segments: seq<Segment>)
    requires 2 <= cs <= 8 && AreSegments(cs, segments)
    requires LsbAt(data, 0, SegmentsBits(cs, segments)) && |SegmentsBits(cs, segments)| <= 8 * |data|
    ensures Reached(cs, RefRun(cs, data, CodeCount(segments)), segments)
    decreases |segments|
  {
    hide LsbBits, ValueBits, RefStep, Width, StateAfter, IsSegment;
    if segments != [] {
      var k := |segments| - 1;
      var init, g := segments[..k], segments[k];
      var at, w := |SegmentsBits(cs, init)|, WidthAfter(cs, init);
      LsbAtSplit(data, 0, SegmentsBits(cs, init), SegmentBits(cs, g, w), at);
      LsbAtSplit(data, at, ValueBits(Pow2(cs), w), CodesBits(cs, g.codes, |g.codes|), at + w);
      SegmentsDecode(cs, data, init);
      var n := CodeCount(init);
      ClearReads(cs, data, RefRun(cs, data, n).p, g);
      CodesDecode(cs, data, g, at + w, Indices(init), |g.codes|, n + 1);
      SegmentDone(cs, g, at + w, Indices(init));
    }
  }

  lemma {:induction false} SegmentDone(cs: nat, g: Segment, pos: nat, out: seq<byte>)
    requires 2 <= cs <= 8 && IsSegment(cs, g)
    ensures var s := StateAfter(cs, g, pos, out, |g.codes|).s;
      && s.pos == pos + |CodesBits(cs, g.codes, |g.codes|)| && s.out == out + Joined(g.words)
      && s.size == Width(cs, |g.codes|) && cs + 1 <= s.size && Sound(s)
  {
    hide WidthFrom, Pow2, NumberedWords, CodesBits, Joined, CodeSpells;
    assert g.words[..|g.words|] == g.words;
    WidthAtLeast(cs + 1, Pow2(cs) + 2 + Numbered(cs, |g.codes|));
    NumberedSound(cs, g.words, |g.words|);
    hide Numbered;
    NothingNumbered(cs, g.words);
  }

  lemma {:induction false} NothingNumbered(cs: nat, words: seq<seq<byte>>)
    ensures |words| == 0 ==> Numbered(cs, |words|) == 0
  {}

  /** Where the parts are in the data. */
  lemma {:induction false} GifParts(cs: nat, segments: seq<Segment>, after: seq<byte>)
    ensures var data := PackLow(GifBits(cs, segments)) + after;
      var at, w := |SegmentsBits(cs, segments)|, WidthAfter(cs, segments);
      && LsbAt(data, 0, SegmentsBits(cs, segments)) && LsbAt(data, at, ValueBits(Pow2(cs) + 1, w))
      && at + w <= 8 * |data|
  {
    hide PackLow, LsbBits, ValueBits, SegmentsBits, WidthAfter;
    var data := PackLow(GifBits(cs, segments)) + after;
    assert data == [] + PackLow(GifBits(cs, segments)) + after;
    PackedLow(GifBits(cs, segments), [], after, 0);
    var at, w := |SegmentsBits(cs, segments)|, WidthAfter(cs, segments);
    LsbAtSplit(data, 0, SegmentsBits(cs, segments), ValueBits(Pow2(cs) + 1, w), at);
  }

  /** Decoding by Appendix F what was written gives the indices. */
  lemma {:induction false} LzwInverts(cs: nat, segments: seq<Segment>, after: seq<byte>)
    requires 2 <= cs <= 8 && AreSegments(cs, segments)
    ensures RefDecodes(cs, PackLow(GifBits(cs, segments)) + after, Finished(Indices(segments)))
  {
    hide PackLow, GifBits, LsbBits, ValueBits, SegmentsBits, WidthAfter, AreSegments;
    var data := PackLow(GifBits(cs, segments)) + after;
    GifParts(cs, segments, after);
    SegmentsDecode(cs, data, segments);
    var n := CodeCount(segments);
    EndReads(cs, data, RefRun(cs, data, n).p);
    assert RefRun(cs, data, n + 1) == Ended(Indices(segments));
  }

  lemma {:induction false} EndReads(cs: nat, data: seq<byte>, p: Progress)
    requires 2 <= cs && Sound(p.s) && cs + 1 <= p.s.size && p.s.pos + p.s.size <= 8 * |data|
    requires LsbAt(data, p.s.pos, ValueBits(Pow2(cs) + 1, p.s.size))
    ensures RefStep(cs, data, p) == Ended(p.s.out)
  {
    Pow2Mono(cs, p.s.size);
    Pow2Mono(2, cs);
    hide LsbBits, ValueBits, Lsb, Low;
    ReadsValue(data, p.s.pos, Pow2(cs) + 1, p.s.size);
  }

  /** All indices can be written, if only one by one, and with as many clear codes as one likes. */
  lemma {:induction false} EveryImageCompresses(cs: nat, indices: seq<byte>, length: nat)
    returns (segments: seq<Segment>)
    requires length > 0 && forall i :: 0 <= i < |indices| ==> indices[i] < Pow2(cs)
    ensures AreSegments(cs, segments) && Indices(segments) == indices
    ensures forall i :: 0 <= i < |segments| ==> |segments[i].codes| <= length
    decreases |indices|
  {
    hide IsSegment, Joined, Pow2;
    if indices == [] {
      segments := [];
    } else {
      var k := if |indices| < length then 0 else |indices| - length;
      var init := EveryImageCompresses(cs, indices[..k], length);
      var g := SinglesSegment(cs, indices[k..]);
      segments := init + [g];
      assert segments[..|init|] == init && indices == indices[..k] + indices[k..];
    }
  }

  lemma {:induction false} SinglesSegment(cs: nat, part: seq<byte>) returns (g: Segment)
    requires forall i :: 0 <= i < |part| ==> part[i] < Pow2(cs)
    ensures IsSegment(cs, g) && Joined(g.words) == part && |g.codes| == |part|
  {
    g := Segment(seq(|part|, i requires 0 <= i < |part| => [part[i]]),
                 seq(|part|, i requires 0 <= i < |part| => part[i]));
    SinglesJoined(g.words, part);
    hide Joined;
  }

  lemma {:induction false} SinglesJoined(words: seq<seq<byte>>, part: seq<byte>)
    requires |words| == |part| && forall i :: 0 <= i < |part| ==> words[i] == [part[i]]
    ensures Joined(words) == part
  {
    if words != [] {
      var n := |words| - 1;
      SinglesJoined(words[..n], part[..n]);
      assert part == part[..n] + [part[n]];
    }
  }

  // ----- the decoder does not refuse it

  /** No code before the `n`th one is refused. */
  ghost predicate Calm(cs: nat, data: seq<byte>, n: nat) {
    forall m: nat :: m < n && RefRun(cs, data, m).Going? ==> !Refuses(cs, data, RefRun(cs, data, m).p)
  }

  /** An encoder that clears the table before the decoder's own limit of 8191 codes. */
  predicate ClearsInTime(cs: nat, segments: seq<Segment>) {
    forall i :: 0 <= i < |segments| ==> |segments[i].codes| + Pow2(cs) <= 8191
  }

  lemma {:induction false} CodesCalm(cs: nat, data: seq<byte>, g: Segment, pos: nat, out: seq<byte>, n: nat,
                                     before: nat)
    requires 2 <= cs <= 8 && IsSegment(cs, g) && n <= |g.codes| && n + Pow2(cs) <= 8191
    requires LsbAt(data, pos, CodesBits(cs, g.codes, n)) && pos + |CodesBits(cs, g.codes, n)| <= 8 * |data|
    requires RefRun(cs, data, before) == Going(StateAfter(cs, g, pos, out, 0)) && Calm(cs, data, before)
    ensures Calm(cs, data, before + n)
  {
    hide LsbBits, ValueBits, RefStep, Width, RefRun;
    if n > 0 {
      var at := pos + |CodesBits(cs, g.codes, n - 1)|;
      LsbAtSplit(data, pos, CodesBits(cs, g.codes, n - 1), ValueBits(g.codes[n - 1], Width(cs, n - 1)), at);
      CodesCalm(cs, data, g, pos, out, n - 1, before);
      CodesDecode(cs, data, g, pos, out, n - 1, before);
      AnyCode(cs, data, g, pos, out, n - 1, at);
    }
  }

  lemma {:induction false} SegmentsCalm(cs: nat, data: seq<byte>, segments: seq<Segment>)
    requires 2 <= cs <= 8 && AreSegments(cs, segments) && ClearsInTime(cs, segments)
    requires LsbAt(data, 0, SegmentsBits(cs, segments)) && |SegmentsBits(cs, segments)| <= 8 * |data|
    ensures Calm(cs, data, CodeCount(segments))
    decreases |segments|
  {
    hide LsbBits, ValueBits, RefStep, Width, IsSegment;
    if segments != [] {
      var k := |segments| - 1;
      var init, g := segments[..k], segments[k];
      var at, w := |SegmentsBits(cs, init)|, WidthAfter(cs, init);
      LsbAtSplit(data, 0, SegmentsBits(cs, init), SegmentBits(cs, g, w), at);
      LsbAtSplit(data, at, ValueBits(Pow2(cs), w), CodesBits(cs, g.codes, |g.codes|), at + w);
      SegmentsCalm(cs, data, init);
      SegmentsDecode(cs, data, init);
      var n := CodeCount(init);
      ClearReads(cs, data, RefRun(cs, data, n).p, g);
      assert Calm(cs, data, n + 1);
      CodesCalm(cs, data, g, at + w, Indices(init), |g.codes|, n + 1);
    }
  }

  /** So the decoder's outcome on it is the indices. */
  lemma {:induction false} DecoderInverts(cs: nat, segments: seq<Segment>, after: seq<byte>, result: Outcome)
    requires 2 <= cs <= 8 && AreSegments(cs, segments) && ClearsInTime(cs, segments)
    requires Decodes(cs, PackLow(GifBits(cs, segments)) + after, result)
    ensures result == Finished(Indices(segments))
  {
    var data := PackLow(GifBits(cs, segments)) + after;
    LzwInverts(cs, segments, after);
    NeverRefused(cs, segments, after);
    OutcomeExact(cs, data, result, Finished(Indices(segments)));
  }

  lemma {:induction false} NeverRefused(cs: nat, segments: seq<Segment>, after: seq<byte>)
    requires 2 <= cs <= 8 && AreSegments(cs, segments) && ClearsInTime(cs, segments)
    ensures !Refused(cs, PackLow(GifBits(cs, segments)) + after)
  {
    hide PackLow, GifBits, LsbBits, ValueBits, SegmentsBits, WidthAfter, RefStep, RefRun, AreSegments, Calm, Refused;
    var data := PackLow(GifBits(cs, segments)) + after;
    GifParts(cs, segments, after);
    SegmentsDecode(cs, data, segments);
    SegmentsCalm(cs, data, segments);
    EndReads(cs, data, RefRun(cs, data, CodeCount(segments)).p);
    CalmToTheEnd(cs, data, CodeCount(segments));
  }

  lemma {:induction false} CalmToTheEnd(cs: nat, data: seq<byte>, n: nat)
    requires Calm(cs, data, n) && RefRun(cs, data, n).Going? && RefStep(cs, data, RefRun(cs, data, n).p).Ended?
    ensures !Refused(cs, data)
  {
    hide RefStep, Refuses;
    EndNotRefused(cs, data, RefRun(cs, data, n).p);
    assert !RefRun(cs, data, n + 1).Going?;
    forall m: nat | RefRun(cs, data, m).Going? ensures !Refuses(cs, data, RefRun(cs, data, m).p) {
      if m > n {
        RefStays(cs, data, n + 1, m);
      }
    }
  }

  lemma {:induction false} EndNotRefused(cs: nat, data: seq<byte>, p: Progress)
    requires Sound(p.s) && RefStep(cs, data, p).Ended?
    ensures !Refuses(cs, data, p)
  {}

  // ----- sub-blocks

  /** Data as sub-blocks: a length byte before each part, and a length of zero behind the last. */
  function SubBlocks(parts: seq<seq<byte>>): seq<byte>
    requires forall i :: 0 <= i < |parts| ==> 0 < |parts[i]| <= 255
  {
    if parts == [] then [0] else [|parts[0]|] + parts[0] + SubBlocks(parts[1..])
  }

  function Whole(parts: seq<seq<byte>>): seq<byte> {
    if parts == [] then [] else parts[0] + Whole(parts[1..])
  }

  /** Reading the sub-blocks gives the data, wherever they lie and whatever is behind. */
  lemma {:induction false} DeblockInverts(raw: seq<byte>, i: nat, parts: seq<seq<byte>>, after: seq<byte>)
    requires forall k :: 0 <= k < |parts| ==> 0 < |parts[k]| <= 255
    requires i <= |raw| && raw[i..] == SubBlocks(parts) + after
    ensures Deblock(raw, i) == Whole(parts)
    decreases |parts|
  {
    if parts == [] {
      assert raw[i..][0] == 0;
    } else {
      var part, rest := parts[0], parts[1..];
      var end := i + 1 + |part|;
      PartComesFirst(raw, i, part, SubBlocks(rest) + after, SubBlocks(rest), end);
      DeblockInverts(raw, end, rest, after);
    }
  }

  lemma {:induction false} PartComesFirst(raw: seq<byte>, i: nat, part: seq<byte>, tail: seq<byte>, rest: seq<byte>,
                                          end: nat)
    requires 0 < |part| <= 255 && end == i + 1 + |part| && i <= |raw| && |rest| <= |tail| && tail[..|rest|] == rest
    requires raw[i..] == [|part|] + part + rest + tail[|rest|..]
    ensures end <= |raw| && raw[end..] == tail && Deblock(raw, i) == part + Deblock(raw, end)
  {
    assert rest + tail[|rest|..] == tail;
    assert raw[i..] == [|part|] + part + tail;
    assert raw[i] == raw[i..][0] == |part|;
    assert raw[i + 1..end] == raw[i..][1..1 + |part|] == part;
    assert raw[end..] == raw[i..][1 + |part|..] == tail;
    hide BytesFrom;
    PartIs(raw, i + 1, part);
  }

  lemma {:induction false} PartIs(raw: seq<byte>, i: nat, part: seq<byte>)
    requires i + |part| <= |raw| && raw[i..i + |part|] == part
    ensures BytesFrom(raw, i, |part|) == part
    decreases |part|
  {
    if part != [] {
      assert raw[i + 1..i + 1 + |part[1..]|] == part[1..] && raw[i] == part[0];
      PartIs(raw, i + 1, part[1..]);
    }
  }
}
