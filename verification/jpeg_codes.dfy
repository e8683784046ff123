/**
 JPEG Huffman codes (Annex C of ITU-T T.81): the symbols come sorted by code length, and
 the decoder looks at nine bits before it compares against one threshold per length.
 */
module JpegCodes {
  import opened Bits
  import opened Counts = HuffmanCodes
  import opened CanonicalCodes

  // ----- the size list

  /** The size list of Annex C: `counts[i]` codes of length `i + 1`, shortest first. */
  function SizeList(counts: seq<nat>, n: nat): seq<nat>
    requires n <= |counts|
  {
    if n == 0 then [] else SizeList(counts, n - 1) + Repeat(n, counts[n - 1])
  }

  ghost predicate IsSizeList(sizes: seq<nat>) {
    && (forall i :: 0 <= i < |sizes| ==> 1 <= sizes[i] <= 16)
    && (forall i, j :: 0 <= i <= j < |sizes| ==> sizes[i] <= sizes[j])
  }

  lemma {:induction false} SizeListSorted(counts: seq<nat>, n: nat)
    requires n <= |counts| && n <= 16
    ensures IsSizeList(SizeList(counts, n))
    ensures forall i :: 0 <= i < |SizeList(counts, n)| ==> SizeList(counts, n)[i] <= n
  {
    if n > 0 {
      SizeListSorted(counts, n - 1);
      RepeatIs(n, counts[n - 1]);
    }
  }

  /** The list holds exactly the announced number of codes of each length. */
  lemma {:induction false} SizeListCounts(counts: seq<nat>, n: nat, len: nat)
    requires n <= |counts|
    ensures Count(SizeList(counts, n), len) == if 1 <= len <= n then counts[len - 1] else 0
  {
    if n > 0 {
      SizeListCounts(counts, n - 1, len);
      CountConcatRepeat(SizeList(counts, n - 1), n, counts[n - 1], len);
    }
  }

  // ----- positions in a sorted list

  /** If all lengths are at most `len`, all of them are counted. */
  lemma {:induction false} AllBefore(s: seq<nat>, len: nat)
    requires forall i :: 0 <= i < |s| ==> 1 <= s[i] <= len
    ensures Before(s, len + 1) == |s|
  {
    if s == [] {
      BeforeOfNone(len + 1);
    } else {
      var n := |s| - 1;
      AllBefore(s[..n], len);
      BeforeSnoc(s[..n], s[n], len + 1);
      assert s[..n] + [s[n]] == s;
    }
  }

  /** Lengths from `len` on do not change what comes before it. */
  lemma {:induction false} BeforePrefix(s: seq<nat>, i: nat, len: nat)
    requires i <= |s| && forall j :: i <= j < |s| ==> s[j] >= len
    ensures Before(s, len) == Before(s[..i], len)
    decreases |s|
  {
    if i == |s| {
      assert s[..i] == s;
    } else {
      var n := |s| - 1;
      BeforePrefix(s[..n], i, len);
      BeforeSnoc(s[..n], s[n], len);
      assert s[..n] + [s[n]] == s && s[..n][..i] == s[..i];
    }
  }

  /** In a size list, every symbol sits at its own sorted position. */
  lemma {:induction false} SortedPosition(sizes: seq<nat>, i: nat)
    requires IsSizeList(sizes) && i < |sizes|
    ensures SortedIndex(sizes, i) == i
  {
    AllBefore(sizes[..i], sizes[i]);
    BeforePrefix(sizes, i, sizes[i]);
  }

  /** The codes of length `len` are those at positions from Before(len) to Before(len + 1). */
  lemma {:induction false} LengthAt(sizes: seq<nat>, i: nat, len: nat)
    requires IsSizeList(sizes) && i < |sizes| && len >= 1
    ensures sizes[i] == len <==> Before(sizes, len) <= i < Before(sizes, len + 1)
  {
    SortedPosition(sizes, i);
    SortedIndexBound(sizes, i);
    if sizes[i] < len {
      BeforeMono(sizes, sizes[i] + 1, len);
    } else if sizes[i] > len {
      BeforeMono(sizes, len + 1, sizes[i]);
    }
  }

  // ----- the codes of Annex C

  lemma {:induction false} NextCodeGap(sizes: seq<nat>, a: nat, b: nat)
    requires 1 <= a < b && forall len :: a < len < b ==> Count(sizes, len) == 0
    ensures NextCode(sizes, b) == Shl(NextCode(sizes, a) + Count(sizes, a), b - a)
  {
    if a + 1 < b {
      NextCodeGap(sizes, a, b - 1);
    } else {
      var x := NextCode(sizes, a) + Count(sizes, a);
      assert Shl(x, 1) == 2 * Shl(x, 0);
    }
  }

  /** Annex C: start at zero; add one; shift left where the length grows. */
  lemma {:induction false} CodesOfAnnexC(sizes: seq<nat>, i: nat)
    requires IsSizeList(sizes) && i < |sizes|
    ensures i == 0 ==> SymbolCode(sizes, 0) == 0
    ensures i + 1 < |sizes| ==> SymbolCode(sizes, i + 1) == Shl(SymbolCode(sizes, i) + 1, sizes[i + 1] - sizes[i])
  {
    SortedPosition(sizes, i);
    if i == 0 {
      FirstIsZero(sizes, sizes[0]);
    }
    if i + 1 < |sizes| {
      SortedPosition(sizes, i + 1);
      var a, b := sizes[i], sizes[i + 1];
      if a < b {
        SortedIndexBound(sizes, i);
        SortedIndexBound(sizes, i + 1);
        BeforeMono(sizes, a + 1, b);
        forall len | a < len < b ensures Count(sizes, len) == 0 {
          CountZero(sizes, len);
        }
        NextCodeGap(sizes, a, b);
      }
    }
  }

  lemma {:induction false} FirstIsZero(sizes: seq<nat>, len: nat)
    requires Before(sizes, len) == 0
    ensures NextCode(sizes, len) == 0
  {
    if len > 1 {
      FirstIsZero(sizes, len - 1);
    }
  }

  // ----- the two-step lookup

  /** Nine bits `w` start with the code of symbol `i`. */
  predicate FastHit(sizes: seq<nat>, i: nat, w: nat)
    requires i < |sizes|
  {
    0 < sizes[i] <= 9 && Shr(w, 9 - sizes[i]) == SymbolCode(sizes, i)
  }

  /** What the first `n` symbols leave in the acceleration table; 255 means not accelerated. */
  function FastEntry(sizes: seq<nat>, w: nat, n: nat): (r: nat)
    requires n <= |sizes|
    ensures r == 255 || (r < n && FastHit(sizes, r, w))
  {
    if n == 0 then 255
    else if FastHit(sizes, n - 1, w) then n - 1
    else FastEntry(sizes, w, n - 1)
  }

  /** The first length from `k` on whose threshold exceeds the window; 17 if there is none. */
  function FirstLength(sizes: seq<nat>, window: nat, k: nat): (r: nat)
    requires k <= 17
    ensures k <= r <= 17
    decreases 17 - k
  {
    if k == 17 || window < Below(sizes, k) then k else FirstLength(sizes, window, k + 1)
  }

  datatype Found = Symbol(id: nat, length: nat) | Nothing

  /** What the tables say about the next 16 bits. */
  function Lookup(sizes: seq<nat>, window: nat): (r: Found)
    requires |sizes| <= 256
    ensures r.Symbol? ==> r.id < 256
  {
    var f := FastEntry(sizes, Shr(window, 7), |sizes|);
    if f < 255 then Symbol(f, sizes[f])
    else
      var k := FirstLength(sizes, window, 10);
      if k == 17 then Nothing
      else
        var c := Shr(window, 16 - k) + Before(sizes, k) - NextCode(sizes, k);
        if c < 0 || c >= 256 then Nothing else Symbol(c, k)
  }

  /** What Annex C says about them. */
  ghost function Canonical(sizes: seq<nat>, window: nat): Found {
    if exists i: nat :: Matches(sizes, i, window)
    then var i: nat :| Matches(sizes, i, window); Symbol(i, sizes[i])
    else Nothing
  }

  lemma {:induction false} CanonicalIs(sizes: seq<nat>, window: nat, i: nat)
    requires Matches(sizes, i, window)
    ensures Canonical(sizes, window) == Symbol(i, sizes[i])
  {
    var j: nat :| Matches(sizes, j, window) && Canonical(sizes, window) == Symbol(j, sizes[j]);
    MatchIsUnique(sizes, i, j, window);
  }

  /** The flag value of the acceleration table is not also a symbol of a short code. */
  predicate FlagIsFree(sizes: seq<nat>) {
    |sizes| <= 255 || sizes[255] > 9
  }

  lemma {:induction false} FastHitIsMatch(sizes: seq<nat>, i: nat, window: nat)
    requires i < |sizes|
    ensures FastHit(sizes, i, Shr(window, 7)) <==> Matches(sizes, i, window) && sizes[i] <= 9
  {
    if 0 < sizes[i] <= 9 {
      ShrShr(window, 7, 9 - sizes[i]);
      assert 7 + (9 - sizes[i]) == 16 - sizes[i];
    }
  }

  lemma {:induction false} NoFastHit(sizes: seq<nat>, w: nat, n: nat)
    requires n <= |sizes| <= 256 && FastEntry(sizes, w, n) == 255 && FlagIsFree(sizes)
    ensures forall i :: 0 <= i < n ==> !FastHit(sizes, i, w)
  {
    if n > 0 {
      NoFastHit(sizes, w, n - 1);
    }
  }

  lemma {:induction false} FirstLengthIs(sizes: seq<nat>, window: nat, k: nat)
    requires k <= 17
    ensures var r := FirstLength(sizes, window, k);
      && (forall j :: k <= j < r ==> window >= Below(sizes, j))
      && (r < 17 ==> window < Below(sizes, r))
    decreases 17 - k
  {
    if k < 17 && window >= Below(sizes, k) {
      FirstLengthIs(sizes, window, k + 1);
    }
  }

  /** The thresholds find the code when no code of at most nine bits matches. */
  lemma {:induction false} SlowLookup(sizes: seq<nat>, window: nat)
    requires IsSizeList(sizes) && |sizes| <= 256 && window >= Below(sizes, 9)
    requires FastEntry(sizes, Shr(window, 7), |sizes|) == 255
    ensures Lookup(sizes, window) == Canonical(sizes, window)
  {
    var k := FirstLength(sizes, window, 10);
    FirstLengthIs(sizes, window, 10);
    if k == 17 {
      var x := MatchBelow(sizes, 16, window);
    } else {
      assert window >= Below(sizes, k - 1);
      var i := MatchOfLength(sizes, k, window);
      CanonicalIs(sizes, window, i);
      SortedPosition(sizes, i);
    }
  }

  /** With the flag free, the tables agree with Annex C on every input. */
  lemma {:induction false} LookupIsCanonical(sizes: seq<nat>, window: nat)
    requires IsSizeList(sizes) && |sizes| <= 256 && FlagIsFree(sizes)
    ensures Lookup(sizes, window) == Canonical(sizes, window)
  {
    var w := Shr(window, 7);
    var f := FastEntry(sizes, w, |sizes|);
    if f < 255 {
      FastHitIsMatch(sizes, f, window);
      CanonicalIs(sizes, window, f);
    } else {
      NoFastHit(sizes, w, |sizes|);
      if window < Below(sizes, 9) {
        var i := MatchBelow(sizes, 9, window);
        FastHitIsMatch(sizes, i, window);
      }
      SlowLookup(sizes, window);
    }
  }

  /** Otherwise symbol 255 is never decoded right: ten or more bits are taken for a shorter code. */
  lemma {:induction false} FlagClash(sizes: seq<nat>, window: nat)
    requires IsSizeList(sizes) && |sizes| == 256 && sizes[255] <= 9 && Matches(sizes, 255, window)
    ensures Lookup(sizes, window) != Canonical(sizes, window)
  {
    FastHitIsMatch(sizes, 255, window);
    CanonicalIs(sizes, window, 255);
  }

  /** For lists that the decoder accepts, the tables decode every 16 bits of input right exactly if the flag is free. */
  lemma {:induction false} LookupExact(sizes: seq<nat>)
    requires IsSizeList(sizes) && |sizes| <= 256 && NotOversubscribed(sizes)
    ensures (forall window: nat :: window < 0x1_0000 ==>
      Lookup(sizes, window) == Canonical(sizes, window)) <==> FlagIsFree(sizes)
  {
    if FlagIsFree(sizes) {
      forall window: nat ensures Lookup(sizes, window) == Canonical(sizes, window) {
        LookupIsCanonical(sizes, window);
      }
    } else {
      var k, code := 16 - sizes[255], SymbolCode(sizes, 255);
      ShrOfShl(code, k);
      FlagClash(sizes, Shl(code, k));
      CodeFitsLength(sizes, 255);
      Pow2Split(sizes[255], k);
      ShlLess(code, sizes[255], k);
      assert Pow2(16) == 0x1_0000 by { Pow2Consts(); }
    }
  }

  lemma {:induction false} ShlLess(a: nat, n: nat, k: nat)
    requires a < Pow2(n)
    ensures Shl(a, k) < Pow2(n + k)
  {
    Pow2Split(n, k);
    ShlMono(a + 1, Pow2(n), k);
    ShlSum(a, 1, k);
    ShlOne(k);
  }

  /** A list that the decoder accepts, and for which the flag is not free: 255 codes of eight bits and one of nine. */
  lemma {:induction false} ClashingList() returns (counts: seq<nat>)
    ensures |counts| == 16 && forall i :: 0 <= i < 16 ==> counts[i] < 256
    ensures var sizes := SizeList(counts, 16);
      IsSizeList(sizes) && |sizes| == 256 && NotOversubscribed(sizes) && !FlagIsFree(sizes)
  {
    hide SizeList, IsSizeList, Repeat;
    counts := [0, 0, 0, 0, 0, 0, 0, 255, 1, 0, 0, 0, 0, 0, 0, 0];
    SizeListSorted(counts, 16);
    OneNine(counts);
    RepeatIs(9, 1);
    OneNineSpace(counts);
  }

  predicate IsOneNine(counts: seq<nat>) {
    |counts| == 16 && forall i :: 0 <= i < 16 ==> counts[i] == if i == 7 then 255 else if i == 8 then 1 else 0
  }

  lemma {:induction false} OneNine(counts: seq<nat>)
    requires IsOneNine(counts)
    ensures SizeList(counts, 16) == Repeat(8, 255) + Repeat(9, 1)
  {
    hide Repeat;
    NoMoreCodes(counts, 0, 7);
    NoMoreCodes(counts, 9, 16);
    assert SizeList(counts, 8) == Repeat(8, 255);
  }

  lemma {:induction false} OneNineSpace(counts: seq<nat>)
    requires IsOneNine(counts)
    ensures Below(SizeList(counts, 16), 16) == 65408
  {
    hide SizeList, Shl, Count;
    var sizes := SizeList(counts, 16);
    forall len: nat ensures Count(sizes, len) == if len == 8 then 255 else if len == 9 then 1 else 0 {
      SizeListCounts(counts, 16, len);
    }
    BelowSame(sizes, 0, 7);
    BelowSame(sizes, 9, 16);
    assert Below(sizes, 8) == Below(sizes, 7) + Shl(255, 8);
    assert Below(sizes, 9) == Below(sizes, 8) + Shl(1, 7);
    ShlBytes();
  }

  lemma {:induction false} NoMoreCodes(counts: seq<nat>, a: nat, b: nat)
    requires a <= b <= |counts| && forall i :: a <= i < b ==> counts[i] == 0
    ensures SizeList(counts, b) == SizeList(counts, a)
    decreases b - a
  {
    if a < b {
      NoMoreCodes(counts, a, b - 1);
    }
  }

  lemma {:induction false} ShlBytes()
    ensures Shl(255, 8) == 65280 && Shl(1, 7) == 128
  {}
}
