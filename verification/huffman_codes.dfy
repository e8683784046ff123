/**
 Canonical Huffman codes as libchdr assigns them: longest codes first, from zero
 upwards. Scaled to `maxbits` bits, the codes of all symbols occupy consecutive slots
 of the decoding table, which is what every proof about the decoder rests on.
 */
module HuffmanCodes {
  import opened Bits

  /** How many symbols have length `len`. */
  function Count(lens: seq<nat>, len: nat): nat {
    if lens == [] then 0
    else Count(lens[..|lens| - 1], len) + if lens[|lens| - 1] == len then 1 else 0
  }

  /** The first code of length `len`, as the descending loop over lengths computes it. */
  function Start(lens: seq<nat>, len: nat): nat
    requires len <= 32
    decreases 32 - len
  {
    if len == 32 then 0 else (Start(lens, len + 1) + Count(lens, len + 1)) / 2
  }

  /** What huffman_assign_canonical_codes checks. */
  ghost predicate Consistent(lens: seq<nat>, maxbits: nat) {
    && (forall i :: 0 <= i < |lens| ==> lens[i] <= maxbits)
    && (forall len :: 2 <= len <= 32 ==> EvenUpTo(lens, len))
  }

  predicate EvenUpTo(lens: seq<nat>, len: nat)
    requires len <= 32
  {
    (Start(lens, len) + Count(lens, len)) % 2 == 0
  }

  /** How many earlier symbols have the same length. */
  function Rank(lens: seq<nat>, i: nat): nat
    requires i < |lens|
  {
    Count(lens[..i], lens[i])
  }

  function Code(lens: seq<nat>, i: nat): nat
    requires i < |lens| && lens[i] <= 32
  {
    Start(lens, lens[i]) + Rank(lens, i)
  }

  /** Slots taken by the symbols longer than `len`, in units of 2^-maxbits. */
  function Above(lens: seq<nat>, len: nat, maxbits: nat): nat
    decreases maxbits - len
  {
    if len >= maxbits then 0
    else Above(lens, len + 1, maxbits) + Shl(Count(lens, len + 1), maxbits - (len + 1))
  }

  /** The Kraft sum of the code lengths, in units of 2^-maxbits. */
  function Kraft(lens: seq<nat>, maxbits: nat): nat {
    Above(lens, 0, maxbits)
  }

  /** Table position `p` belongs to symbol `i`. */
  predicate Covers(lens: seq<nat>, maxbits: nat, i: nat, p: nat)
  {
    && i < |lens| && 0 < lens[i] <= maxbits <= 32
    && Code(lens, i) == Shr(p, maxbits - lens[i])
  }

  // ----- counting

  lemma {:induction false} CountSnoc(lens: seq<nat>, i: nat, len: nat)
    requires i < |lens|
    ensures Count(lens[..i + 1], len) == Count(lens[..i], len) + if lens[i] == len then 1 else 0
  {
    assert lens[..i + 1][..i] == lens[..i];
  }

  lemma {:induction false} CountZero(lens: seq<nat>, len: nat)
    requires forall i :: 0 <= i < |lens| ==> lens[i] != len
    ensures Count(lens, len) == 0
  {
    if lens != [] {
      CountZero(lens[..|lens| - 1], len);
    }
  }

  function Repeat(x: nat, n: nat): (s: seq<nat>)
    ensures |s| == n
  {
    if n == 0 then [] else Repeat(x, n - 1) + [x]
  }

  lemma {:induction false} RepeatIs(x: nat, n: nat)
    ensures forall i :: 0 <= i < n ==> Repeat(x, n)[i] == x
  {
    if n > 0 {
      RepeatIs(x, n - 1);
    }
  }

  lemma {:induction false} RepeatNone(x: nat)
    ensures Repeat(x, 0) == []
  {}

  lemma {:induction false} RepeatMore(x: nat, n: nat)
    requires n > 0
    ensures Repeat(x, n) == Repeat(x, n - 1) + [x]
  {}

  lemma {:induction false} CountMore(s: seq<nat>, x: nat, len: nat)
    ensures Count(s + [x], len) == Count(s, len) + if x == len then 1 else 0
  {
    assert (s + [x])[..|s|] == s;
  }

  lemma {:induction false} CountConcatRepeat(s: seq<nat>, x: nat, n: nat, len: nat)
    ensures Count(s + Repeat(x, n), len) == Count(s, len) + if len == x then n else 0
  {
    hide Count, Repeat;
    if n == 0 {
      RepeatNone(x);
      assert s + Repeat(x, n) == s;
    } else {
      var t, front := s + Repeat(x, n), s + Repeat(x, n - 1);
      CountConcatRepeat(s, x, n - 1, len);
      RepeatMore(x, n);
      assert t == front + [x];
      CountMore(front, x, len);
    }
  }

  lemma {:induction false} CountMono(lens: seq<nat>, i: nat, j: nat, len: nat)
    requires i <= j <= |lens|
    ensures Count(lens[..i], len) <= Count(lens[..j], len) <= Count(lens, len)
    decreases |lens| - i
  {
    assert lens[..|lens|] == lens;
    if i < j {
      CountSnoc(lens, i, len);
      CountMono(lens, i + 1, j, len);
    } else if j < |lens| {
      CountSnoc(lens, i, len);
      CountMono(lens, i + 1, j + 1, len);
    }
  }

  lemma {:induction false} RankBound(lens: seq<nat>, i: nat)
    requires i < |lens|
    ensures Rank(lens, i) < Count(lens, lens[i])
  {
    CountSnoc(lens, i, lens[i]);
    CountMono(lens, i + 1, |lens|, lens[i]);
  }

  lemma {:induction false} RankDistinct(lens: seq<nat>, i: nat, j: nat)
    requires i < j < |lens| && lens[i] == lens[j]
    ensures Rank(lens, i) < Rank(lens, j)
  {
    CountSnoc(lens, i, lens[i]);
    CountMono(lens, i + 1, j, lens[i]);
  }

  /** Every rank below the count is some symbol's rank. */
  lemma {:induction false} SymbolOfRank(lens: seq<nat>, n: nat, len: nat, rank: nat) returns (i: nat)
    requires n <= |lens| && rank < Count(lens[..n], len)
    ensures i < n && lens[i] == len && Rank(lens, i) == rank
  {
    CountSnoc(lens, n - 1, len);
    if lens[n - 1] == len && Count(lens[..n - 1], len) == rank {
      i := n - 1;
    } else {
      i := SymbolOfRank(lens, n - 1, len, rank);
    }
  }

  // ----- slots tile the table

  lemma {:induction false} NoneLonger(lens: seq<nat>, len: nat, maxbits: nat)
    requires maxbits <= len <= 32 && forall i :: 0 <= i < |lens| ==> lens[i] <= maxbits
    ensures Start(lens, len) == 0
    decreases 32 - len
  {
    if len < 32 {
      NoneLonger(lens, len + 1, maxbits);
      CountZero(lens, len + 1);
    }
  }

  lemma {:induction false} AboveStep(lens: seq<nat>, len: nat, maxbits: nat)
    requires 1 <= len <= maxbits
    ensures Above(lens, len - 1, maxbits) == Above(lens, len, maxbits) + Shl(Count(lens, len), maxbits - len)
  {
    var prev := len - 1;
    assert len == prev + 1;
  }

  lemma {:induction false} ShlDouble(a: nat, k: nat)
    ensures Shl(a, k + 1) == Shl(2 * a, k)
  {
    ShlShl(a, 1, k);
    assert Shl(a, 1) == 2 * a;
    assert 1 + k == k + 1;
  }

  /** Scaled to the table, the first code of a length comes right after all longer codes. */
  lemma {:induction false} StartIsAbove(lens: seq<nat>, len: nat, maxbits: nat)
    requires 1 <= len <= maxbits <= 32 && Consistent(lens, maxbits)
    ensures Shl(Start(lens, len), maxbits - len) == Above(lens, len, maxbits)
    decreases maxbits - len
  {
    if len == maxbits {
      NoneLonger(lens, len, maxbits);
    } else {
      StartIsAbove(lens, len + 1, maxbits);
      assert EvenUpTo(lens, len + 1);
      HalvesExactly(lens, len, maxbits);
    }
  }

  lemma {:induction false} HalvesExactly(lens: seq<nat>, len: nat, maxbits: nat)
    requires 1 <= len < maxbits <= 32 && EvenUpTo(lens, len + 1)
    requires Shl(Start(lens, len + 1), maxbits - (len + 1)) == Above(lens, len + 1, maxbits)
    ensures Shl(Start(lens, len), maxbits - len) == Above(lens, len, maxbits)
  {
    var s, k := Start(lens, len), maxbits - (len + 1);
    assert 2 * s == Start(lens, len + 1) + Count(lens, len + 1);
    ShlDouble(s, k);
    ShlSum(Start(lens, len + 1), Count(lens, len + 1), k);
  }

  lemma {:induction false} SlotOfSymbol(lens: seq<nat>, i: nat, maxbits: nat)
    requires i < |lens| && 0 < lens[i] <= maxbits <= 32 && Consistent(lens, maxbits)
    ensures var k := maxbits - lens[i];
      && Shl(Code(lens, i), k) == Above(lens, lens[i], maxbits) + Shl(Rank(lens, i), k)
      && Shl(Code(lens, i), k) + Pow2(k) <= Above(lens, lens[i] - 1, maxbits)
  {
    var k := maxbits - lens[i];
    StartIsAbove(lens, lens[i], maxbits);
    ShlSum(Start(lens, lens[i]), Rank(lens, i), k);
    RankBound(lens, i);
    AboveStep(lens, lens[i], maxbits);
    ShlMono(Rank(lens, i), Count(lens, lens[i]), k);
  }

  lemma {:induction false} AboveMono(lens: seq<nat>, a: nat, b: nat, maxbits: nat)
    requires a <= b
    ensures Above(lens, b, maxbits) <= Above(lens, a, maxbits)
    decreases b - a
  {
    if a < b {
      AboveMono(lens, a + 1, b, maxbits);
    }
  }

  lemma {:induction false} CoversBounds(lens: seq<nat>, maxbits: nat, i: nat, p: nat)
    requires i < |lens| && 0 < lens[i] <= maxbits <= 32
    ensures var k := maxbits - lens[i];
      Covers(lens, maxbits, i, p) <==> Shl(Code(lens, i), k) <= p < Shl(Code(lens, i), k) + Pow2(k)
  {
    var c, k := Code(lens, i), maxbits - lens[i];
    Split(p, k);
    if Shl(c, k) <= p < Shl(c, k) + Pow2(k) {
      Join(c, p - Shl(c, k), k);
    }
  }

  lemma {:induction false} SlotOrder(lens: seq<nat>, maxbits: nat, i: nat, j: nat)
    requires Consistent(lens, maxbits) && maxbits <= 32
    requires i < |lens| && 0 < lens[i] <= maxbits && j < |lens| && 0 < lens[j] <= maxbits
    requires lens[i] > lens[j] || (lens[i] == lens[j] && i < j)
    ensures Shl(Code(lens, i), maxbits - lens[i]) + Pow2(maxbits - lens[i]) <= Shl(Code(lens, j), maxbits - lens[j])
  {
    SlotOfSymbol(lens, i, maxbits);
    SlotOfSymbol(lens, j, maxbits);
    if lens[i] > lens[j] {
      AboveMono(lens, lens[j], lens[i] - 1, maxbits);
    } else {
      RankDistinct(lens, i, j);
      ShlMono(Rank(lens, i), Rank(lens, j), maxbits - lens[j]);
    }
  }

  /** No two symbols share a table position: the codes are prefix-free. */
  lemma {:induction false} SlotsDisjoint(lens: seq<nat>, maxbits: nat, i: nat, j: nat, p: nat)
    requires Consistent(lens, maxbits) && Covers(lens, maxbits, i, p) && Covers(lens, maxbits, j, p)
    ensures i == j
  {
    CoversBounds(lens, maxbits, i, p);
    CoversBounds(lens, maxbits, j, p);
    if lens[i] > lens[j] || (lens[i] == lens[j] && i < j) {
      SlotOrder(lens, maxbits, i, j);
    } else if i != j {
      SlotOrder(lens, maxbits, j, i);
    }
  }

  /** Slots lie below the Kraft sum. */
  lemma {:induction false} SlotsBelowKraft(lens: seq<nat>, maxbits: nat, i: nat)
    requires Consistent(lens, maxbits) && i < |lens| && 0 < lens[i] <= maxbits <= 32
    ensures Shl(Code(lens, i), maxbits - lens[i]) + Pow2(maxbits - lens[i]) <= Kraft(lens, maxbits)
  {
    SlotOfSymbol(lens, i, maxbits);
    AboveMono(lens, 0, lens[i] - 1, maxbits);
  }

  /** Every position below the Kraft sum belongs to some symbol: the slots leave no gap. */
  lemma {:induction false} SlotsTile(lens: seq<nat>, maxbits: nat, p: nat) returns (i: nat)
    requires Consistent(lens, maxbits) && maxbits <= 32 && p < Kraft(lens, maxbits)
    ensures Covers(lens, maxbits, i, p)
  {
    i := SlotFrom(lens, maxbits, 0, p);
  }

  lemma {:induction false} SlotFrom(lens: seq<nat>, maxbits: nat, len: nat, p: nat) returns (i: nat)
    requires Consistent(lens, maxbits) && maxbits <= 32 && len <= maxbits && p < Above(lens, len, maxbits)
    ensures Covers(lens, maxbits, i, p)
    decreases maxbits - len
  {
    if p < Above(lens, len + 1, maxbits) {
      i := SlotFrom(lens, maxbits, len + 1, p);
    } else {
      i := SlotOfLength(lens, maxbits, len + 1, p);
    }
  }

  lemma {:induction false} SlotOfLength(lens: seq<nat>, maxbits: nat, len: nat, p: nat) returns (i: nat)
    requires Consistent(lens, maxbits) && 1 <= len <= maxbits <= 32
    requires 0 <= p - Above(lens, len, maxbits) < Shl(Count(lens, len), maxbits - len)
    ensures Covers(lens, maxbits, i, p)
  {
    var k, x: nat := maxbits - len, p - Above(lens, len, maxbits);
    ShrBelow(x, Count(lens, len), k);
    assert lens[..|lens|] == lens;
    i := SymbolOfRank(lens, |lens|, len, Shr(x, k));
    SlotOfSymbol(lens, i, maxbits);
    Split(x, k);
    CoversBounds(lens, maxbits, i, p);
  }

  // ----- the Kraft sum, symbol by symbol

  function Share(len: nat, maxbits: nat): nat {
    if 0 < len <= maxbits then Pow2(maxbits - len) else 0
  }

  /** The sum over symbols of 2^(maxbits - length); length zero means the symbol is unused. */
  function SymbolSum(lens: seq<nat>, maxbits: nat): nat {
    if lens == [] then 0 else SymbolSum(lens[..|lens| - 1], maxbits) + Share(lens[|lens| - 1], maxbits)
  }

  lemma {:induction false} AboveNext(lens: seq<nat>, len: nat, next: nat, maxbits: nat)
    requires next == len + 1 <= maxbits
    ensures Above(lens, len, maxbits) == Above(lens, next, maxbits) + Shl(Count(lens, next), maxbits - next)
  {}

  lemma {:induction false} AboveTop(lens: seq<nat>, len: nat, maxbits: nat)
    requires len >= maxbits
    ensures Above(lens, len, maxbits) == 0
  {}

  lemma {:induction false} NoShare(x: nat, len: nat, maxbits: nat)
    requires len >= maxbits
    ensures x > len ==> Share(x, maxbits) == 0
  {}

  /** One more symbol of a length takes up one more share. */
  lemma {:induction false} ShareOf(x: nat, len: nat, next: nat, n: nat, maxbits: nat)
    requires next == len + 1 <= maxbits
    ensures Shl(n + (if x == next then 1 else 0), maxbits - next)
         == Shl(n, maxbits - next) + if x == next then Share(x, maxbits) else 0
  {
    ShlSum(n, 1, maxbits - next);
    ShlOne(maxbits - next);
  }

  lemma {:induction false} AboveSnoc(lens: seq<nat>, x: nat, len: nat, maxbits: nat)
    ensures Above(lens + [x], len, maxbits) == Above(lens, len, maxbits) + if x > len then Share(x, maxbits) else 0
    decreases maxbits - len
  {
    hide Count, Shl, Above, Share;
    if len < maxbits {
      var next := len + 1;
      AboveNext(lens, len, next, maxbits);
      AboveNext(lens + [x], len, next, maxbits);
      CountMore(lens, x, next);
      AboveSnoc(lens, x, next, maxbits);
      ShareOf(x, len, next, Count(lens, next), maxbits);
    } else {
      AboveTop(lens, len, maxbits);
      AboveTop(lens + [x], len, maxbits);
      NoShare(x, len, maxbits);
    }
  }

  lemma {:induction false} AboveOfNone(len: nat, maxbits: nat)
    ensures Above([], len, maxbits) == 0
    decreases maxbits - len
  {
    if len < maxbits {
      AboveOfNone(len + 1, maxbits);
      ShlZero(maxbits - (len + 1));
    }
  }

  lemma {:induction false} KraftIsSymbolSum(lens: seq<nat>, maxbits: nat)
    ensures Kraft(lens, maxbits) == SymbolSum(lens, maxbits)
  {
    if lens == [] {
      AboveOfNone(0, maxbits);
    } else {
      var n := |lens| - 1;
      KraftIsSymbolSum(lens[..n], maxbits);
      AboveSnoc(lens[..n], lens[n], 0, maxbits);
      assert lens[..n] + [lens[n]] == lens;
    }
  }

  // ----- complete codes are always accepted

  /** Everything not above `len` is a multiple of the slot size of `len`. */
  lemma {:induction false} RestIsMultiple(lens: seq<nat>, len: nat, maxbits: nat) returns (k: nat)
    requires len <= maxbits
    ensures Kraft(lens, maxbits) == Above(lens, len, maxbits) + Shl(k, maxbits - len)
    decreases len
  {
    if len == 0 {
      k := 0;
      ShlZero(maxbits);
    } else {
      var j := RestIsMultiple(lens, len - 1, maxbits);
      k := Count(lens, len) + 2 * j;
      AboveStep(lens, len, maxbits);
      assert maxbits - (len - 1) == (maxbits - len) + 1;
      ShlDouble(j, maxbits - len);
      ShlSum(Count(lens, len), 2 * j, maxbits - len);
    }
  }

  /**
   When the lengths form a complete code (Kraft sum exactly one), the canonical
   assignment cannot report an inconsistency.
   */
  lemma {:induction false} CompleteIsConsistent(lens: seq<nat>, maxbits: nat)
    requires maxbits <= 32 && Kraft(lens, maxbits) == Pow2(maxbits)
    requires forall i :: 0 <= i < |lens| ==> lens[i] <= maxbits
    ensures Consistent(lens, maxbits)
  {
    forall len | 2 <= len <= 32 ensures EvenUpTo(lens, len) {
      CompleteIsEven(lens, len, maxbits);
    }
  }

  lemma {:induction false} CompleteIsEven(lens: seq<nat>, len: nat, maxbits: nat)
    requires 2 <= len <= 32 && maxbits <= 32 && Kraft(lens, maxbits) == Pow2(maxbits)
    requires forall i :: 0 <= i < |lens| ==> lens[i] <= maxbits
    ensures EvenUpTo(lens, len)
    ensures len <= maxbits ==> Shl(Start(lens, len), maxbits - len) == Above(lens, len, maxbits)
    decreases 32 - len
  {
    if len > maxbits {
      NoneLonger(lens, len, maxbits);
      CountZero(lens, len);
    } else {
      if len == maxbits {
        NoneLonger(lens, len, maxbits);
      } else {
        CompleteIsEven(lens, len + 1, maxbits);
        HalvesExactly(lens, len, maxbits);
      }
      EvenHere(lens, len, maxbits);
    }
  }

  lemma {:induction false} NextAbove(lens: seq<nat>, len: nat, maxbits: nat)
    requires 1 <= len <= maxbits <= 32 && Shl(Start(lens, len), maxbits - len) == Above(lens, len, maxbits)
    ensures Shl(Start(lens, len) + Count(lens, len), maxbits - len) == Above(lens, len - 1, maxbits)
  {
    AboveStep(lens, len, maxbits);
    ShlSum(Start(lens, len), Count(lens, len), maxbits - len);
  }

  lemma {:induction false} EvenHere(lens: seq<nat>, len: nat, maxbits: nat)
    requires 2 <= len <= maxbits <= 32 && Kraft(lens, maxbits) == Pow2(maxbits)
    requires Shl(Start(lens, len), maxbits - len) == Above(lens, len, maxbits)
    ensures EvenUpTo(lens, len)
  {
    hide Kraft, Above, Shl, Pow2;
    var prev, k := len - 1, maxbits - len;
    var j := RestIsMultiple(lens, prev, maxbits);
    var n := Start(lens, len) + Count(lens, len);
    NextAbove(lens, len, maxbits);
    assert maxbits - prev == k + 1 && prev + (k + 1) == maxbits;
    Pow2Split(prev, k + 1);
    EvenMultiple(Kraft(lens, maxbits), Above(lens, prev, maxbits), n, j, Pow2(prev), k);
  }

  lemma {:induction false} EvenMultiple(kraft: nat, above: nat, n: nat, j: nat, total: nat, k: nat)
    requires above == Shl(n, k) && kraft == above + Shl(j, k + 1) && kraft == Shl(total, k + 1)
    ensures n % 2 == 0
  {
    ShlDouble(j, k);
    ShlDouble(total, k);
    ShlSum(n, 2 * j, k);
    ShrOfShl(n + 2 * j, k);
    ShrOfShl(2 * total, k);
  }
}
