/**
 Canonical prefix codes of at most 16 bits, as in section 3.2.2 of RFC 1951 and Annex C of
 ITU-T T.81: codes of each length are consecutive, shorter codes come first. A code is
 matched against the next 16 bits of the input, first bit most significant.
 */
module CanonicalCodes {
  import opened Bits
  import opened Counts = HuffmanCodes

  /** The numerically smallest code of each length. */
  function NextCode(lens: seq<nat>, len: nat): nat {
    if len <= 1 then 0 else 2 * (NextCode(lens, len - 1) + Count(lens, len - 1))
  }

  /** Symbols of one length get consecutive codes, in symbol order. */
  function SymbolCode(lens: seq<nat>, i: nat): nat
    requires i < |lens|
  {
    NextCode(lens, lens[i]) + Rank(lens, i)
  }

  /** The next 16 input bits start with the code of symbol `i`. */
  predicate Matches(lens: seq<nat>, i: nat, window: nat) {
    i < |lens| && 0 < lens[i] <= 16 && Shr(window, 16 - lens[i]) == SymbolCode(lens, i)
  }

  /** Windows that start with a code of length at most `len`: the Kraft sum, in units of 2^-16. */
  function Below(lens: seq<nat>, len: nat): nat {
    if len == 0 || len > 16 then 0 else Below(lens, len - 1) + Shl(Count(lens, len), 16 - len)
  }

  /** No code space is used twice. */
  predicate NotOversubscribed(lens: seq<nat>) {
    Below(lens, 16) <= 0x1_0000
  }

  /** How many symbols have a length below `len`. */
  function Before(lens: seq<nat>, len: nat): nat {
    if len <= 1 then 0 else Before(lens, len - 1) + Count(lens, len - 1)
  }

  /** Index of a symbol in the size and value tables: by length, then by symbol. */
  function SortedIndex(lens: seq<nat>, i: nat): nat
    requires i < |lens|
  {
    Before(lens, lens[i]) + Rank(lens, i)
  }

  lemma {:induction false} BelowMono(lens: seq<nat>, a: nat, b: nat)
    requires a <= b <= 16
    ensures Below(lens, a) <= Below(lens, b)
    decreases b - a
  {
    if a < b {
      BelowMono(lens, a, b - 1);
    }
  }

  /** Lengths that no symbol has take up no space. */
  lemma {:induction false} BelowSame(lens: seq<nat>, a: nat, b: nat)
    requires a <= b <= 16 && forall len :: a < len <= b ==> Count(lens, len) == 0
    ensures Below(lens, b) == Below(lens, a)
    decreases b - a
  {
    if a < b {
      BelowSame(lens, a, b - 1);
      ShlZero(16 - b);
    }
  }

  /** The first code of a length, moved to the top of a window, comes right after all shorter codes. */
  lemma {:induction false} NextCodeIsBelow(lens: seq<nat>, len: nat)
    requires 1 <= len <= 16
    ensures Shl(NextCode(lens, len), 16 - len) == Below(lens, len - 1)
    ensures Shl(NextCode(lens, len) + Count(lens, len), 16 - len) == Below(lens, len)
  {
    if len == 1 {
      ShlZero(15);
    } else {
      NextCodeIsBelow(lens, len - 1);
      ShlDouble(NextCode(lens, len - 1) + Count(lens, len - 1), 16 - len);
      assert 16 - (len - 1) == (16 - len) + 1;
    }
    ShlSum(NextCode(lens, len), Count(lens, len), 16 - len);
  }

  /** The windows that start with the code of `i` form one range. */
  lemma {:induction false} MatchRange(lens: seq<nat>, i: nat, window: nat)
    requires i < |lens| && 0 < lens[i] <= 16
    ensures var k := 16 - lens[i];
      && (Matches(lens, i, window) <==> Shl(SymbolCode(lens, i), k) <= window < Shl(SymbolCode(lens, i), k) + Pow2(k))
      && Shl(SymbolCode(lens, i), k) == Below(lens, lens[i] - 1) + Shl(Rank(lens, i), k)
      && Shl(SymbolCode(lens, i), k) + Pow2(k) <= Below(lens, lens[i])
  {
    hide Rank, Count, NextCode, Shl, Pow2, Low, Shr;
    var c, k := SymbolCode(lens, i), 16 - lens[i];
    NextCodeIsBelow(lens, lens[i]);
    ShlSum(NextCode(lens, lens[i]), Rank(lens, i), k);
    RankBound(lens, i);
    ShlMono(Rank(lens, i), Count(lens, lens[i]), k);
    Split(window, k);
    if Shl(c, k) <= window < Shl(c, k) + Pow2(k) {
      Join(c, window - Shl(c, k), k);
    }
  }

  lemma {:induction false} RangeOrder(lens: seq<nat>, i: nat, j: nat)
    requires i < |lens| && 0 < lens[i] <= 16 && j < |lens| && 0 < lens[j] <= 16
    requires lens[i] < lens[j] || (lens[i] == lens[j] && i < j)
    ensures Shl(SymbolCode(lens, i), 16 - lens[i]) + Pow2(16 - lens[i]) <= Shl(SymbolCode(lens, j), 16 - lens[j])
  {
    MatchRange(lens, i, 0);
    MatchRange(lens, j, 0);
    if lens[i] < lens[j] {
      BelowMono(lens, lens[i], lens[j] - 1);
    } else {
      RankDistinct(lens, i, j);
      ShlMono(Rank(lens, i), Rank(lens, j), 16 - lens[j]);
    }
  }

  /** At most one code starts the input: the code is prefix-free. */
  lemma {:induction false} MatchIsUnique(lens: seq<nat>, i: nat, j: nat, window: nat)
    requires Matches(lens, i, window) && Matches(lens, j, window)
    ensures i == j
  {
    MatchRange(lens, i, window);
    MatchRange(lens, j, window);
    if lens[i] < lens[j] || (lens[i] == lens[j] && i < j) {
      RangeOrder(lens, i, j);
    } else if i != j {
      RangeOrder(lens, j, i);
    }
  }

  /** The windows that start with a code of length exactly `len` are those between two thresholds. */
  lemma {:induction false} MatchOfLength(lens: seq<nat>, len: nat, window: nat) returns (i: nat)
    requires 1 <= len <= 16 && Below(lens, len - 1) <= window < Below(lens, len)
    ensures Matches(lens, i, window) && lens[i] == len
    ensures Rank(lens, i) == Shr(window, 16 - len) - NextCode(lens, len)
  {
    var k, x: nat := 16 - len, window - Below(lens, len - 1);
    NextCodeIsBelow(lens, len);
    ShlSum(NextCode(lens, len), Count(lens, len), k);
    ShrBelow(x, Count(lens, len), k);
    assert lens[..|lens|] == lens;
    i := SymbolOfRank(lens, |lens|, len, Shr(x, k));
    Split(x, k);
    MatchRange(lens, i, window);
  }

  /** A code of length at most `len` matches exactly below the threshold of `len`. */
  lemma {:induction false} MatchBelow(lens: seq<nat>, len: nat, window: nat) returns (i: nat)
    requires len <= 16
    ensures window < Below(lens, len) ==> Matches(lens, i, window) && lens[i] <= len
    ensures window >= Below(lens, len) ==> forall j: nat :: Matches(lens, j, window) ==> lens[j] > len
  {
    i := 0;
    if window < Below(lens, len) {
      if window < Below(lens, len - 1) {
        i := MatchBelow(lens, len - 1, window);
      } else {
        i := MatchOfLength(lens, len, window);
      }
    }
    forall j: nat | Matches(lens, j, window) && window >= Below(lens, len) ensures lens[j] > len {
      MatchRange(lens, j, window);
      if lens[j] <= len {
        BelowMono(lens, lens[j], len);
      }
    }
  }

  /** With code space to spare, codes fit their length. */
  lemma {:induction false} CodeFitsLength(lens: seq<nat>, i: nat)
    requires NotOversubscribed(lens) && i < |lens| && 0 < lens[i] <= 16
    ensures SymbolCode(lens, i) < Pow2(lens[i])
  {
    var c, k := SymbolCode(lens, i), 16 - lens[i];
    MatchRange(lens, i, 0);
    BelowMono(lens, lens[i], 16);
    Pow2Consts();
    Pow2Split(lens[i], k);
    if c >= Pow2(lens[i]) {
      ShlMono(Pow2(lens[i]), c, k);
    }
  }

  /** Too many codes of one length oversubscribe the code. */
  lemma {:induction false} TooManyOfLength(lens: seq<nat>, len: nat)
    requires 1 <= len <= 16 && NextCode(lens, len) + Count(lens, len) > Pow2(len)
    ensures !NotOversubscribed(lens)
  {
    NextCodeIsBelow(lens, len);
    ShlMono(Pow2(len), NextCode(lens, len) + Count(lens, len), 16 - len);
    Pow2Split(len, 16 - len);
    Pow2Consts();
    BelowMono(lens, len, 16);
  }

  /** All lengths up to `len` keep within their code space. */
  lemma {:induction false} WithinSpace(lens: seq<nat>, len: nat)
    requires 1 <= len <= 16
    ensures NextCode(lens, len) + Count(lens, len) <= Pow2(len) <==> Below(lens, len) <= 0x1_0000
  {
    hide Below, Count, NextCode, Shl;
    NextCodeIsBelow(lens, len);
    Pow2Split(len, 16 - len);
    Pow2Consts();
    if NextCode(lens, len) + Count(lens, len) <= Pow2(len) {
      ShlMono(NextCode(lens, len) + Count(lens, len), Pow2(len), 16 - len);
    } else {
      ShlMono(Pow2(len), NextCode(lens, len) + Count(lens, len), 16 - len);
    }
  }

  /** One round of the loop over lengths. */
  lemma {:induction false} LengthRound(lens: seq<nat>, len: nat)
    requires 1 <= len <= 16 && Below(lens, len - 1) <= 0x1_0000
    ensures Count(lens, len) > 0 && NextCode(lens, len) + Count(lens, len) > Pow2(len) <==> Below(lens, len) > 0x1_0000
    ensures Shl(NextCode(lens, len) + Count(lens, len), 16 - len) == Below(lens, len)
    ensures NextCode(lens, len + 1) == 2 * (NextCode(lens, len) + Count(lens, len))
    ensures Before(lens, len + 1) == Before(lens, len) + Count(lens, len)
  {
    WithinSpace(lens, len);
    NextCodeIsBelow(lens, len);
    if Count(lens, len) == 0 {
      ShlZero(16 - len);
    }
  }

  // ----- tables sorted by length

  lemma {:induction false} BeforeMono(lens: seq<nat>, a: nat, b: nat)
    requires a <= b
    ensures Before(lens, a) <= Before(lens, b)
    decreases b - a
  {
    if a < b {
      BeforeMono(lens, a, b - 1);
    }
  }

  lemma {:induction false} BeforeSnoc(lens: seq<nat>, x: nat, len: nat)
    ensures Before(lens + [x], len) == Before(lens, len) + if 0 < x < len then 1 else 0
  {
    if len > 1 {
      BeforeSnoc(lens, x, len - 1);
      assert (lens + [x])[..|lens|] == lens;
    }
  }

  lemma {:induction false} BeforeBound(lens: seq<nat>, len: nat)
    ensures Before(lens, len) <= |lens|
  {
    if lens == [] {
      BeforeOfNone(len);
    } else {
      var n := |lens| - 1;
      BeforeBound(lens[..n], len);
      BeforeSnoc(lens[..n], lens[n], len);
      assert lens[..n] + [lens[n]] == lens;
    }
  }

  lemma {:induction false} BeforeOfNone(len: nat)
    ensures Before([], len) == 0
  {
    if len > 1 {
      BeforeOfNone(len - 1);
    }
  }

  lemma {:induction false} SortedIndexBound(lens: seq<nat>, i: nat)
    requires i < |lens| && 0 < lens[i]
    ensures Before(lens, lens[i]) <= SortedIndex(lens, i) < Before(lens, lens[i] + 1) <= |lens|
  {
    RankBound(lens, i);
    BeforeBound(lens, lens[i] + 1);
  }

  lemma {:induction false} SortedIndexUnique(lens: seq<nat>, i: nat, j: nat)
    requires i < |lens| && j < |lens| && 0 < lens[i] && 0 < lens[j] && i != j
    ensures SortedIndex(lens, i) != SortedIndex(lens, j)
  {
    SortedIndexBound(lens, i);
    SortedIndexBound(lens, j);
    if lens[i] < lens[j] {
      BeforeMono(lens, lens[i] + 1, lens[j]);
    } else if lens[j] < lens[i] {
      BeforeMono(lens, lens[j] + 1, lens[i]);
    } else if i < j {
      RankDistinct(lens, i, j);
    } else {
      RankDistinct(lens, j, i);
    }
  }
}
