/**
 Codes as Deflate packs them (sections 3.1.1 and 3.2.2 of RFC 1951): the first bit of a code
 is the lowest unread bit of the input.
 */
module DeflateCodes {
  import opened Bits
  import opened BitSequence
  import opened BitReversal
  import opened Counts = HuffmanCodes
  import opened CanonicalCodes

  /** Code lengths of an alphabet; zero means the symbol is unused. */
  ghost predicate IsLengths(lens: seq<nat>) {
    forall i :: 0 <= i < |lens| ==> lens[i] <= 15
  }

  /** Deflate uses lengths up to 15 only. */
  lemma {:induction false} NoSixteen(lens: seq<nat>)
    requires IsLengths(lens)
    ensures Below(lens, 16) == Below(lens, 15)
  {
    CountZero(lens, 16);
    ShlZero(0);
  }

  // ----- reading codes from the input

  /** The next `n` bits with the first one most significant, as codes are packed (section 3.1.1 of RFC 1951). */
  function FirstBits(data: seq<byte>, pos: nat, n: nat): nat {
    if n == 0 then 0 else 2 * FirstBits(data, pos, n - 1) + LsbBit(data, pos + n - 1)
  }

  lemma {:induction false} FirstBitsSplit(data: seq<byte>, pos: nat, a: nat, b: nat)
    ensures FirstBits(data, pos, a + b) == Shl(FirstBits(data, pos, a), b) + FirstBits(data, pos + a, b)
  {
    if b > 0 {
      FirstBitsSplit(data, pos, a, b - 1);
      assert a + b - 1 == a + (b - 1) && pos + (a + b) - 1 == pos + a + b - 1;
    }
  }

  lemma {:induction false} FirstBitsBound(data: seq<byte>, pos: nat, n: nat)
    ensures FirstBits(data, pos, n) < Pow2(n)
  {
    if n > 0 {
      FirstBitsBound(data, pos, n - 1);
    }
  }

  lemma {:induction false} FirstBitsPrefix(data: seq<byte>, pos: nat, a: nat, b: nat)
    ensures Shr(FirstBits(data, pos, a + b), b) == FirstBits(data, pos, a)
  {
    FirstBitsSplit(data, pos, a, b);
    FirstBitsBound(data, pos + a, b);
    Join(FirstBits(data, pos, a), FirstBits(data, pos + a, b), b);
  }

  /** Reversing the bits as the bit buffer holds them gives the code order. */
  lemma {:induction false} RevOfLsb(data: seq<byte>, pos: nat, n: nat)
    ensures Rev(Lsb(data, pos, n), n) == FirstBits(data, pos, n)
    decreases n
  {
    if n > 0 {
      var x := Lsb(data, pos, n);
      assert x % 2 == LsbBit(data, pos) && x / 2 == Lsb(data, pos + 1, n - 1);
      RevOfLsb(data, pos + 1, n - 1);
      FirstBitsSplit(data, pos, 1, n - 1);
      assert FirstBits(data, pos, 1) == LsbBit(data, pos) by { assert FirstBits(data, pos, 0) == 0; }
    }
  }

  /** The input from bit `pos` on starts with the code of symbol `i`. */
  ghost predicate StartsWith(lens: seq<nat>, i: nat, data: seq<byte>, pos: nat) {
    i < |lens| && 0 < lens[i] <= 16 && FirstBits(data, pos, lens[i]) == SymbolCode(lens, i)
  }

  lemma {:induction false} StartsWithMatches(lens: seq<nat>, i: nat, data: seq<byte>, pos: nat)
    ensures StartsWith(lens, i, data, pos) <==> Matches(lens, i, FirstBits(data, pos, 16))
  {
    if i < |lens| && 0 < lens[i] <= 16 {
      assert lens[i] + (16 - lens[i]) == 16;
      FirstBitsPrefix(data, pos, lens[i], 16 - lens[i]);
    }
  }

  /** In the bit buffer a code appears reversed, at the low end. */
  lemma {:induction false} MatchesReversed(lens: seq<nat>, i: nat, data: seq<byte>, pos: nat)
    requires NotOversubscribed(lens) && i < |lens| && 0 < lens[i] <= 16
    ensures StartsWith(lens, i, data, pos) <==> Lsb(data, pos, lens[i]) == Rev(SymbolCode(lens, i), lens[i])
  {
    var n := lens[i];
    RevOfLsb(data, pos, n);
    CodeFitsLength(lens, i);
    LowSmall(SymbolCode(lens, i), n);
    RevRev(SymbolCode(lens, i), n);
    LsbBound(data, pos, n);
    LowSmall(Lsb(data, pos, n), n);
    RevRev(Lsb(data, pos, n), n);
  }
}
