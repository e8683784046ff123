/**
 Fixed-width machine words as natural numbers. The C sources mask, or and shift
 unsigned integers; here these operations are defined bit by bit, so that every law
 about them is an induction over bits and no proof needs non-linear arithmetic.
 */
module Bits {

  function Pow2(n: nat): (p: nat)
    ensures p >= 1
  {
    if n == 0 then 1 else 2 * Pow2(n - 1)
  }

  /** Shift left, in unbounded width. */
  function Shl(a: nat, k: nat): nat {
    if k == 0 then a else 2 * Shl(a, k - 1)
  }

  /** Shift right. */
  function Shr(a: nat, k: nat): nat {
    if k == 0 then a else Shr(a, k - 1) / 2
  }

  /** The low `k` bits, which is also truncation to a `k`-bit unsigned type. */
  function Low(a: nat, k: nat): nat {
    if k == 0 then 0 else a % 2 + 2 * Low(a / 2, k - 1)
  }

  /** Bit number `i` of `n`, least significant first. */
  function Bit(n: nat, i: nat): bool
  {
    if i == 0 then n % 2 == 1 else Bit(n / 2, i - 1)
  }

  function And(a: nat, b: nat): nat
    decreases a
  {
    if a == 0 then 0
    else (if a % 2 == 1 && b % 2 == 1 then 1 else 0) + 2 * And(a / 2, b / 2)
  }

  function Or(a: nat, b: nat): nat
    decreases a + b
  {
    if a == 0 && b == 0 then 0
    else (if a % 2 == 1 || b % 2 == 1 then 1 else 0) + 2 * Or(a / 2, b / 2)
  }

  function Xor(a: nat, b: nat): nat
    decreases a + b
  {
    if a == 0 && b == 0 then 0
    else (if a % 2 != b % 2 then 1 else 0) + 2 * Xor(a / 2, b / 2)
  }

  // ----- powers of two

  lemma {:induction false} Pow2Mono(a: nat, b: nat)
    requires a <= b
    ensures Pow2(a) <= Pow2(b)
    ensures a < b ==> 2 * Pow2(a) <= Pow2(b)
    decreases b - a
  {
    if a < b {
      Pow2Mono(a + 1, b);
    }
  }

  lemma {:induction false} ShlOne(k: nat)
    ensures Shl(1, k) == Pow2(k)
  {
    if k > 0 {
      ShlOne(k - 1);
    }
  }

  lemma {:induction false} Pow2Split(a: nat, b: nat)
    ensures Pow2(a + b) == Shl(Pow2(a), b)
  {
    ShlOne(a);
    ShlOne(a + b);
    ShlShl(1, a, b);
  }

  lemma {:induction false} Pow2Consts()
    ensures Pow2(8) == 256 && Pow2(9) == 512 && Pow2(15) == 0x8000 && Pow2(16) == 0x1_0000
    ensures Pow2(24) == 0x100_0000 && Pow2(31) == 0x8000_0000 && Pow2(32) == 0x1_0000_0000
    ensures Pow2(5) == 32 && Pow2(7) == 128 && Pow2(11) == 2048
  {}

  // ----- shifts

  lemma {:induction false} ShlZero(k: nat)
    ensures Shl(0, k) == 0
  {
    if k > 0 {
      ShlZero(k - 1);
    }
  }

  lemma {:induction false} ShlSum(a: nat, b: nat, k: nat)
    ensures Shl(a + b, k) == Shl(a, k) + Shl(b, k)
  {
    if k > 0 {
      ShlSum(a, b, k - 1);
    }
  }

  lemma {:induction false} ShlNext(a: nat, k: nat)
    ensures Shl(a + 1, k) == Shl(a, k) + Pow2(k)
  {
    ShlSum(a, 1, k);
    ShlOne(k);
  }

  lemma {:induction false} ShlShl(a: nat, j: nat, k: nat)
    ensures Shl(Shl(a, j), k) == Shl(a, j + k)
    decreases k
  {
    if k > 0 {
      ShlShl(a, j, k - 1);
      assert j + k - 1 == j + (k - 1);
    }
  }

  lemma {:induction false} ShlMono(a: nat, b: nat, k: nat)
    requires a <= b
    ensures Shl(a, k) <= Shl(b, k)
    ensures a < b ==> Shl(a, k) + Pow2(k) <= Shl(b, k)
  {
    if k > 0 {
      ShlMono(a, b, k - 1);
    }
  }

  lemma {:induction false} ShlGrows(a: nat, k: nat)
    ensures a <= Shl(a, k)
  {
    if k > 0 {
      ShlGrows(a, k - 1);
    }
  }

  lemma {:induction false} Thrice(x: nat, k: nat)
    ensures Shl(x, k + 1) == 2 * Shl(x, k) && Shr(x, k + 1) == Shr(x, k) / 2
    ensures Shl(x, 0) == x && Shr(x, 0) == x
  {}

  lemma {:induction false} ByEight(x: nat)
    ensures Shl(x, 3) == 8 * x && Shr(x, 3) == x / 8
  {
    Thrice(x, 0);
    Thrice(x, 1);
    Thrice(x, 2);
    EightIsThrice(x);
  }

  lemma {:induction false} EightIsThrice(x: nat)
    ensures x / 2 / 2 / 2 == x / 8
  {}

  lemma {:induction false} BySixtyFour(x: nat)
    ensures Shl(x, 6) == 64 * x && Low(x, 6) == x % 64
  {
    var q := Shr(x, 6);
    ByEight(x);
    ByEight(8 * x);
    ShlShl(x, 3, 3);
    ByEight(q);
    ByEight(8 * q);
    ShlShl(q, 3, 3);
    Split(x, 6);
    assert Pow2(6) == 64;
    DivModUnique(x, 64, q, Low(x, 6));
  }

  lemma {:induction false} ShrOfZero(k: nat)
    ensures Shr(0, k) == 0
  {
    if k > 0 {
      ShrOfZero(k - 1);
    }
  }

  /** Shr may also be unfolded at its lowest bit. */
  lemma {:induction false} ShrInner(a: nat, k: nat)
    requires k > 0
    ensures Shr(a, k) == Shr(a / 2, k - 1)
  {
    if k > 1 {
      ShrInner(a, k - 1);
    }
  }

  lemma {:induction false} ShrShr(a: nat, j: nat, k: nat)
    ensures Shr(Shr(a, j), k) == Shr(a, j + k)
    decreases k
  {
    if k > 0 {
      ShrShr(a, j, k - 1);
      assert j + k - 1 == j + (k - 1);
    }
  }

  /** A number is its high part and its low part. */
  lemma {:induction false} Split(a: nat, k: nat)
    ensures a == Shl(Shr(a, k), k) + Low(a, k) && Low(a, k) < Pow2(k)
  {
    if k > 0 {
      Split(a / 2, k - 1);
      ShrInner(a, k);
    }
  }

  /** High and low part are unique. */
  lemma {:induction false} Join(a: nat, r: nat, k: nat)
    requires r < Pow2(k)
    ensures Shr(Shl(a, k) + r, k) == a && Low(Shl(a, k) + r, k) == r
  {
    if k > 0 {
      Join(a, r / 2, k - 1);
      var x := Shl(a, k) + r;
      assert x / 2 == Shl(a, k - 1) + r / 2 && x % 2 == r % 2;
      ShrInner(x, k);
    }
  }

  lemma {:induction false} ShrOfShl(a: nat, k: nat)
    ensures Shr(Shl(a, k), k) == a && Low(Shl(a, k), k) == 0
  {
    Join(a, 0, k);
  }

  lemma {:induction false} LowSmall(a: nat, k: nat)
    requires a < Pow2(k)
    ensures Low(a, k) == a && Shr(a, k) == 0
  {
    ShlZero(k);
    Join(0, a, k);
  }

  /** Shifting right is division, rounded down. */
  lemma {:induction false} ShrBelow(a: nat, n: nat, k: nat)
    ensures a < Shl(n, k) <==> Shr(a, k) < n
  {
    Split(a, k);
    if Shr(a, k) < n {
      ShlMono(Shr(a, k), n, k);
    } else {
      ShlMono(n, Shr(a, k), k);
    }
  }

  // ----- single bits

  lemma {:induction false} BitOfShr(n: nat, i: nat)
    ensures Bit(n, i) <==> Shr(n, i) % 2 == 1
  {
    if i > 0 {
      BitOfShr(n / 2, i - 1);
      ShrInner(n, i);
    }
  }

  lemma {:induction false} BitOfZero(i: nat)
    ensures !Bit(0, i)
  {
    if i > 0 {
      BitOfZero(i - 1);
    }
  }

  /** Two numbers with the same bits are the same number. */
  lemma {:induction false} SameBits(a: nat, b: nat)
    requires forall i: nat :: Bit(a, i) == Bit(b, i)
    ensures a == b
    decreases a + b
  {
    if a == 0 && b == 0 {
    } else {
      assert Bit(a, 0) == Bit(b, 0);
      forall i: nat ensures Bit(a / 2, i) == Bit(b / 2, i) {
        assert Bit(a, i + 1) == Bit(b, i + 1);
      }
      SameBits(a / 2, b / 2);
    }
  }

  lemma {:induction false} BitAnd(a: nat, b: nat, i: nat)
    ensures Bit(And(a, b), i) == (Bit(a, i) && Bit(b, i))
    decreases i
  {
    if a == 0 {
      BitOfZero(i);
    } else if i > 0 {
      BitAnd(a / 2, b / 2, i - 1);
      assert And(a, b) / 2 == And(a / 2, b / 2);
    }
  }

  lemma {:induction false} OrOfZeros()
    ensures Or(0, 0) == 0
  {}

  lemma {:induction false} BitOr(a: nat, b: nat, i: nat)
    ensures Bit(Or(a, b), i) == (Bit(a, i) || Bit(b, i))
    decreases i
  {
    hide Or;
    if a == 0 && b == 0 {
      OrOfZeros();
      BitOfZero(i);
    } else if i == 0 {
      OrHalf(a, b);
    } else {
      OrHalf(a, b);
      BitOr(a / 2, b / 2, i - 1);
    }
  }

  lemma {:induction false} OrHalf(a: nat, b: nat)
    ensures Or(a, b) / 2 == Or(a / 2, b / 2)
    ensures Or(a, b) % 2 == 1 <==> a % 2 == 1 || b % 2 == 1
  {
    var rest := Or(a / 2, b / 2);
    if a != 0 || b != 0 {
      assert Or(a, b) == 2 * rest || Or(a, b) == 2 * rest + 1;
    }
  }

  lemma {:induction false} BitShr(a: nat, k: nat, i: nat)
    ensures Bit(Shr(a, k), i) == Bit(a, i + k)
    decreases k
  {
    if k > 0 {
      BitShr(a, k - 1, i + 1);
      assert i + 1 + (k - 1) == i + k;
    }
  }

  lemma {:induction false} BitShl(a: nat, k: nat, i: nat)
    ensures Bit(Shl(a, k), i) == (i >= k && Bit(a, i - k))
    decreases k
  {
    if k > 0 && i > 0 {
      BitShl(a, k - 1, i - 1);
    }
  }

  lemma {:induction false} BitLow(a: nat, k: nat, i: nat)
    ensures Bit(Low(a, k), i) == (i < k && Bit(a, i))
    decreases k
  {
    if k == 0 {
      BitOfZero(i);
    } else if i > 0 {
      BitLow(a / 2, k - 1, i - 1);
    }
  }

  // ----- masks and disjoint or

  lemma {:induction false} OrZero(a: nat)
    ensures Or(a, 0) == a && Or(0, a) == a
  {
    if a > 0 {
      OrZero(a / 2);
    }
  }

  lemma {:induction false} AndZero(a: nat)
    ensures And(a, 0) == 0
  {
    if a > 0 {
      AndZero(a / 2);
    }
  }

  lemma {:induction false} LowOfZero(k: nat)
    ensures Low(0, k) == 0
  {
    if k > 0 {
      LowOfZero(k - 1);
    }
  }

  /** Masking with 2^n - 1 keeps the low n bits. */
  lemma {:induction false} AndMask(a: nat, n: nat)
    ensures And(a, Pow2(n) - 1) == Low(a, n)
    decreases n
  {
    if n == 0 {
      AndZero(a);
    } else if a == 0 {
      LowOfZero(n);
    } else {
      var m := Pow2(n - 1);
      AndMask(a / 2, n - 1);
      assert (2 * m - 1) / 2 == m - 1 && (2 * m - 1) % 2 == 1;
    }
  }

  /** A mask whose low bits are zero. */
  lemma {:induction false} AndHigh(a: nat, m: nat, n: nat)
    ensures And(a, Shl(m, n)) == Shl(And(Shr(a, n), m), n)
  {
    if n > 0 {
      if a == 0 {
        ShrOfZero(n);
        ShlZero(n);
      } else {
        AndHigh(a / 2, m, n - 1);
        ShrInner(a, n);
      }
    }
  }

  /** Or-ing a small number below a shifted one is addition. */
  lemma {:induction false} OrDisjoint(a: nat, b: nat, n: nat)
    requires a < Pow2(n)
    ensures Or(a, Shl(b, n)) == a + Shl(b, n)
    ensures Or(Shl(b, n), a) == a + Shl(b, n)
    decreases n
  {
    if n == 0 {
      OrZero(b);
    } else {
      OrDisjoint(a / 2, b, n - 1);
    }
  }

  /** Flipping all bits of an `n`-bit number. */
  lemma {:induction false} XorOnes(a: nat, n: nat)
    requires a < Pow2(n)
    ensures Xor(a, Pow2(n) - 1) == Pow2(n) - 1 - a
  {
    if n > 0 {
      var m := Pow2(n - 1);
      XorOnes(a / 2, n - 1);
      assert (2 * m - 1) / 2 == m - 1 && (2 * m - 1) % 2 == 1;
    }
  }

  lemma {:induction false} SmallWord(x: nat)
    requires x < 0x1_0000_0000
    ensures Low(x, 32) == x
  {
    Pow2Consts();
    LowSmall(x, 32);
  }

  // ----- division with remainder

  lemma {:induction false} MulMono(a: int, b: int, c: int)
    requires a <= b && 0 <= c
    ensures a * c <= b * c
  {}

  lemma {:induction false} MulStrict(a: int, b: int, c: int)
    requires a < b && 0 < c
    ensures a * c + c <= b * c
  {
    MulMono(a + 1, b, c);
  }

  /** Division with remainder is unique. */
  lemma {:induction false} DivModUnique(x: int, d: int, q: int, r: int)
    requires 0 <= r < d && x == q * d + r
    ensures x / d == q && x % d == r
  {
    if x / d < q {
      MulStrict(x / d, q, d);
    } else if x / d > q {
      MulStrict(q, x / d, d);
    }
  }
}
