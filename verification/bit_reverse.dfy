/**
 The bit reversal that Deflate decoding needs: the source swaps halves of a 16-bit word in
 four masked steps; here that is proved equal to reversing bit by bit.
 */
module BitReversal {
  import opened Bits

  /** The low `n` bits of `v`, in reverse order. */
  function Rev(v: nat, n: nat): nat
    decreases n, v
  {
    if n == 0 then 0 else Shl(v % 2, n - 1) + Rev(v / 2, n - 1)
  }

  lemma {:induction false} RevBound(v: nat, n: nat)
    ensures Rev(v, n) < Pow2(n)
    decreases n
  {
    if n > 0 {
      RevBound(v / 2, n - 1);
      ShlMono(v % 2, 1, n - 1);
      ShlOne(n - 1);
    }
  }

  /** The bit that goes to the top, and those that stay below it. */
  lemma {:induction false} FirstBit(v: nat, n: nat, i: nat)
    requires n > 0
    ensures i >= n - 1 ==> Bit(v % 2, i - (n - 1)) == (i == n - 1 && Bit(v, 0))
    ensures i < n - 1 ==> Bit(v / 2, n - 2 - i) == Bit(v, n - 1 - i)
  {
    if i >= n {
      assert v % 2 / 2 == 0;
      BitOfZero(i - n);
    }
  }

  lemma {:induction false} RevBit(v: nat, n: nat, i: nat)
    ensures Bit(Rev(v, n), i) == (i < n && Bit(v, n - 1 - i))
    decreases n
  {
    hide Shl, Or, Bit, Pow2;
    if n == 0 {
      BitOfZero(i);
    } else {
      var r, b := Rev(v / 2, n - 1), v % 2;
      RevBound(v / 2, n - 1);
      RevBit(v / 2, n - 1, i);
      OrDisjoint(r, b, n - 1);
      BitOr(r, Shl(b, n - 1), i);
      BitShl(b, n - 1, i);
      FirstBit(v, n, i);
    }
  }

  /** Reversing twice gives the low bits back. */
  lemma {:induction false} RevRev(v: nat, n: nat)
    ensures Rev(Rev(v, n), n) == Low(v, n)
  {
    forall i: nat ensures Bit(Rev(Rev(v, n), n), i) == Bit(Low(v, n), i) {
      RevBit(Rev(v, n), n, i);
      if i < n {
        RevBit(v, n, n - 1 - i);
      }
      BitLow(v, n, i);
    }
    SameBits(Rev(Rev(v, n), n), Low(v, n));
  }

  /** One step of the source: move the bits under `upper` down and those under `lower` up by `s`. */
  function Exchange(n: nat, upper: nat, lower: nat, s: nat): nat {
    Or(Shr(And(n, upper), s), Shl(And(n, lower), s))
  }

  /** stbi__bitreverse16 */
  function BitReverse16(n: nat): nat {
    var n1 := Exchange(n, 0xAAAA, 0x5555, 1);
    var n2 := Exchange(n1, 0xCCCC, 0x3333, 2);
    var n3 := Exchange(n2, 0xF0F0, 0x0F0F, 4);
    Exchange(n3, 0xFF00, 0x00FF, 8)
  }

  /** stbi__bit_reverse */
  function BitReverse(v: nat, bits: nat): nat
    requires bits <= 16
  {
    Shr(BitReverse16(v), 16 - bits)
  }

  lemma {:induction false} ExchangeBit(n: nat, upper: nat, lower: nat, s: nat, i: nat)
    ensures Bit(Exchange(n, upper, lower, s), i) ==
      ((Bit(n, i + s) && Bit(upper, i + s)) || (i >= s && Bit(n, i - s) && Bit(lower, i - s)))
  {
    BitOr(Shr(And(n, upper), s), Shl(And(n, lower), s), i);
    BitShr(And(n, upper), s, i);
    BitShl(And(n, lower), s, i);
    BitAnd(n, upper, i + s);
    if i >= s {
      BitAnd(n, lower, i - s);
    }
  }

  /** Bit `i` of each upper mask; the lower masks hold the other bits below 16. */
  predicate InUpper(s: nat, i: nat) {
    i < 16 && match s
              case 1 => i % 2 == 1
              case 2 => i / 2 % 2 == 1
              case 4 => i / 4 % 2 == 1
              case _ => i / 8 % 2 == 1
  }

  lemma {:induction false} Masks1(i: nat)
    ensures Bit(0xAAAA, i) == InUpper(1, i) && Bit(0x5555, i) == (i < 16 && !InUpper(1, i))
  {
    if i >= 16 {
      BeyondWord(0xAAAA, i);
      BeyondWord(0x5555, i);
    } else {
      MaskWord(0xAAAA, i);
      MaskWord(0x5555, i);
    }
  }

  lemma {:induction false} Masks2(i: nat)
    ensures Bit(0xCCCC, i) == InUpper(2, i) && Bit(0x3333, i) == (i < 16 && !InUpper(2, i))
  {
    if i >= 16 {
      BeyondWord(0xCCCC, i);
      BeyondWord(0x3333, i);
    } else {
      MaskWord(0xCCCC, i);
      MaskWord(0x3333, i);
    }
  }

  lemma {:induction false} Masks4(i: nat)
    ensures Bit(0xF0F0, i) == InUpper(4, i) && Bit(0x0F0F, i) == (i < 16 && !InUpper(4, i))
  {
    if i >= 16 {
      BeyondWord(0xF0F0, i);
      BeyondWord(0x0F0F, i);
    } else {
      MaskWord(0xF0F0, i);
      MaskWord(0x0F0F, i);
    }
  }

  lemma {:induction false} Masks8(i: nat)
    ensures Bit(0xFF00, i) == InUpper(8, i) && Bit(0x00FF, i) == (i < 16 && !InUpper(8, i))
  {
    if i >= 16 {
      BeyondWord(0xFF00, i);
      BeyondWord(0x00FF, i);
    } else {
      MaskWord(0xFF00, i);
      MaskWord(0x00FF, i);
    }
  }

  lemma {:induction false} BeyondWord(n: nat, i: nat)
    requires n < 0x1_0000 && i >= 16
    ensures !Bit(n, i)
  {
    Pow2Consts();
    LowSmall(n, 16);
    BitLow(n, 16, i);
  }

  /** The bits of a 16-bit word, each by division with a constant. */
  lemma {:induction false} MaskWord(n: nat, i: nat)
    requires n < 0x1_0000 && i < 16
    ensures Bit(n, i) == (n / [1, 2, 4, 8, 16, 32, 64, 128, 256, 512, 1024, 2048, 4096, 8192, 16384, 32768][i] % 2 == 1)
  {
    hide Bit, Shr;
    BitOfShr(n, i);
    ShrByConstant(n);
    if i < 8 {
      assert Shr(n, i) == n / [1, 2, 4, 8, 16, 32, 64, 128][i];
    } else {
      assert Shr(n, i) == n / [256, 512, 1024, 2048, 4096, 8192, 16384, 32768][i - 8];
    }
  }

  lemma {:induction false} ShrByConstant(n: nat)
    ensures Shr(n, 0) == n && Shr(n, 1) == n / 2 && Shr(n, 2) == n / 4 && Shr(n, 3) == n / 8
    ensures Shr(n, 4) == n / 16 && Shr(n, 5) == n / 32 && Shr(n, 6) == n / 64 && Shr(n, 7) == n / 128
    ensures Shr(n, 8) == n / 256 && Shr(n, 9) == n / 512 && Shr(n, 10) == n / 1024 && Shr(n, 11) == n / 2048
    ensures Shr(n, 12) == n / 4096 && Shr(n, 13) == n / 8192 && Shr(n, 14) == n / 16384 && Shr(n, 15) == n / 32768
  {}

  /** Each step of the source moves bit `i` to its mirror image inside blocks of 2 * s bits. */
  function Partner(s: nat, i: nat): nat {
    if InUpper(s, i) && i >= s then i - s else i + s
  }

  lemma {:induction false} Step1(n: nat, i: nat)
    ensures Bit(Exchange(n, 0xAAAA, 0x5555, 1), i) == (i < 16 && Bit(n, Partner(1, i)))
  {
    ExchangeBit(n, 0xAAAA, 0x5555, 1, i);
    Masks1(i + 1);
    if i >= 1 {
      Masks1(i - 1);
    }
  }

  lemma {:induction false} Step2(n: nat, i: nat)
    ensures Bit(Exchange(n, 0xCCCC, 0x3333, 2), i) == (i < 16 && Bit(n, Partner(2, i)))
  {
    ExchangeBit(n, 0xCCCC, 0x3333, 2, i);
    Masks2(i + 2);
    if i >= 2 {
      Masks2(i - 2);
    }
  }

  lemma {:induction false} Step4(n: nat, i: nat)
    ensures Bit(Exchange(n, 0xF0F0, 0x0F0F, 4), i) == (i < 16 && Bit(n, Partner(4, i)))
  {
    ExchangeBit(n, 0xF0F0, 0x0F0F, 4, i);
    Masks4(i + 4);
    if i >= 4 {
      Masks4(i - 4);
    }
  }

  lemma {:induction false} Step8(n: nat, i: nat)
    ensures Bit(Exchange(n, 0xFF00, 0x00FF, 8), i) == (i < 16 && Bit(n, Partner(8, i)))
  {
    ExchangeBit(n, 0xFF00, 0x00FF, 8, i);
    Masks8(i + 8);
    if i >= 8 {
      Masks8(i - 8);
    }
  }

  lemma {:induction false} Mirror(i: nat)
    requires i < 16
    ensures Partner(8, i) < 16 && Partner(4, Partner(8, i)) < 16 && Partner(2, Partner(4, Partner(8, i))) < 16
    ensures Partner(1, Partner(2, Partner(4, Partner(8, i)))) == 15 - i
  {}

  /** The four masked steps reverse the low 16 bits. */
  lemma {:induction false} BitReverse16IsRev(n: nat)
    ensures BitReverse16(n) == Rev(n, 16)
  {
    var n1 := Exchange(n, 0xAAAA, 0x5555, 1);
    var n2 := Exchange(n1, 0xCCCC, 0x3333, 2);
    var n3 := Exchange(n2, 0xF0F0, 0x0F0F, 4);
    forall i: nat ensures Bit(BitReverse16(n), i) == Bit(Rev(n, 16), i) {
      RevBit(n, 16, i);
      Step8(n3, i);
      if i < 16 {
        var i3 := Partner(8, i);
        Step4(n2, i3);
        var i2 := Partner(4, i3);
        Step2(n1, i2);
        var i1 := Partner(2, i2);
        Step1(n, i1);
        Mirror(i);
      }
    }
    SameBits(BitReverse16(n), Rev(n, 16));
  }

  /** stbi__bit_reverse reverses the low `bits` bits of a value that has no others. */
  lemma {:induction false} BitReverseIsRev(v: nat, bits: nat)
    requires bits <= 16 && v < Pow2(bits)
    ensures BitReverse(v, bits) == Rev(v, bits)
  {
    BitReverse16IsRev(v);
    LowSmall(v, bits);
    forall i: nat ensures Bit(BitReverse(v, bits), i) == Bit(Rev(v, bits), i) {
      BitShr(Rev(v, 16), 16 - bits, i);
      RevBit(v, 16, i + (16 - bits));
      RevBit(v, bits, i);
    }
    SameBits(BitReverse(v, bits), Rev(v, bits));
  }
}
