/**
 The length and distance symbols of section 3.2.5 of RFC 1951, the way an encoder computes them: from the position of
 the highest bit. The decoder's tables say the same.
 */
module DeflateSymbols {
  import opened Bits
  import opened ZlibInflate

  /** The position of the highest bit of `v`. */
  function Log2(v: nat): (e: nat)
    requires v > 0
    ensures Pow2(e) <= v < 2 * Pow2(e)
  {
    if v == 1 then 0 else 1 + Log2(v / 2)
  }

  /** A symbol and the extra bits behind it. */
  datatype Coded = Coded(symbol: nat, extra: nat, bits: nat)

  /** The first eight lengths have a symbol each, then every power of two is split in four; 258 stands alone. */
  function CodeLength(length: nat): Coded
    requires 3 <= length <= 258
  {
    var v := length - 3;
    if length == 258 then Coded(285, 0, 0)
    else if v < 8 then Coded(257 + v, 0, 0)
    else
      var e := Log2(v) - 2;
      Coded(257 + 4 * e + v / Pow2(e), v % Pow2(e), e)
  }

  /** The first four distances have a symbol each, then every power of two is split in two. */
  function CodeDistance(dist: nat): Coded
    requires 1 <= dist <= 32768
  {
    var v := dist - 1;
    if v < 4 then Coded(v, 0, 0)
    else
      var e := Log2(v) - 1;
      Coded(2 * e + v / Pow2(e), v % Pow2(e), e)
  }

  lemma {:induction false} Powers()
    ensures Pow2(0) == 1 && Pow2(1) == 2 && Pow2(2) == 4 && Pow2(3) == 8 && Pow2(4) == 16 && Pow2(5) == 32
    ensures Pow2(6) == 64 && Pow2(7) == 128 && Pow2(8) == 256 && Pow2(9) == 512 && Pow2(10) == 1024
    ensures Pow2(11) == 2048 && Pow2(12) == 4096 && Pow2(13) == 8192 && Pow2(14) == 16384 && Pow2(15) == 32768
  {}

  /** No extra bits for the first eight lengths and for 258; otherwise one more for every four symbols. */
  lemma {:induction false} LengthBitsRule(z: nat)
    requires 257 <= z <= 285
    ensures LengthExtra(z) == if z < 265 || z == 285 then 0 else (z - 261) / 4
  {}

  /** No extra bits for the first four distances, then one more for every two symbols. */
  lemma {:induction false} DistanceBitsRule(d: nat)
    requires d < 30
    ensures DistExtra(d) == if d < 4 then 0 else d / 2 - 1
  {}

  /** The lengths of the symbols follow each other without gap or overlap. */
  lemma {:induction false} LengthsTile(z: nat)
    requires 257 <= z < 284
    ensures LengthBase(z + 1) == LengthBase(z) + Pow2(LengthExtra(z))
  {
    Powers();
    hide Pow2;
  }

  /** They start at 3; the last one has its top value, 258, to spare, which has a symbol of its own. */
  lemma {:induction false} LengthsFromTo()
    ensures LengthBase(257) == 3 && LengthBase(284) + Pow2(LengthExtra(284)) == 259
    ensures LengthBase(285) == 258 && LengthExtra(285) == 0
  {
    Powers();
  }

  lemma {:induction false} DistancesTile(d: nat)
    requires d < 29
    ensures DistBase(d + 1) == DistBase(d) + Pow2(DistExtra(d))
  {
    Powers();
    hide Pow2;
  }

  lemma {:induction false} DistancesFromTo()
    ensures DistBase(0) == 1 && DistBase(29) + Pow2(DistExtra(29)) == 32769
  {
    Powers();
  }

  lemma {:induction false} LengthOrder(y: nat, z: nat)
    requires 257 <= y < z <= 284
    ensures LengthBase(y) + Pow2(LengthExtra(y)) <= LengthBase(z)
    decreases z
  {
    LengthsTile(z - 1);
    if y < z - 1 {
      LengthOrder(y, z - 1);
    }
  }

  lemma {:induction false} DistanceOrder(c: nat, d: nat)
    requires c < d < 30
    ensures DistBase(c) + Pow2(DistExtra(c)) <= DistBase(d)
    decreases d
  {
    DistancesTile(d - 1);
    if c < d - 1 {
      DistanceOrder(c, d - 1);
    }
  }

  /** The symbols of a power of two, in four parts. */
  lemma {:induction false} LengthRule(e: nat, q: nat)
    requires e <= 5 && 4 <= q < 8
    ensures var z := 257 + 4 * e + q; LengthBase(z) == 3 + q * Pow2(e) && LengthExtra(z) == e
  {
    Powers();
    hide Pow2;
  }

  /** The symbols of a power of two, in two parts. */
  lemma {:induction false} DistanceRule(e: nat, q: nat)
    requires e <= 13 && 2 <= q < 4
    ensures var d := 2 * e + q; DistBase(d) == 1 + q * Pow2(e) && DistExtra(d) == e
  {
    Powers();
    hide Pow2;
  }

  /** Dividing by the power of two that lies `k` below the highest bit leaves `k + 1` bits. */
  lemma {:induction false} TopBits(v: nat, e: nat, k: nat)
    requires v > 0 && e + k == Log2(v)
    ensures Pow2(k) <= v / Pow2(e) < 2 * Pow2(k) && v == v / Pow2(e) * Pow2(e) + v % Pow2(e)
  {
    PowerOfSum(k, e);
    Quotient(v, Pow2(e), Pow2(k));
  }

  lemma {:induction false} PowerOfSum(a: nat, b: nat)
    ensures Pow2(a + b) == Pow2(a) * Pow2(b)
  {
    if a > 0 {
      PowerOfSum(a - 1, b);
      assert Pow2(a) * Pow2(b) == 2 * (Pow2(a - 1) * Pow2(b));
    }
  }

  lemma {:induction false} Quotient(v: nat, p: nat, q: nat)
    requires p > 0 && q * p <= v < 2 * (q * p)
    ensures q <= v / p < 2 * q && v == v / p * p + v % p
  {
    if v / p < q {
      MulStrict(v / p, q, p);
    } else {
      MulAbove(v / p, 2 * q, p);
    }
  }

  lemma {:induction false} MulAbove(a: nat, b: nat, p: nat)
    ensures a >= b ==> a * p >= b * p
  {
    if a >= b {
      MulMono(b, a, p);
    }
  }

  lemma {:induction false} LogBelow(v: nat, n: nat)
    requires 0 < v < Pow2(n)
    ensures Log2(v) < n
  {
    if n <= Log2(v) {
      Pow2Mono(n, Log2(v));
    }
  }

  lemma {:induction false} LogFrom(v: nat, n: nat)
    requires Pow2(n) <= v
    ensures n <= Log2(v)
  {
    if Log2(v) < n {
      Pow2Mono(Log2(v) + 1, n);
    }
  }

  lemma {:induction false} SmallLength(length: nat)
    requires 3 <= length <= 10 || length == 258
    ensures var z := if length == 258 then 285 else 254 + length;
      LengthBase(z) == length && LengthExtra(z) == 0
  {}

  lemma {:induction false} SmallDistance(dist: nat)
    requires 1 <= dist <= 4
    ensures DistBase(dist - 1) == dist && DistExtra(dist - 1) == 0
  {}

  /** The decoder's tables undo the encoder's computation. */
  lemma {:induction false} LengthDecodes(length: nat)
    requires 3 <= length <= 258
    ensures var c := CodeLength(length);
      && 257 <= c.symbol <= 285 && LengthExtra(c.symbol) == c.bits && c.extra < Pow2(c.bits)
      && LengthBase(c.symbol) + c.extra == length
  {
    Powers();
    hide Log2, Pow2, LengthBase, LengthExtra;
    var v := length - 3;
    if length < 258 && v < 8 {
      SmallLength(length);
    } else if v < 255 {
      LogBelow(v, 8);
      LogFrom(v, 3);
      var e := Log2(v) - 2;
      TopBits(v, e, 2);
      LengthRule(e, v / Pow2(e));
    } else {
      SmallLength(length);
    }
  }

  lemma {:induction false} DistanceDecodes(dist: nat)
    requires 1 <= dist <= 32768
    ensures var c := CodeDistance(dist);
      && c.symbol < 30 && DistExtra(c.symbol) == c.bits && c.extra < Pow2(c.bits)
      && DistBase(c.symbol) + c.extra == dist
  {
    Powers();
    hide Log2, Pow2, DistBase, DistExtra;
    var v := dist - 1;
    if v < 4 {
      SmallDistance(dist);
    } else {
      LogBelow(v, 15);
      LogFrom(v, 2);
      var e := Log2(v) - 1;
      TopBits(v, e, 1);
      DistanceRule(e, v / Pow2(e));
    }
  }

  /** Each length below 258 has exactly one symbol and extra value. */
  lemma {:induction false} LengthCodedOnce(length: nat, z: nat, x: nat)
    requires 3 <= length <= 257
    ensures 257 <= z <= 285 && x < Pow2(LengthExtra(z)) && LengthBase(z) + x == length
            <==> z == CodeLength(length).symbol && x == CodeLength(length).extra
  {
    LengthDecodes(length);
    var y := CodeLength(length).symbol;
    LengthsFromTo();
    if 257 <= z <= 284 && y < z && y <= 284 {
      LengthOrder(y, z);
    } else if 257 <= z < y <= 284 {
      LengthOrder(z, y);
    }
  }

  /** Each distance has exactly one symbol and extra value. */
  lemma {:induction false} DistanceCodedOnce(dist: nat, d: nat, x: nat)
    requires 1 <= dist <= 32768
    ensures d < 30 && x < Pow2(DistExtra(d)) && DistBase(d) + x == dist
            <==> d == CodeDistance(dist).symbol && x == CodeDistance(dist).extra
  {
    DistanceDecodes(dist);
    var c := CodeDistance(dist).symbol;
    if c < d < 30 {
      DistanceOrder(c, d);
    } else if d < c {
      DistanceOrder(d, c);
    }
  }

  /** The length 258 can also be had from symbol 284, which has a value to spare. */
  lemma {:induction false} SpareLength()
    ensures LengthExtra(284) == 5 && LengthBase(284) + 31 == 258 && 31 < Pow2(5)
  {
    LengthsFromTo();
    LengthBitsRule(284);
    Powers();
  }

  /** What a length symbol with its extra bits stands for. */
  lemma {:induction false} LengthOfSymbol(z: nat, x: nat)
    requires 257 <= z <= 285 && x < Pow2(LengthExtra(z))
    ensures 3 <= LengthBase(z) + x <= 258
    ensures Coded(z, x, LengthExtra(z)) == CodeLength(LengthBase(z) + x)
            || (LengthBase(z) + x == 258 && z == 284 && x == 31 && LengthExtra(z) == 5)
  {
    Powers();
    hide CodeLength, LengthBase, LengthExtra, Pow2;
    var length := LengthBase(z) + x;
    LengthsFromTo();
    SpareLength();
    if z == 285 {
      LengthAlone();
    } else {
      if z < 284 {
        LengthOrder(z, 284);
      }
      if z > 257 {
        LengthOrder(257, z);
      }
      if length <= 257 {
        LengthDecodes(length);
        LengthCodedOnce(length, z, x);
      }
    }
  }

  lemma {:induction false} LengthAlone()
    ensures CodeLength(258) == Coded(285, 0, 0)
  {}

  lemma {:induction false} DistanceOfSymbol(d: nat, x: nat)
    requires d < 30 && x < Pow2(DistExtra(d))
    ensures 1 <= DistBase(d) + x <= 32768 && Coded(d, x, DistExtra(d)) == CodeDistance(DistBase(d) + x)
  {
    hide CodeDistance, DistBase, DistExtra, Pow2;
    DistancesFromTo();
    if d < 29 {
      DistanceOrder(d, 29);
    }
    if d > 0 {
      DistanceOrder(0, d);
    }
    DistanceDecodes(DistBase(d) + x);
    DistanceCodedOnce(DistBase(d) + x, d, x);
  }
}
