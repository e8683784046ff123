/**
 The decoding tables of stb's zlib reader: a 512-entry table for codes of up to nine bits,
 indexed by reversed code, and thresholds per length for the longer ones.
 */
module ZlibHuffman {
  import opened Bits
  import opened BitReversal
  import opened Counts = HuffmanCodes
  import opened CanonicalCodes
  import opened DeflateCodes

  /** A fast table entry packs length and symbol. */
  function FastValue(size: nat, i: nat): nat {
    Low(Or(Shl(size, 9), i), 16)
  }

  lemma {:induction false} SixteenNines()
    ensures Shl(16, 9) == 8192
  {}

  lemma {:induction false} FastFields(size: nat, i: nat)
    requires 0 < size <= 15 && i < 512
    ensures FastValue(size, i) > 0 && Shr(FastValue(size, i), 9) == size && And(FastValue(size, i), 511) == i
  {
    hide Shl, Or, Low, Shr;
    var v := FastValue(size, i);
    assert Pow2(9) == 512;
    OrDisjoint(i, size, 9);
    ShlMono(size, 16, 9);
    SixteenNines();
    ShlMono(1, size, 9);
    ShlOne(9);
    Pow2Consts();
    LowSmall(i + Shl(size, 9), 16);
    Join(size, i, 9);
    AndMask(v, 9);
  }

  /** Table index `j` starts, in buffer order, with the code of symbol `i`. */
  predicate FastHit(lens: seq<nat>, i: nat, j: nat)
    requires i < |lens|
  {
    0 < lens[i] <= 9 && Low(j, lens[i]) == Rev(SymbolCode(lens, i), lens[i])
  }

  /** What the first `n` symbols leave at index `j`; zero if none hits it. */
  function FastEntry(lens: seq<nat>, j: nat, n: nat): nat
    requires n <= |lens|
  {
    if n == 0 then 0
    else if FastHit(lens, n - 1, j) then FastValue(lens[n - 1], n - 1)
    else FastEntry(lens, j, n - 1)
  }

  lemma {:induction false} FastEntryMeaning(lens: seq<nat>, j: nat, n: nat)
    requires n <= |lens|
    ensures FastEntry(lens, j, n) != 0 ==>
      exists i :: 0 <= i < n && FastHit(lens, i, j) && FastEntry(lens, j, n) == FastValue(lens[i], i)
    ensures FastEntry(lens, j, n) == 0 && n <= 512 ==> forall i :: 0 <= i < n ==> !FastHit(lens, i, j)
  {
    if n > 0 {
      if FastHit(lens, n - 1, j) {
        if n <= 512 {
          FastFields(lens[n - 1], n - 1);
        }
      } else {
        FastEntryMeaning(lens, j, n - 1);
      }
    }
  }

  lemma {:induction false} UnusedSymbol(lens: seq<nat>, i: nat)
    requires i < |lens| && lens[i] == 0
    ensures forall j :: 0 <= j < 512 ==> FastEntry(lens, j, i + 1) == FastEntry(lens, j, i)
  {}

  class ZHuffman {
    const fast: array<nat>
    const firstcode: array<nat>
    const maxcode: array<nat>
    const firstsymbol: array<nat>
    const size: array<nat>
    const value: array<nat>

    ghost predicate Valid()
      reads this
    {
      && fast.Length == 512 && firstcode.Length == 16 && maxcode.Length == 17 && firstsymbol.Length == 16
      && size.Length == value.Length == 288
      && fast != firstcode && fast != maxcode && fast != firstsymbol && fast != size && fast != value
      && firstcode != maxcode && firstcode != firstsymbol && firstcode != size && firstcode != value
      && maxcode != firstsymbol && maxcode != size && maxcode != value
      && firstsymbol != size && firstsymbol != value && size != value
    }

    ghost function Arrays(): set<object>
      reads this
    {
      {fast, firstcode, maxcode, firstsymbol, size, value}
    }

    constructor ()
      ensures Valid() && fresh(Arrays())
    {
      fast := new nat[512];
      firstcode := new nat[16];
      maxcode := new nat[17];
      firstsymbol := new nat[16];
      size := new nat[288];
      value := new nat[288];
    }

    /** Thresholds and offsets for each code length. */
    ghost predicate LengthsBuilt(lens: seq<nat>)
      reads this, firstcode, maxcode, firstsymbol
      requires Valid()
    {
      && maxcode[16] == 0x1_0000
      && forall s :: 1 <= s <= 15 ==>
           firstcode[s] == NextCode(lens, s) && maxcode[s] == Below(lens, s) && firstsymbol[s] == Before(lens, s)
    }

    /** The first `n` symbols are in the size, value and fast tables. */
    ghost predicate SymbolsBuilt(lens: seq<nat>, n: nat)
      reads this, size, value, fast
      requires Valid() && n <= |lens| <= 288
    {
      && (forall i :: 0 <= i < n && lens[i] > 0 ==>
            SortedIndex(lens, i) < 288 && size[SortedIndex(lens, i)] == lens[i] && value[SortedIndex(lens, i)] == i)
      && forall j :: 0 <= j < 512 ==> fast[j] == FastEntry(lens, j, n)
    }

    ghost predicate Built(lens: seq<nat>)
      reads this, Arrays()
    {
      && Valid() && |lens| <= 288 && IsLengths(lens) && NotOversubscribed(lens)
      && LengthsBuilt(lens) && SymbolsBuilt(lens, |lens|)
    }

    /** First loops of stbi__zbuild_huffman: how often each length occurs. */
    method CountSizes(sizelist: seq<nat>) returns (sizes: array<nat>)
      requires IsLengths(sizelist)
      ensures fresh(sizes) && sizes.Length == 17 && sizes[0] == 0
      ensures forall len :: 1 <= len <= 15 ==> sizes[len] == Count(sizelist, len)
    {
      sizes := new nat[17](_ => 0);
      for i := 0 to |sizelist|
        invariant sizes.Length == 17
        invariant forall len :: 1 <= len <= 15 ==> sizes[len] == Count(sizelist[..i], len)
      {
        forall len { CountSnoc(sizelist, i, len); }
        sizes[sizelist[i]] := sizes[sizelist[i]] + 1;
      }
      assert sizelist[..|sizelist|] == sizelist;
      sizes[0] := 0;
    }

    /** The tables for lengths below `i`, and the first codes still to be handed out. */
    ghost predicate LengthsBelow(lens: seq<nat>, i: nat, nextCode: array<nat>)
      reads this, firstcode, maxcode, firstsymbol, nextCode
      requires Valid() && nextCode.Length == 16 && i <= 16
    {
      && (forall s :: 1 <= s < i ==> firstcode[s] == NextCode(lens, s))
      && (forall s :: 1 <= s < i ==> maxcode[s] == Below(lens, s))
      && (forall s :: 1 <= s < i ==> firstsymbol[s] == Before(lens, s))
      && (forall s :: 1 <= s < i ==> nextCode[s] == NextCode(lens, s))
    }

    /** One round of the loop over lengths. */
    method BuildLength(lens: seq<nat>, i: nat, count: nat, nextCode: array<nat>, code0: nat, k0: nat)
      returns (ok: bool, code: nat, k: nat)
      requires Valid() && nextCode.Length == 16 && nextCode !in Arrays() && 1 <= i <= 15
      requires count == Count(lens, i) && code0 == NextCode(lens, i) && k0 == Before(lens, i)
      requires Below(lens, i - 1) <= 0x1_0000 && LengthsBelow(lens, i, nextCode)
      modifies nextCode, firstcode, maxcode, firstsymbol
      ensures ok <==> Below(lens, i) <= 0x1_0000
      ensures ok ==> LengthsBelow(lens, i + 1, nextCode)
      ensures ok ==> code == NextCode(lens, i + 1) && k == Before(lens, i + 1)
    {
      hide NextCode, Before, Below, Count, Shl;
      LengthRound(lens, i);
      nextCode[i] := code0;
      firstcode[i] := code0;
      firstsymbol[i] := k0;
      code := code0 + count;
      if count > 0 && code - 1 >= Pow2(i) {
        return false, code, k0;
      }
      maxcode[i] := Shl(code, 16 - i);
      return true, 2 * code, k0 + count;
    }

    /** The loop over lengths: first codes, thresholds, symbol offsets; fails on oversubscribed lengths. */
    method BuildLengths(lens: seq<nat>, sizes: array<nat>, nextCode: array<nat>) returns (ok: bool)
      requires Valid() && sizes.Length == 17 && nextCode.Length == 16 && sizes != nextCode
      requires nextCode !in Arrays() && sizes !in Arrays()
      requires IsLengths(lens) && forall len :: 1 <= len <= 15 ==> sizes[len] == Count(lens, len)
      modifies nextCode, firstcode, maxcode, firstsymbol
      ensures ok <==> NotOversubscribed(lens)
      ensures ok ==> LengthsBuilt(lens) && forall len :: 1 <= len <= 15 ==> nextCode[len] == NextCode(lens, len)
    {
      NoSixteen(lens);
      var code, k := 0, 0;
      for i := 1 to 16
        invariant code == NextCode(lens, i) && k == Before(lens, i)
        invariant Below(lens, i - 1) <= 0x1_0000 && LengthsBelow(lens, i, nextCode)
        invariant forall len :: 1 <= len <= 15 ==> sizes[len] == Count(lens, len)
      {
        ok, code, k := BuildLength(lens, i, sizes[i], nextCode, code, k);
        if !ok {
          BelowMono(lens, i, 15);
          return;
        }
      }
      maxcode[16] := 0x1_0000;
      return true;
    }

    /** The loop that spreads one fast entry over all indices with the right low bits. */
    method SpreadFast(first: nat, s: nat, fastv: nat)
      requires Valid() && s <= 9 && first < Pow2(s)
      modifies fast
      ensures forall j :: 0 <= j < 512 ==> fast[j] == if Low(j, s) == first then fastv else old(fast[j])
    {
      var j := first;
      ghost var m := 0;
      ShlZero(s);
      while j < 512
        invariant j == Shl(m, s) + first
        invariant forall q :: 0 <= q < 512 ==>
          fast[q] == if Low(q, s) == first && Shr(q, s) < m then fastv else old(fast[q])
        decreases 512 - j
      {
        Join(m, first, s);
        fast[j] := fastv;
        forall q | 0 <= q < 512 ensures q == j <==> Low(q, s) == first && Shr(q, s) == m {
          Split(q, s);
        }
        ShlNext(m, s);
        j := j + Pow2(s);
        m := m + 1;
      }
      forall q | 0 <= q < 512 && Low(q, s) == first ensures Shr(q, s) < m {
        Split(q, s);
        if Shr(q, s) >= m {
          ShlMono(m, Shr(q, s), s);
        }
      }
    }

    /** The round of the last loop for one used symbol. */
    method PlaceSymbol(lens: seq<nat>, i: nat, code: nat)
      requires Valid() && |lens| <= 288 && IsLengths(lens) && NotOversubscribed(lens) && LengthsBuilt(lens)
      requires i < |lens| && lens[i] > 0 && code == SymbolCode(lens, i) && SymbolsBuilt(lens, i)
      modifies size, value, fast
      ensures LengthsBuilt(lens) && SymbolsBuilt(lens, i + 1)
    {
      hide Before, Rank, NextCode, Below, NotOversubscribed, FastValue, Rev, BitReverse, Low;
      var s := lens[i];
      var c := code - firstcode[s] + firstsymbol[s];
      SortedIndexBound(lens, i);
      forall k | 0 <= k < i && lens[k] > 0 ensures SortedIndex(lens, k) != SortedIndex(lens, i) {
        SortedIndexUnique(lens, k, i);
      }
      size[c] := s;
      value[c] := i;
      if s <= 9 {
        CodeFitsLength(lens, i);
        BitReverseIsRev(code, s);
        RevBound(code, s);
        SpreadFast(BitReverse(code, s), s, FastValue(s, i));
      }
    }

    /** The last loop: hand out the codes of each length in symbol order. */
    method PlaceSymbols(sizelist: seq<nat>, nextCode: array<nat>)
      requires Valid() && |sizelist| <= 288 && IsLengths(sizelist) && NotOversubscribed(sizelist)
      requires nextCode.Length == 16 && nextCode !in Arrays()
      requires LengthsBuilt(sizelist) && SymbolsBuilt(sizelist, 0)
      requires forall len :: 1 <= len <= 15 ==> nextCode[len] == NextCode(sizelist, len)
      modifies nextCode, size, value, fast
      ensures Built(sizelist)
    {
      hide Before, Below, NotOversubscribed, FastValue, SortedIndex, LengthsBuilt;
      for i := 0 to |sizelist|
        invariant LengthsBuilt(sizelist) && SymbolsBuilt(sizelist, i)
        invariant forall len :: 1 <= len <= 15 ==> nextCode[len] == NextCode(sizelist, len) + Count(sizelist[..i], len)
      {
        forall len { CountSnoc(sizelist, i, len); }
        var s := sizelist[i];
        if s > 0 {
          PlaceSymbol(sizelist, i, nextCode[s]);
          nextCode[s] := nextCode[s] + 1;
        } else {
          UnusedSymbol(sizelist, i);
        }
      }
    }

    /** stbi__zbuild_huffman builds the tables, and fails exactly on oversubscribed lengths. */
    method Build(sizelist: seq<nat>) returns (ok: bool)
      requires Valid() && |sizelist| <= 288 && IsLengths(sizelist)
      modifies Arrays()
      ensures ok <==> NotOversubscribed(sizelist)
      ensures ok ==> Built(sizelist)
    {
      hide Count, Below, NotOversubscribed, LengthsBuilt, NextCode, SortedIndex, Pow2;
      for j := 0 to 512
        invariant forall q :: 0 <= q < j ==> fast[q] == 0
      {
        fast[j] := 0;
      }
      var sizes := CountSizes(sizelist);
      for i := 1 to 16
        invariant forall len :: 1 <= len < i ==> sizes[len] <= Pow2(len)
      {
        if sizes[i] > Pow2(i) {
          TooManyOfLength(sizelist, i);
          return false;
        }
      }
      var nextCode := new nat[16];
      ok := BuildLengths(sizelist, sizes, nextCode);
      if ok {
        PlaceSymbols(sizelist, nextCode);
      }
    }
  }
}
