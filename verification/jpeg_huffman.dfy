/** Building stb's JPEG Huffman tables. */
module JpegHuffman {
  import opened Bits
  import opened Counts = HuffmanCodes
  import opened CanonicalCodes
  import opened JpegCodes

  lemma {:induction false} SizeListGrows(counts: seq<nat>, n: nat, m: nat)
    requires n <= m <= |counts|
    ensures |SizeList(counts, n)| <= |SizeList(counts, m)|
    decreases m
  {
    if n < m {
      SizeListGrows(counts, n, m - 1);
    }
  }

  /** The table indices that start with a code form one range. */
  lemma {:induction false} FastRange(code: nat, s: nat, w: nat)
    requires s <= 9 && code < Pow2(s)
    ensures Shl(code, 9 - s) + Pow2(9 - s) <= 512
    ensures Shl(code, 9 - s) <= w < Shl(code, 9 - s) + Pow2(9 - s) <==> Shr(w, 9 - s) == code
  {
    hide Shl, Shr, Low;
    var k := 9 - s;
    Pow2Split(s, k);
    assert Pow2(9) == 512;
    ShlMono(code, Pow2(s), k);
    Split(w, k);
    if Shl(code, k) <= w < Shl(code, k) + Pow2(k) {
      Join(code, w - Shl(code, k), k);
    }
  }

  /** Positions and codes of one length, in step. */
  lemma {:induction false} CodeAt(sizes: seq<nat>, i: nat, len: nat)
    requires IsSizeList(sizes) && i <= |sizes| && 1 <= len && Before(sizes, len) <= i
    ensures i < |sizes| && sizes[i] == len ==> SymbolCode(sizes, i) == NextCode(sizes, len) + (i - Before(sizes, len))
    ensures i < |sizes| ==> (sizes[i] == len <==> i < Before(sizes, len + 1))
    ensures Before(sizes, len + 1) <= |sizes|
  {
    BeforeBound(sizes, len + 1);
    if i < |sizes| {
      LengthAt(sizes, i, len);
      SortedPosition(sizes, i);
    }
  }

  class JHuffman {
    const fast: array<nat>
    const code: array<nat>
    const values: array<nat>
    const size: array<nat>
    const maxcode: array<nat>
    const delta: array<int>

    ghost predicate Valid()
      reads this
    {
      && fast.Length == 512 && code.Length == values.Length == 256
      && size.Length == 257 && maxcode.Length == 18 && delta.Length == 17
      && fast != code && fast != values && fast != size && fast != maxcode && code != values && code != size
      && code != maxcode && values != size && values != maxcode && size != maxcode
    }

    ghost function Arrays(): set<object>
      reads this
    {
      {fast as object, code, size, maxcode, delta}
    }

    constructor ()
      ensures Valid() && fresh(Arrays()) && fresh(values)
    {
      fast := new nat[512];
      code := new nat[256];
      values := new nat[256];
      size := new nat[257];
      maxcode := new nat[18];
      delta := new int[17];
    }

    /** The size table is the size list, closed by a zero. */
    ghost predicate SizesBuilt(sizes: seq<nat>)
      reads this, size
      requires Valid()
    {
      && |sizes| <= 256 && size[|sizes|] == 0
      && forall i :: 0 <= i < |sizes| ==> size[i] == sizes[i]
    }

    ghost predicate CodesBuilt(sizes: seq<nat>, n: nat)
      reads this, code
      requires Valid() && n <= |sizes| <= 256
    {
      forall i :: 0 <= i < n ==> code[i] == SymbolCode(sizes, i)
    }

    ghost predicate LengthsBuilt(sizes: seq<nat>, n: nat)
      reads this, maxcode, delta
      requires Valid() && n <= 17
    {
      && (forall j :: 1 <= j < n ==> maxcode[j] == Below(sizes, j))
      && (forall j :: 1 <= j < n ==> delta[j] == Before(sizes, j) - NextCode(sizes, j))
    }

    ghost predicate FastBuilt(sizes: seq<nat>, n: nat)
      reads this, fast
      requires Valid() && n <= |sizes|
    {
      forall w :: 0 <= w < 512 ==> fast[w] == FastEntry(sizes, w, n)
    }

    /** All tables are those of the size list. */
    ghost predicate Built(sizes: seq<nat>)
      reads this, Arrays()
    {
      && Valid() && IsSizeList(sizes) && NotOversubscribed(sizes) && SizesBuilt(sizes)
      && LengthsBuilt(sizes, 17) && maxcode[17] == 0xffff_ffff && FastBuilt(sizes, |sizes|)
    }

    /** The first loops: the size list; it may hold at most 256 codes. */
    method BuildSizes(counts: seq<nat>) returns (ok: bool, k: nat)
      requires Valid() && |counts| == 16
      modifies size
      ensures ok <==> |SizeList(counts, 16)| <= 256
      ensures ok ==> k == |SizeList(counts, 16)| && SizesBuilt(SizeList(counts, 16))
    {
      k := 0;
      for i := 0 to 16
        invariant k == |SizeList(counts, i)| <= 256
        invariant forall q :: 0 <= q < k ==> size[q] == SizeList(counts, i)[q]
      {
        SizeListGrows(counts, i + 1, 16);
        RepeatIs(i + 1, counts[i]);
        for j := 0 to counts[i]
          invariant k == |SizeList(counts, i)| + j <= 256
          invariant forall q :: 0 <= q < k ==> size[q] == SizeList(counts, i + 1)[q]
        {
          assert SizeList(counts, i + 1)[k] == i + 1;
          size[k] := i + 1;
          k := k + 1;
          if k >= 257 {
            return false, k;
          }
        }
      }
      size[k] := 0;
      return true, k;
    }

    /** The codes of one length, one after the other. */
    method AssignRun(ghost sizes: seq<nat>, j: nat, k0: nat, code0: nat) returns (k: nat, c: nat)
      requires Valid() && IsSizeList(sizes) && SizesBuilt(sizes) && 1 <= j <= 16
      requires k0 == Before(sizes, j) <= |sizes| && Before(sizes, j + 1) == k0 + Count(sizes, j)
      modifies code
      ensures k == Before(sizes, j + 1) <= |sizes| && c == code0 + (k - k0)
      ensures forall i :: 0 <= i < k0 ==> code[i] == old(code[i])
      ensures forall i :: k0 <= i < k ==> code[i] == Low(code0 + (i - k0), 16)
    {
      hide Before, NextCode, Below, Count, Shl, SymbolCode;
      k, c := k0, code0;
      CodeAt(sizes, k, j);
      while size[k] == j
        invariant k0 <= k <= |sizes| && c == code0 + (k - k0) && k <= Before(sizes, j + 1)
        invariant SizesBuilt(sizes) && forall i :: 0 <= i < k0 ==> code[i] == old(code[i])
        invariant forall i :: k0 <= i < k ==> code[i] == Low(code0 + (i - k0), 16)
        decreases |sizes| - k
      {
        CodeAt(sizes, k, j);
        code[k] := Low(c, 16);
        k, c := k + 1, c + 1;
      }
      CodeAt(sizes, k, j);
    }

    /** One round of the loop over lengths; fails if the codes of this length do not fit. */
    method AssignLength(ghost sizes: seq<nat>, j: nat, k0: nat, code0: nat) returns (ok: bool, k: nat, c: nat)
      requires Valid() && IsSizeList(sizes) && SizesBuilt(sizes) && 1 <= j <= 16
      requires k0 == Before(sizes, j) <= |sizes| && code0 == NextCode(sizes, j) && Below(sizes, j - 1) <= 0x1_0000
      requires CodesBuilt(sizes, k0) && LengthsBuilt(sizes, j)
      modifies code, maxcode, delta
      ensures ok <==> Below(sizes, j) <= 0x1_0000
      ensures ok ==> k == Before(sizes, j + 1) <= |sizes| && c == NextCode(sizes, j + 1)
      ensures ok ==> CodesBuilt(sizes, k) && LengthsBuilt(sizes, j + 1)
    {
      hide Before, NextCode, Below, Count, Shl, SymbolCode;
      LengthRound(sizes, j);
      k, c := k0, code0;
      delta[j] := k - c;
      CodeAt(sizes, k, j);
      if size[k] == j {
        k, c := AssignRun(sizes, j, k0, code0);
        if c - 1 >= Pow2(j) {
          return false, k, c;
        }
        Pow2Mono(j, 16);
        Pow2Consts();
        forall i | k0 <= i < k ensures code[i] == SymbolCode(sizes, i) {
          CodeAt(sizes, i, j);
          LowSmall(code0 + (i - k0), 16);
        }
      }
      maxcode[j] := Shl(c, 16 - j);
      return true, k, 2 * c;
    }

    /** The loop over lengths: codes and thresholds. */
    method AssignCodes(ghost sizes: seq<nat>) returns (ok: bool, k: nat)
      requires Valid() && IsSizeList(sizes) && SizesBuilt(sizes)
      modifies code, maxcode, delta
      ensures ok <==> NotOversubscribed(sizes)
      ensures ok ==> k == |sizes| && CodesBuilt(sizes, k) && LengthsBuilt(sizes, 17) && maxcode[17] == 0xffff_ffff
    {
      var c := 0;
      k := 0;
      for j := 1 to 17
        invariant k == Before(sizes, j) <= |sizes| && c == NextCode(sizes, j) && Below(sizes, j - 1) <= 0x1_0000
        invariant CodesBuilt(sizes, k) && LengthsBuilt(sizes, j) && SizesBuilt(sizes)
      {
        ok, k, c := AssignLength(sizes, j, k, c);
        if !ok {
          BelowMono(sizes, j, 16);
          return;
        }
      }
      AllBefore(sizes, 16);
      maxcode[17] := 0xffff_ffff;
      return true, k;
    }

    /** The inner loop of the last part: mark all nine-bit values that start with a code. */
    method SpreadFast(i: nat, c: nat, s: nat)
      requires Valid() && 0 < s <= 9 && c < Pow2(s)
      modifies fast
      ensures forall w :: 0 <= w < 512 ==> fast[w] == if Shr(w, 9 - s) == c then i else old(fast[w])
    {
      hide Shr, Shl;
      FastRange(c, s, 0);
      ghost var rest := 9 - s;
      var first, m := Shl(c, 9 - s), Pow2(9 - s);
      for j := 0 to m
        invariant forall w :: 0 <= w < 512 ==> fast[w] == if first <= w < first + j then i else old(fast[w])
      {
        fast[first + j] := i;
      }
      forall w | 0 <= w < 512 ensures first <= w < first + m <==> Shr(w, rest) == c {
        FastRange(c, s, w);
      }
    }

    /** The acceleration table; 255 is kept as the flag for other codes. */
    method BuildFast(ghost sizes: seq<nat>, k: nat)
      requires Valid() && k == |sizes| && IsSizeList(sizes) && NotOversubscribed(sizes) && SizesBuilt(sizes)
      requires CodesBuilt(sizes, |sizes|)
      modifies fast
      ensures FastBuilt(sizes, |sizes|)
    {
      hide SymbolCode, Shr;
      for w := 0 to 512
        invariant forall q :: 0 <= q < w ==> fast[q] == 255
      {
        fast[w] := 255;
      }
      for i := 0 to k
        invariant FastBuilt(sizes, i)
      {
        var s := size[i];
        if s <= 9 {
          CodeFitsLength(sizes, i);
          SpreadFast(i, code[i], s);
        }
      }
    }

    /** stbi__build_huffman fails exactly on more than 256 codes or on oversubscribed lengths. */
    method Build(counts: seq<nat>) returns (ok: bool)
      requires Valid() && |counts| == 16
      modifies Arrays()
      ensures ok <==> |SizeList(counts, 16)| <= 256 && NotOversubscribed(SizeList(counts, 16))
      ensures ok ==> Built(SizeList(counts, 16))
    {
      hide SizeList, NotOversubscribed, FastEntry;
      var k;
      ok, k := BuildSizes(counts);
      if ok {
        SizeListSorted(counts, 16);
        ghost var sizes := SizeList(counts, 16);
        ok, k := AssignCodes(sizes);
        if ok {
          BuildFast(sizes, k);
        }
      }
    }
  }
}
