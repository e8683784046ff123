/**
 The table that decodes a short AC coefficient in one lookup: run, value and combined
 length of the Huffman code and the value bits that follow it.
 */
module JpegFastAc {
  import opened Bits
  import opened BitSequence
  import opened BitStream
  import opened CanonicalCodes
  import opened JpegCodes
  import opened JpegHuffman

  /** EXTEND of section F.2.2.1 of ITU-T T.81: `t` value bits as a signed number. */
  function Extend(v: nat, t: nat): int {
    if t > 0 && v < Pow2(t - 1) then v - (Pow2(t) - 1) else v
  }

  /** Entry `w` of the table; zero if the nine bits do not hold a code with its value. */
  function FastAc(sizes: seq<nat>, values: seq<nat>, w: nat): int
    requires |sizes| <= |values|
  {
    var f := FastEntry(sizes, w, |sizes|);
    if f == 255 then 0
    else
      var rs, len := values[f], sizes[f];
      if rs % 16 == 0 || len + rs % 16 > 9 then 0
      else PackAc(Extend(Shr(Low(Shl(w, len), 9), 9 - rs % 16), rs % 16), rs / 16 % 16, len + rs % 16)
  }

  /** Value, run and length in one signed 16-bit word, if the value fits eight bits. */
  function PackAc(k: int, run: nat, total: nat): int {
    if -128 <= k <= 127 then k * 256 + run * 16 + total else 0
  }

  lemma {:induction false} PackedFields(k: int, run: nat, total: nat)
    requires run < 16 && 0 < total < 16 && PackAc(k, run, total) != 0
    ensures var r := PackAc(k, run, total);
      -0x8000 <= r < 0x8000 && r / 256 == k && r / 16 % 16 == run && r % 16 == total
  {
    var r := PackAc(k, run, total);
    assert r / 16 == k * 16 + run;
  }

  /** In nine bits, what follows a code of length `len` are the next bits of the input. */
  lemma {:induction false} BitsAfterCode(data: seq<byte>, pos: nat, len: nat, t: nat)
    requires len + t <= 9
    ensures Shr(Low(Shl(Msb(data, pos, 9), len), 9), 9 - t) == Msb(data, pos + len, t)
  {
    hide Msb, Shl, Shr, Low;
    var lo, rest := Msb(data, pos + len, 9 - len), 9 - len - t;
    assert len + (9 - len) == 9;
    MsbSplit(data, pos, len, 9 - len);
    MsbBound(data, pos + len, 9 - len);
    DropTop(Msb(data, pos, len), lo, 9 - len, len);
    assert (9 - len) + len == 9;
    ShrShr(Shl(lo, len), len, rest);
    ShrOfShl(lo, len);
    MsbPrefix(data, pos + len, t, rest);
    assert len + rest == 9 - t && t + rest == 9 - len;
  }

  /** A nonzero entry is the run, the extended value and the length of code and value together. */
  lemma {:induction false} FastAcAgrees(sizes: seq<nat>, values: seq<nat>, data: seq<byte>, pos: nat)
    requires IsSizeList(sizes) && |sizes| <= |values| == 256 && forall i :: 0 <= i < 256 ==> values[i] < 256
    requires FastAc(sizes, values, Msb(data, pos, 9)) != 0
    ensures var r, found := FastAc(sizes, values, Msb(data, pos, 9)), Canonical(sizes, Msb(data, pos, 16));
      && found.Symbol? && found.id < |sizes| <= 256 && found == Lookup(sizes, Msb(data, pos, 16))
      && var rs, t := values[found.id], values[found.id] % 16;
         && t > 0 && r / 16 % 16 == rs / 16 && r % 16 == found.length + t
         && r / 256 == Extend(Msb(data, pos + found.length, t), t)
  {
    hide Extend, Shr, Shl, Low, Msb, SymbolCode, FastEntry;
    var w, window := Msb(data, pos, 9), Msb(data, pos, 16);
    assert 9 + 7 == 16;
    MsbPrefix(data, pos, 9, 7);
    var f := FastEntry(sizes, w, |sizes|);
    FastHitIsMatch(sizes, f, window);
    CanonicalIs(sizes, window, f);
    BitsAfterCode(data, pos, sizes[f], values[f] % 16);
    PackedFields(Extend(Msb(data, pos + sizes[f], values[f] % 16), values[f] % 16), values[f] / 16 % 16,
                 sizes[f] + values[f] % 16);
  }

  /** stbi__build_fast_ac. */
  method BuildFastAc(fast_ac: array<int>, h: JHuffman, ghost sizes: seq<nat>)
    requires h.Built(sizes) && fast_ac.Length == 512 && fast_ac != h.delta
    modifies fast_ac
    ensures forall w :: 0 <= w < 512 ==> fast_ac[w] == FastAc(sizes, h.values[..], w)
    ensures h.Built(sizes)
  {
    hide FastEntry, NotOversubscribed, NextCode, Below, Before, Shl, Shr, Low, FastHit, SymbolCode;
    ghost var values := h.values[..];
    for i := 0 to 512
      invariant h.Built(sizes) && h.values[..] == values
      invariant forall w :: 0 <= w < i ==> fast_ac[w] == FastAc(sizes, values, w)
    {
      var fast := h.fast[i];
      fast_ac[i] := 0;
      if fast < 255 {
        var rs := h.values[fast];
        var run, magbits, len := rs / 16 % 16, rs % 16, h.size[fast];
        if magbits > 0 && len + magbits <= 9 {
          var k: int := Shr(Low(Shl(i, len), 9), 9 - magbits);
          var m := Pow2(magbits - 1);
          if k < m {
            k := k - Pow2(magbits) + 1;
          }
          if -128 <= k <= 127 {
            fast_ac[i] := k * 256 + run * 16 + (len + magbits);
          }
        }
      }
    }
  }
}
