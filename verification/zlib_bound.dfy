/**
 How far a block can reach past the end of the data: past the end all bits are zeros, so every symbol is the same, and
 the description of two codes is short.
 */
module ZlibBound {
  import opened Bits
  import opened BitSequence
  import opened HuffmanCodes
  import opened DeflateCodes
  import opened ZlibReader
  import opened ZlibInflate
  import opened ZlibCodes

  // ----- past the end every symbol is the same

  lemma {:induction false} FirstBitsPastEnd(data: seq<byte>, pos: nat, n: nat)
    requires pos >= 8 * |data|
    ensures FirstBits(data, pos, n) == 0
  {
    if n > 0 {
      FirstBitsPastEnd(data, pos, n - 1);
      BitOfZero((pos + n - 1) % 8);
    }
  }

  lemma {:induction false} SameSymbolPastEnd(lens: seq<nat>, data: seq<byte>, p: nat, q: nat)
    requires p >= 8 * |data| && q >= 8 * |data|
    ensures NextSymbol(lens, data, p) == NextSymbol(lens, data, q)
  {
    hide FirstBits;
    forall i: nat ensures StartsWith(lens, i, data, p) <==> StartsWith(lens, i, data, q) {
      if i < |lens| {
        FirstBitsPastEnd(data, p, lens[i]);
        FirstBitsPastEnd(data, q, lens[i]);
      }
    }
    if i: nat :| StartsWith(lens, i, data, p) {
      NextSymbolIs(lens, data, p, i);
      NextSymbolIs(lens, data, q, i);
    }
  }

  // ----- how far a block runs past the end

  lemma {:induction false} ExtraBits(z: nat, d: nat)
    requires 257 <= z < 286 && d < 30
    ensures LengthExtra(z) <= 5 && DistExtra(d) <= 13
  {}

  /** One step takes at most 48 bits, and the end of a block at most 15. */
  lemma {:induction false} StepIsShort(ll: seq<nat>, dl: seq<nat>, data: seq<byte>, pos: nat, out: seq<byte>)
    requires IsLengths(ll) && IsLengths(dl)
    ensures var s := Step(ll, dl, data, pos, out);
      && (s.More? ==> s.pos <= pos + 48)
      && (s.Ended? <==> NextSymbol(ll, data, pos) == 256 < |ll|)
      && (s.Ended? ==> s.pos <= pos + 15)
  {
    hide LengthExtra, LengthBase, DistExtra, DistBase, Lsb, NextSymbol;
    var z := NextSymbol(ll, data, pos);
    if 257 <= z < 286 && z < |ll| {
      var d := NextSymbol(dl, data, pos + ll[z] + LengthExtra(z));
      if 0 <= d < 30 {
        ExtraBits(z, d);
      }
    }
  }

  /** Only the first symbol past the end can end a block: so no block that ends at all runs on for more than 62 bits. */
  lemma {:induction false} EndsNearEnd(ll: seq<nat>, dl: seq<nat>, data: seq<byte>, pos: nat, out: seq<byte>, p: nat,
                                       w: seq<byte>)
    requires IsLengths(ll) && IsLengths(dl) && Decodes(ll, dl, data, pos, out, p, w)
    ensures p <= pos + 15 || p <= 8 * |data| + 62
  {
    hide Step, NextSymbol;
    var n: nat :| Run(ll, dl, data, pos, out, n) == Ended(p, w);
    var k := FirstEnd(ll, dl, data, pos, out, n);
    var last := Run(ll, dl, data, pos, out, k);
    StepIsShort(ll, dl, data, last.pos, last.out);
    if k > 0 && last.pos >= 8 * |data| {
      var before := Run(ll, dl, data, pos, out, k - 1);
      StepIsShort(ll, dl, data, before.pos, before.out);
      if before.pos >= 8 * |data| {
        SameSymbolPastEnd(ll, data, before.pos, last.pos);
      }
    }
  }

  /** The step that ends the block. */
  lemma {:induction false} FirstEnd(ll: seq<nat>, dl: seq<nat>, data: seq<byte>, pos: nat, out: seq<byte>, n: nat)
    returns (k: nat)
    requires Run(ll, dl, data, pos, out, n).Ended?
    ensures var s := Run(ll, dl, data, pos, out, k);
      s.More? && Step(ll, dl, data, s.pos, s.out) == Run(ll, dl, data, pos, out, n)
    ensures k > 0 ==> var r := Run(ll, dl, data, pos, out, k - 1); r.More? && Step(ll, dl, data, r.pos, r.out).More?
  {
    hide Step;
    k := n - 1;
    if Run(ll, dl, data, pos, out, k).Ended? {
      k := FirstEnd(ll, dl, data, pos, out, k);
    }
  }

  // ----- how far the description of the codes runs

  /** Every length takes at most seven bits, repeats included. */
  lemma {:induction false} LengthIsShort(cl: seq<nat>, data: seq<byte>, pos: nat, lens: seq<nat>, ntot: nat)
    requires forall i :: 0 <= i < |cl| ==> cl[i] <= 7
    ensures var r := LengthStep(cl, data, pos, lens, ntot);
      r.Got? ==> |r.lens| <= ntot || |r.lens| == |lens| + 1
    ensures var r := LengthStep(cl, data, pos, lens, ntot);
      r.Got? ==> |r.lens| > |lens| && r.pos <= pos + 7 * (|r.lens| - |lens|)
  {
    hide Lsb, NextSymbol;
  }

  lemma {:induction false} LengthsAreShort(cl: seq<nat>, data: seq<byte>, pos: nat, lens: seq<nat>, ntot: nat)
    requires |lens| <= ntot && forall i :: 0 <= i < |cl| ==> cl[i] <= 7
    ensures var r := LengthsFrom(cl, data, pos, lens, ntot); r.Got? ==> r.pos <= pos + 7 * (ntot - |lens|)
    decreases ntot - |lens|
  {
    if |lens| < ntot {
      hide LengthStep;
      LengthsUnfold(cl, data, pos, lens, ntot);
      LengthIsShort(cl, data, pos, lens, ntot);
      var r := LengthStep(cl, data, pos, lens, ntot);
      if r.Got? {
        LengthsAreShort(cl, data, r.pos, r.lens, ntot);
      }
    }
  }

  /** The description of two codes takes at most 2311 bits, and their lengths are at most 15. */
  lemma {:induction false} CodesAreNear(data: seq<byte>, pos: nat)
    ensures var r := CodesAt(data, pos); r.Codes? ==> r.pos <= pos + 2311 && IsLengths(r.ll) && IsLengths(r.dl)
  {
    hide LengthsFrom, Lsb, CodeLengthSizes;
    HeaderBounds(data, pos);
    var hlit, hdist, hclen := Lsb(data, pos, 5) + 257, Lsb(data, pos + 5, 5) + 1, Lsb(data, pos + 10, 4) + 4;
    if hclen <= 19 {
      var cl := CodeLengthSizes(data, pos + 14, hclen);
      ThreeBits(data, pos + 14, hclen);
      LengthsAreShort(cl, data, pos + 14 + 3 * hclen, [], hlit + hdist);
      LengthsAreLengths(cl, data, pos + 14 + 3 * hclen, [], hlit + hdist);
    }
  }
}
