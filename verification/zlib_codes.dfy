/** The dynamic codes of a Deflate block (section 3.2.7 of RFC 1951): code lengths, themselves Huffman-coded. */
module ZlibCodes {
  import opened Bits
  import opened BitSequence
  import opened Counts = HuffmanCodes
  import opened CanonicalCodes
  import opened DeflateCodes
  import opened ZlibHuffman
  import opened ZlibReader

  // ----- what the header means

  /** The order in which the lengths of the code length code come. */
  function Dezigzag(i: nat): (r: nat)
    requires i < 19
    ensures r < 19
  {
    if i < 10 then [16, 17, 18, 0, 8, 7, 9, 6, 10, 5][i] else [11, 4, 12, 3, 13, 2, 14, 1, 15][i - 10]
  }

  /** The lengths of the code length code after the first `n` of them; the others are zero. */
  function CodeLengthSizes(data: seq<byte>, pos: nat, n: nat): (s: seq<nat>)
    requires n <= 19
    ensures |s| == 19
  {
    if n == 0 then seq(19, _ => 0)
    else CodeLengthSizes(data, pos, n - 1)[Dezigzag(n - 1) := Lsb(data, pos + 3 * (n - 1), 3)]
  }

  /** Symbols 16, 17 and 18 repeat a length; so many extra bits give the count, on top of the base. */
  function RepeatBits(c: nat): nat {
    if c == 16 then 2 else if c == 17 then 3 else 7
  }

  function RepeatBase(c: nat): nat {
    if c == 18 then 11 else 3
  }

  datatype Lengths = Got(pos: nat, lens: seq<nat>) | Bad

  /** One symbol of the code length code. */
  ghost function LengthStep(cl: seq<nat>, data: seq<byte>, pos: nat, lens: seq<nat>, ntot: nat): Lengths {
    var c := NextSymbol(cl, data, pos);
    if c < 0 || c >= |cl| || c >= 19 then Bad
    else
      var p := pos + cl[c];
      if c < 16 then Got(p, lens + [c])
      else if c == 16 && lens == [] then Bad
      else
        var n := RepeatBase(c) + Lsb(data, p, RepeatBits(c));
        var fill := if c == 16 then lens[|lens| - 1] else 0;
        if |lens| + n > ntot then Bad else Got(p + RepeatBits(c), lens + Repeat(fill, n))
  }

  /** All lengths, from the ones that are there. */
  ghost function LengthsFrom(cl: seq<nat>, data: seq<byte>, pos: nat, lens: seq<nat>, ntot: nat): (r: Lengths)
    ensures r.Got? ==> r.pos >= pos
    decreases ntot - |lens|
  {
    if |lens| >= ntot then Got(pos, lens)
    else
      match LengthStep(cl, data, pos, lens, ntot)
      case Bad => Bad
      case Got(p, l) => if |l| > |lens| && p >= pos then LengthsFrom(cl, data, p, l, ntot) else Bad
  }

  datatype Codes = Codes(pos: nat, ll: seq<nat>, dl: seq<nat>) | NoCodes

  /** The two codes whose description starts at bit `pos`. */
  ghost function CodesAt(data: seq<byte>, pos: nat): (r: Codes)
    ensures r.Codes? ==> r.pos >= pos
  {
    var hlit, hdist, hclen := Lsb(data, pos, 5) + 257, Lsb(data, pos + 5, 5) + 1, Lsb(data, pos + 10, 4) + 4;
    if hclen > 19 then NoCodes
    else
      var cl := CodeLengthSizes(data, pos + 14, hclen);
      if !NotOversubscribed(cl) then NoCodes
      else
        match LengthsFrom(cl, data, pos + 14 + 3 * hclen, [], hlit + hdist)
        case Bad => NoCodes
        case Got(p, lens) =>
          if |lens| != hlit + hdist || !NotOversubscribed(lens[..hlit]) || !NotOversubscribed(lens[hlit..]) then NoCodes
          else Codes(p, lens[..hlit], lens[hlit..])
  }

  // ----- reading it

  lemma {:induction false} ThreeBits(data: seq<byte>, pos: nat, n: nat)
    requires n <= 19
    ensures forall i :: 0 <= i < 19 ==> CodeLengthSizes(data, pos, n)[i] <= 7
  {
    if n > 0 {
      ThreeBits(data, pos, n - 1);
      LsbBound(data, pos + 3 * (n - 1), 3);
      assert Pow2(3) == 8;
    }
  }

  /** The lengths of the code length code. */
  method ReadCodeLengthSizes(a: ZBuf, hclen: nat) returns (sizes: seq<nat>)
    requires a.Valid() && hclen <= 19
    modifies a
    ensures a.Valid() && a.Limit() >= old(a.Limit()) && a.pos == old(a.pos) + 3 * hclen
    ensures sizes == CodeLengthSizes(a.data, old(a.pos), hclen)
  {
    hide Lsb, Dezigzag;
    var codelength_sizes := new nat[19](_ => 0);
    ghost var pos := a.pos;
    for i := 0 to hclen
      invariant a.Valid() && a.Limit() >= old(a.Limit()) && a.pos == pos + 3 * i
      invariant codelength_sizes[..] == CodeLengthSizes(a.data, pos, i)
    {
      var s := a.Receive(3);
      codelength_sizes[Dezigzag(i)] := s;
    }
    sizes := codelength_sizes[..];
  }

  /** memset of `c` lengths. */
  method FillLengths(lencodes: array<nat>, n: nat, fill: nat, c: nat)
    requires n + c <= lencodes.Length
    modifies lencodes
    ensures lencodes[..n + c] == old(lencodes[..n]) + Repeat(fill, c)
  {
    ghost var before := lencodes[..n];
    for i := 0 to c
      invariant lencodes[..n] == before && forall j :: n <= j < n + i ==> lencodes[j] == fill
    {
      lencodes[n + i] := fill;
    }
    RepeatIs(fill, c);
  }

  /** One round of the loop over the code lengths. */
  method ReadLength(a: ZBuf, z: ZHuffman, lencodes: array<nat>, n: nat, ntot: nat, ghost cl: seq<nat>)
    returns (ok: bool, n': nat)
    requires a.Valid() && z.Built(cl) && |cl| == 19 && n < ntot <= 320 && lencodes.Length == 455
    requires lencodes !in z.Arrays()
    modifies a, lencodes
    ensures z.Built(cl)
    ensures var r := LengthStep(cl, a.data, old(a.pos), old(lencodes[..n]), ntot);
      && (ok ==> a.Valid() && n < n' <= ntot && r == Got(a.pos, lencodes[..n']))
      && (!ok ==> r.Bad? || old(a.pos) > a.Limit())
    ensures a.Limit() >= old(a.Limit())
  {
    hide Lsb, NextSymbol, ZHuffman.Built, Repeat;
    ghost var before := lencodes[..n];
    var c := a.Decode(z, cl);
    if c < 0 || c >= 19 {
      return false, n;
    }
    if c < 16 {
      lencodes[n] := c;
      n' := n + 1;
      assert lencodes[..n'] == before + [c];
      return true, n';
    }
    var fill := 0;
    var count := a.Receive(RepeatBits(c));
    if c == 16 {
      if n == 0 {
        return false, n;
      }
      fill := lencodes[n - 1];
    }
    var r := count + RepeatBase(c);
    if ntot - n < r {
      return false, n;
    }
    FillLengths(lencodes, n, fill, r);
    return true, n + r;
  }

  lemma {:induction false} StepAdds(cl: seq<nat>, data: seq<byte>, pos: nat, lens: seq<nat>, ntot: nat)
    ensures var r := LengthStep(cl, data, pos, lens, ntot); r.Got? ==> |r.lens| > |lens| && r.pos >= pos
  {}

  lemma {:induction false} LengthsUnfold(cl: seq<nat>, data: seq<byte>, pos: nat, lens: seq<nat>, ntot: nat)
    requires |lens| < ntot
    ensures var r := LengthStep(cl, data, pos, lens, ntot);
      LengthsFrom(cl, data, pos, lens, ntot) == if r.Bad? then Bad else LengthsFrom(cl, data, r.pos, r.lens, ntot)
  {
    StepAdds(cl, data, pos, lens, ntot);
  }

  lemma {:induction false} LengthsDone(cl: seq<nat>, data: seq<byte>, pos: nat, lens: seq<nat>, ntot: nat)
    requires |lens| == ntot
    ensures LengthsFrom(cl, data, pos, lens, ntot) == Got(pos, lens)
  {}

  /** The loop over the code lengths. */
  method ReadLengths(a: ZBuf, z: ZHuffman, lencodes: array<nat>, ntot: nat, ghost cl: seq<nat>) returns (ok: bool)
    requires a.Valid() && z.Built(cl) && |cl| == 19 && ntot <= 320 && lencodes.Length == 455 && lencodes !in z.Arrays()
    modifies a, lencodes
    ensures var r := LengthsFrom(cl, a.data, old(a.pos), [], ntot);
      && (ok ==> a.Valid() && r == Got(a.pos, lencodes[..ntot]))
      && (!ok ==> r.Bad? || r.pos > a.Limit())
    ensures a.Limit() >= old(a.Limit())
  {
    hide LengthStep, LengthsFrom, ZBuf.Valid, ZHuffman.Built;
    ghost var whole := LengthsFrom(cl, a.data, a.pos, [], ntot);
    var n := 0;
    assert lencodes[..0] == [];
    while n < ntot
      invariant n <= ntot && a.Valid() && a.Limit() >= old(a.Limit()) && z.Built(cl)
      invariant whole == LengthsFrom(cl, a.data, a.pos, lencodes[..n], ntot)
    {
      LengthsUnfold(cl, a.data, a.pos, lencodes[..n], ntot);
      ok, n := ReadLength(a, z, lencodes, n, ntot, cl);
      if !ok {
        return;
      }
    }
    LengthsDone(cl, a.data, a.pos, lencodes[..n], ntot);
    return true;
  }

  /** Code lengths never exceed 15. */
  lemma {:induction false} StepLengths(cl: seq<nat>, data: seq<byte>, pos: nat, lens: seq<nat>, ntot: nat)
    requires IsLengths(lens)
    ensures var r := LengthStep(cl, data, pos, lens, ntot); r.Got? ==> IsLengths(r.lens)
  {
    var c := NextSymbol(cl, data, pos);
    if 16 <= c < |cl| {
      var fill := if c == 16 && lens != [] then lens[|lens| - 1] else 0;
      RepeatIs(fill, RepeatBase(c) + Lsb(data, pos + cl[c], RepeatBits(c)));
    }
  }

  lemma {:induction false} LengthsAreLengths(cl: seq<nat>, data: seq<byte>, pos: nat, lens: seq<nat>, ntot: nat)
    requires IsLengths(lens)
    ensures var r := LengthsFrom(cl, data, pos, lens, ntot); r.Got? ==> IsLengths(r.lens)
    decreases ntot - |lens|
  {
    if |lens| < ntot {
      hide LengthStep;
      LengthsUnfold(cl, data, pos, lens, ntot);
      StepLengths(cl, data, pos, lens, ntot);
      StepAdds(cl, data, pos, lens, ntot);
      var r := LengthStep(cl, data, pos, lens, ntot);
      if r.Got? {
        LengthsAreLengths(cl, data, r.pos, r.lens, ntot);
      }
    }
  }

  /** The tables of both codes; fails exactly if one of them is oversubscribed. */
  method BuildBoth(zl: ZHuffman, zd: ZHuffman, lens: seq<nat>, hlit: nat) returns (ok: bool)
    requires zl.Valid() && zd.Valid() && zl.Arrays() !! zd.Arrays()
    requires hlit <= |lens| && hlit <= 288 && |lens| - hlit <= 288 && IsLengths(lens)
    modifies zl.Arrays(), zd.Arrays()
    ensures ok <==> NotOversubscribed(lens[..hlit]) && NotOversubscribed(lens[hlit..])
    ensures ok ==> zl.Built(lens[..hlit]) && zd.Built(lens[hlit..])
  {
    hide NotOversubscribed, ZHuffman.Built;
    ok := zl.Build(lens[..hlit]);
    if ok {
      ok := zd.Build(lens[hlit..]);
    }
  }

  /** The fixed part of the header and the code length code. */
  method ReadHeader(a: ZBuf) returns (ok: bool, hlit: nat, hdist: nat, z: ZHuffman, ghost cl: seq<nat>)
    requires a.Valid()
    modifies a
    ensures a.Valid() && a.Limit() >= old(a.Limit()) && fresh(z.Arrays()) && |cl| == 19 && (ok ==> z.Built(cl))
    ensures var data, pos := a.data, old(a.pos);
      var hclen := Lsb(data, pos + 10, 4) + 4;
      && hlit == Lsb(data, pos, 5) + 257 <= 288 && hdist == Lsb(data, pos + 5, 5) + 1 <= 32 && hclen <= 19
      && cl == CodeLengthSizes(data, pos + 14, hclen) && a.pos == pos + 14 + 3 * hclen
      && (ok <==> NotOversubscribed(cl))
  {
    hide Lsb, NotOversubscribed, CodeLengthSizes, ZBuf.Valid;
    ghost var pos := a.pos;
    HeaderBounds(a.data, pos);
    hlit := a.Receive(5);
    hlit := hlit + 257;
    hdist := a.Receive(5);
    hdist := hdist + 1;
    var hclen := a.Receive(4);
    hclen := hclen + 4;
    var codelength_sizes := ReadCodeLengthSizes(a, hclen);
    ThreeBits(a.data, pos + 14, hclen);
    cl := codelength_sizes;
    z := new ZHuffman();
    ok := z.Build(codelength_sizes);
  }

  /**
   stbi__compute_huffman_codes. Success means that the tables are those of the two codes described by the
   data; failure, that the data describe none, or not within the limit.
   */
  method ComputeHuffmanCodes(a: ZBuf, zl: ZHuffman, zd: ZHuffman)
    returns (ok: bool, ghost ll: seq<nat>, ghost dl: seq<nat>)
    requires a.Valid() && zl.Valid() && zd.Valid() && zl.Arrays() !! zd.Arrays()
    modifies a, zl.Arrays(), zd.Arrays()
    ensures var r := CodesAt(a.data, old(a.pos));
      && (ok ==> a.Valid() && zl.Built(ll) && zd.Built(dl) && r == Codes(a.pos, ll, dl))
      && (!ok ==> r.NoCodes? || r.pos > a.Limit())
    ensures a.Limit() >= old(a.Limit())
  {
    hide Lsb, LengthsFrom, NotOversubscribed, CodeLengthSizes, ZBuf.Valid, ZHuffman.Built;
    ll, dl := [], [];
    var hlit, hdist, z_codelength;
    ghost var cl;
    ok, hlit, hdist, z_codelength, cl := ReadHeader(a);
    if !ok {
      return;
    }
    var lencodes := new nat[455];
    var ntot := hlit + hdist;
    LengthsAreLengths(cl, a.data, a.pos, [], ntot);
    ok := ReadLengths(a, z_codelength, lencodes, ntot, cl);
    if !ok {
      return;
    }
    var lens := lencodes[..ntot];
    ll, dl := lens[..hlit], lens[hlit..];
    ok := BuildBoth(zl, zd, lens, hlit);
  }

  lemma {:induction false} HeaderBounds(data: seq<byte>, pos: nat)
    ensures Lsb(data, pos, 5) < 32 && Lsb(data, pos + 5, 5) < 32 && Lsb(data, pos + 10, 4) < 16
  {
    assert Pow2(5) == 32 && Pow2(4) == 16;
    LsbBound(data, pos, 5);
    LsbBound(data, pos + 5, 5);
    LsbBound(data, pos + 10, 4);
  }
}
