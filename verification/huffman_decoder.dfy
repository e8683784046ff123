/** The static Huffman decoder of libchdr: code assignment, lookup table, decoding. */
module HuffmanDecoder {
  import opened Bits
  import opened BitSequence
  import opened HuffmanCodes
  import opened BitStream

  datatype Error = None | InternalInconsistency

  /** MAKE_LOOKUP: symbol and length packed into a 16-bit table entry. */
  function MakeLookup(code: nat, bits: nat): nat {
    Low(Or(Shl(code, 5), And(bits, 31)), 16)
  }

  /** An entry gives back the length, and the symbol modulo 2^11. */
  lemma {:induction false} LookupFields(code: nat, bits: nat)
    requires bits < 32
    ensures Shr(MakeLookup(code, bits), 5) == Low(code, 11)
    ensures And(MakeLookup(code, bits), 31) == bits
  {
    hide Shl, Shr, Low, And, Or;
    assert Pow2(5) == 32;
    var entry := MakeLookup(code, bits);
    AndMask(bits, 5);
    LowSmall(bits, 5);
    OrDisjoint(bits, code, 5);
    LowOfJoin(code, bits, 5, 11);
    assert entry == Shl(Low(code, 11), 5) + bits;
    Join(Low(code, 11), bits, 5);
    AndMask(entry, 5);
  }

  /** Truncating a joined word truncates its high part. */
  lemma {:induction false} LowOfJoin(a: nat, r: nat, k: nat, n: nat)
    requires r < Pow2(k)
    ensures Low(Shl(a, k) + r, k + n) == Shl(Low(a, n), k) + r
  {
    if k > 0 {
      var x := Shl(a, k) + r;
      assert x / 2 == Shl(a, k - 1) + r / 2 && x % 2 == r % 2;
      assert k + n - 1 == (k - 1) + n;
      LowOfJoin(a, r / 2, k - 1, n);
    }
  }

  class HuffmanDecoder {
    const numcodes: nat
    const maxbits: nat
    const numbits: array<nat>      // huffnode[].numbits
    const bits: array<nat>         // huffnode[].bits
    const lookup: array<nat>

    ghost predicate Valid()
      reads this
    {
      && maxbits <= 24 && numcodes < 0x8000_0000
      && numbits.Length == bits.Length == numcodes && lookup.Length == Pow2(maxbits)
      && numbits != bits && numbits != lookup && bits != lookup
    }

    ghost function Lens(): seq<nat>
      reads numbits
    {
      numbits[..]
    }

    /** Every used symbol has its canonical code. */
    ghost predicate Assigned()
      reads this, numbits, bits
      requires Valid()
    {
      && Consistent(Lens(), maxbits)
      && forall i :: 0 <= i < numcodes && numbits[i] > 0 ==> bits[i] == Code(Lens(), i)
    }

    /** Every position in a symbol's slot holds that symbol's entry. */
    ghost predicate TableBuilt()
      reads this, numbits, lookup
      requires Valid()
    {
      && Consistent(Lens(), maxbits) && Kraft(Lens(), maxbits) <= Pow2(maxbits)
      && forall i, p {:trigger Covers(Lens(), maxbits, i, p)} ::
           0 <= p < lookup.Length && 0 <= i && Covers(Lens(), maxbits, i, p) ==>
           lookup[p] == MakeLookup(i, numbits[i])
    }

    constructor (numcodes: nat, maxbits: nat)
      requires maxbits <= 24 && numcodes < 0x8000_0000
      ensures Valid() && this.numcodes == numcodes && this.maxbits == maxbits
      ensures fresh(numbits) && fresh(bits) && fresh(lookup)
    {
      this.numcodes, this.maxbits := numcodes, maxbits;
      numbits := new nat[numcodes];
      bits := new nat[numcodes];
      lookup := new nat[Pow2(maxbits)];
    }

    /** First loop of huffman_assign_canonical_codes: a histogram of the lengths. */
    method CountLengths(bithisto: array<nat>) returns (error: Error)
      requires Valid() && bithisto.Length == 33
      requires bithisto != numbits && bithisto != bits && forall len :: 0 <= len < 33 ==> bithisto[len] == 0
      modifies bithisto
      ensures error == None <==> forall i :: 0 <= i < numcodes ==> Lens()[i] <= maxbits
      ensures error == None ==> forall len :: 0 <= len < 33 ==> bithisto[len] == Count(Lens(), len)
    {
      ghost var lens := Lens();
      for curcode := 0 to numcodes
        invariant Lens() == lens
        invariant forall i :: 0 <= i < curcode ==> lens[i] <= maxbits
        invariant forall len :: 0 <= len < 33 ==> bithisto[len] == Count(lens[..curcode], len)
      {
        if numbits[curcode] > maxbits {
          assert lens[curcode] > maxbits;
          return InternalInconsistency;
        }
        forall len { CountSnoc(lens, curcode, len); }
        bithisto[numbits[curcode]] := bithisto[numbits[curcode]] + 1;
      }
      assert lens[..numcodes] == lens;
      return None;
    }

    /** Second loop: from counts to first codes, longest length first. */
    method FirstCodes(bithisto: array<nat>) returns (error: Error)
      requires Valid() && bithisto.Length == 33 && bithisto != numbits && bithisto != bits
      requires forall len :: 0 <= len < 33 ==> bithisto[len] == Count(Lens(), len)
      modifies bithisto
      ensures error == None <==> forall len :: 2 <= len <= 32 ==> EvenUpTo(Lens(), len)
      ensures error == None ==> forall len :: 1 <= len < 33 ==> bithisto[len] == Start(Lens(), len)
    {
      hide Count, Start, EvenUpTo;
      ghost var lens := Lens();
      FirstStart(lens);
      var curstart := 0;
      var codelen := 32;
      while codelen > 0
        invariant codelen <= 32 && Lens() == lens
        invariant curstart == Start(lens, codelen)
        invariant forall len :: codelen < len < 33 ==> bithisto[len] == Start(lens, len)
        invariant forall len :: 0 <= len <= codelen ==> bithisto[len] == Count(lens, len)
        invariant forall len :: codelen < len <= 32 && len >= 2 ==> EvenUpTo(lens, len)
      {
        var total := curstart + bithisto[codelen];
        var nextstart := total / 2;
        HalfIsExact(total);
        StartStep(lens, codelen, total);
        if codelen != 1 && nextstart * 2 != total {
          return InternalInconsistency;
        }
        bithisto[codelen] := curstart;
        curstart := nextstart;
        codelen := codelen - 1;
      }
      return None;
    }

    /** Third loop: hand out the codes of each length in symbol order. */
    method HandOutCodes(bithisto: array<nat>)
      requires Valid() && bithisto.Length == 33 && bithisto != numbits && bithisto != bits
      requires Consistent(Lens(), maxbits)
      requires forall len :: 1 <= len < 33 ==> bithisto[len] == Start(Lens(), len)
      modifies bithisto, bits
      ensures Lens() == old(Lens()) && Assigned()
    {
      ghost var lens := Lens();
      for curcode := 0 to numcodes
        invariant Lens() == lens
        invariant forall len :: 1 <= len < 33 ==> bithisto[len] == Start(lens, len) + Count(lens[..curcode], len)
        invariant forall i :: 0 <= i < curcode && lens[i] > 0 ==> bits[i] == Code(lens, i)
      {
        forall len { CountSnoc(lens, curcode, len); }
        if numbits[curcode] > 0 {
          bits[curcode] := bithisto[numbits[curcode]];
          bithisto[numbits[curcode]] := bithisto[numbits[curcode]] + 1;
        }
      }
    }

    /** huffman_assign_canonical_codes succeeds exactly on consistent lengths. */
    method AssignCanonicalCodes() returns (error: Error)
      requires Valid()
      modifies bits
      ensures Lens() == old(Lens())
      ensures error == None <==> Consistent(Lens(), maxbits)
      ensures error == None ==> Assigned()
    {
      var bithisto := new nat[33](_ => 0);
      error := CountLengths(bithisto);
      if error != None {
        return;
      }
      error := FirstCodes(bithisto);
      if error != None {
        return;
      }
      HandOutCodes(bithisto);
    }

    /**
     huffman_build_lookup_table succeeds exactly when the Kraft sum is at most one. It then
     has filled every slot, and touched no position beyond the Kraft sum. Positions are
     32-bit: a slot far outside the table could wrap, but another one then starts right at its end.
     */
    method BuildLookupTable() returns (error: Error)
      requires Valid() && Assigned()
      modifies lookup
      ensures Lens() == old(Lens())
      ensures error == None <==> Kraft(Lens(), maxbits) <= Pow2(maxbits)
      ensures error == None ==> TableBuilt()
      ensures error == None ==>
        forall p :: Kraft(Lens(), maxbits) <= p < lookup.Length ==> lookup[p] == old(lookup[p])
    {
      ghost var lens, before := Lens(), lookup[..];
      assert |lens| == numcodes;
      for curcode := 0 to numcodes
        invariant Lens() == lens && Building(lens, maxbits, curcode, before, lookup[..])
      {
        ghost var previous := lookup[..];
        if numbits[curcode] > 0 {
          error := FillSymbol(curcode, lens);
          if error != None {
            FailureMeansOverfull(lens, maxbits, curcode);
            return;
          }
        }
        BuildingStep(lens, maxbits, curcode, before, previous, lookup[..]);
      }
      BuildingDone(lens, maxbits, before, lookup[..]);
      return None;
    }

    /**
     huffman_decode_one returns the symbol (modulo 2^11, the width a table entry has for it)
     whose code comes next in the stream, and consumes exactly that code.
     */
    method DecodeOne(bitbuf: BitStream) returns (symbol: nat)
      requires Valid() && TableBuilt() && bitbuf.Valid()
      requires Owner(Lens(), maxbits, Msb(bitbuf.read, bitbuf.Position(), maxbits)) < numcodes
      modifies bitbuf
      ensures bitbuf.Valid()
      ensures var i := Owner(Lens(), maxbits, Msb(bitbuf.read, old(bitbuf.Position()), maxbits));
        symbol == Low(i, 11) && bitbuf.Position() == old(bitbuf.Position()) + numbits[i]
    {
      var peeked := bitbuf.Peek(maxbits);
      ghost var i := Owner(Lens(), maxbits, peeked);
      OwnerCovers(Lens(), maxbits, peeked);
      MsbBound(bitbuf.read, bitbuf.Position(), maxbits);
      var entry := lookup[peeked];
      assert entry == MakeLookup(i, numbits[i]);
      LookupFields(i, numbits[i]);
      bitbuf.Remove(And(entry, 31));
      symbol := Shr(entry, 5);
    }

    /** One round of huffman_build_lookup_table. */
    method FillSymbol(curcode: nat, ghost lens: seq<nat>) returns (error: Error)
      requires Valid() && lens == Lens() && curcode < numcodes && 0 < lens[curcode] <= maxbits
      requires bits[curcode] == Code(lens, curcode)
      modifies lookup
      ensures error == None <==> PassesCheck(lens, maxbits, curcode)
      ensures error == None ==>
        SlotFilled(Code(lens, curcode), maxbits - lens[curcode], MakeLookup(curcode, lens[curcode]),
                   old(lookup[..]), lookup[..])
    {
      hide Shl, Low, Code, MakeLookup;
      var shift := maxbits - numbits[curcode];
      var dest := FirstSlot(bits[curcode], shift);
      var destend := LastSlot(bits[curcode], shift);
      if dest >= lookup.Length || destend >= lookup.Length || destend < dest {
        return InternalInconsistency;
      }
      FillSlots(dest, destend, MakeLookup(curcode, numbits[curcode]));
      return None;
    }

    /** The inner loop of huffman_build_lookup_table. */
    method FillSlots(dest: nat, destend: nat, value: nat)
      requires Valid() && dest <= destend < lookup.Length
      modifies lookup
      ensures forall p :: 0 <= p < lookup.Length ==>
        lookup[p] == if dest <= p <= destend then value else old(lookup[p])
    {
      for p := dest to destend + 1
        invariant forall q :: 0 <= q < lookup.Length ==>
          lookup[q] == if dest <= q < p then value else old(lookup[q])
      {
        lookup[p] := value;
      }
    }
  }

  lemma {:induction false} FirstStart(lens: seq<nat>)
    ensures Start(lens, 32) == 0
  {}

  lemma {:induction false} StartStep(lens: seq<nat>, len: nat, total: nat)
    requires 1 <= len <= 32 && total == Start(lens, len) + Count(lens, len)
    ensures Start(lens, len - 1) == total / 2
    ensures EvenUpTo(lens, len) <==> total % 2 == 0
  {}

  lemma {:induction false} HalfIsExact(x: nat)
    ensures x / 2 * 2 == x <==> x % 2 == 0
  {}

  /** The two slot bounds, in 32-bit arithmetic. */
  function FirstSlot(bits: nat, shift: nat): nat {
    Low(Shl(bits, shift), 32)
  }

  function LastSlot(bits: nat, shift: nat): nat {
    Low(Low(Shl(Low(bits + 1, 32), shift), 32) + 0xffff_ffff, 32)
  }

  predicate InBounds(bits: nat, shift: nat, length: nat) {
    FirstSlot(bits, shift) <= LastSlot(bits, shift) < length
  }

  /** The bounds check of huffman_build_lookup_table lets symbol `i` through. */
  predicate PassesCheck(lens: seq<nat>, maxbits: nat, i: nat)
    requires i < |lens| && lens[i] <= maxbits <= 24
  {
    InBounds(Code(lens, i), maxbits - lens[i], Pow2(maxbits))
  }

  /** The slot of one code was filled, the rest of the table kept. */
  ghost predicate SlotFilled(bits: nat, shift: nat, value: nat, before: seq<nat>, lookup: seq<nat>)
  {
    && |before| == |lookup|
    && forall p :: 0 <= p < |lookup| ==>
         lookup[p] == if FirstSlot(bits, shift) <= p <= LastSlot(bits, shift) then value else before[p]
  }

  /** The table after the first `n` symbols. */
  ghost predicate FilledFor(lens: seq<nat>, maxbits: nat, n: nat, before: seq<nat>, lookup: seq<nat>) {
    && |before| == |lookup|
    && (forall i, p {:trigger Covers(lens, maxbits, i, p)} ::
          0 <= i < n && 0 <= p < |lookup| && Covers(lens, maxbits, i, p) ==>
          lookup[p] == MakeLookup(i, lens[i]))
    && (forall p :: Kraft(lens, maxbits) <= p < |lookup| ==> lookup[p] == before[p])
  }

  /** Inside the table the 32-bit bounds are exact. */
  lemma {:induction false} SlotInWords(lens: seq<nat>, maxbits: nat, i: nat)
    requires Consistent(lens, maxbits) && maxbits <= 24 && i < |lens| && lens[i] > 0
    requires Kraft(lens, maxbits) <= Pow2(maxbits)
    ensures var k := maxbits - lens[i];
      && FirstSlot(Code(lens, i), k) == Shl(Code(lens, i), k)
      && LastSlot(Code(lens, i), k) == Shl(Code(lens, i), k) + Pow2(k) - 1
      && Shl(Code(lens, i), k) + Pow2(k) <= Kraft(lens, maxbits) <= Pow2(maxbits)
    ensures PassesCheck(lens, maxbits, i)
  {
    SlotsBelowKraft(lens, maxbits, i);
    TableBound(maxbits);
    NoWrap(Code(lens, i), maxbits - lens[i]);
  }

  lemma {:induction false} TableBound(maxbits: nat)
    requires maxbits <= 24
    ensures Pow2(maxbits) <= 0x100_0000
  {
    Pow2Mono(maxbits, 24);
    Pow2Consts();
  }

  lemma {:induction false} NoWrap(c: nat, shift: nat)
    requires Shl(c, shift) + Pow2(shift) <= 0x100_0000
    ensures FirstSlot(c, shift) == Shl(c, shift)
    ensures LastSlot(c, shift) == Shl(c, shift) + Pow2(shift) - 1
  {
    ShlGrows(c, shift);
    ShlNext(c, shift);
    SmallWord(c + 1);
    SmallWord(Shl(c, shift));
    SmallWord(Shl(c + 1, shift));
    WordMinusOne(Shl(c + 1, shift));
  }

  lemma {:induction false} WordMinusOne(x: nat)
    requires 0 < x < 0x1_0000_0000
    ensures Low(x + 0xffff_ffff, 32) == x - 1
  {
    Pow2Consts();
    ShlOne(32);
    Join(1, x - 1, 32);
  }

  /** If the Kraft sum exceeds one, some slot starts exactly at the end of the table. */
  lemma {:induction false} SlotAtEnd(lens: seq<nat>, maxbits: nat) returns (j: nat)
    requires Consistent(lens, maxbits) && maxbits <= 24 && Kraft(lens, maxbits) > Pow2(maxbits)
    ensures j < |lens| && 0 < lens[j] <= maxbits && !PassesCheck(lens, maxbits, j)
  {
    var n := Pow2(maxbits);
    j := SlotsTile(lens, maxbits, n);
    var k := maxbits - lens[j];
    Pow2Split(lens[j], k);
    ShrOfShl(Pow2(lens[j]), k);
    TableBound(maxbits);
    SmallWord(n);
  }

  /** The first `n` symbols got through. */
  predicate AllPass(lens: seq<nat>, maxbits: nat, n: nat)
    requires n <= |lens| && maxbits <= 24 && forall i :: 0 <= i < |lens| ==> lens[i] <= maxbits
  {
    n == 0 || (AllPass(lens, maxbits, n - 1) && (lens[n - 1] > 0 ==> PassesCheck(lens, maxbits, n - 1)))
  }

  lemma {:induction false} AllPassEach(lens: seq<nat>, maxbits: nat, n: nat, i: nat)
    requires n <= |lens| && maxbits <= 24 && forall i :: 0 <= i < |lens| ==> lens[i] <= maxbits
    requires AllPass(lens, maxbits, n) && i < n && lens[i] > 0
    ensures PassesCheck(lens, maxbits, i)
  {
    if i < n - 1 {
      AllPassEach(lens, maxbits, n - 1, i);
    }
  }

  /** The loop invariant of huffman_build_lookup_table. */
  ghost predicate Building(lens: seq<nat>, maxbits: nat, n: nat, before: seq<nat>, lookup: seq<nat>)
  {
    && n <= |lens| && maxbits <= 24 && (forall i :: 0 <= i < |lens| ==> lens[i] <= maxbits)
    && AllPass(lens, maxbits, n)
    && (Kraft(lens, maxbits) <= Pow2(maxbits) ==> FilledFor(lens, maxbits, n, before, lookup))
  }

  lemma {:induction false} BuildingStep(lens: seq<nat>, maxbits: nat, n: nat, before: seq<nat>, previous: seq<nat>,
                                        lookup: seq<nat>)
    requires Consistent(lens, maxbits) && n < |lens| && Building(lens, maxbits, n, before, previous)
    requires if lens[n] == 0 then lookup == previous
             else PassesCheck(lens, maxbits, n)
                  && SlotFilled(Code(lens, n), maxbits - lens[n], MakeLookup(n, lens[n]), previous, lookup)
    ensures Building(lens, maxbits, n + 1, before, lookup)
  {
    if Kraft(lens, maxbits) <= Pow2(maxbits) {
      FilledStep(lens, maxbits, n, before, previous, lookup);
    }
  }

  lemma {:induction false} FailureMeansOverfull(lens: seq<nat>, maxbits: nat, n: nat)
    requires Consistent(lens, maxbits) && maxbits <= 24 && n < |lens| && lens[n] > 0 && !PassesCheck(lens, maxbits, n)
    ensures Kraft(lens, maxbits) > Pow2(maxbits)
  {
    if Kraft(lens, maxbits) <= Pow2(maxbits) {
      SlotInWords(lens, maxbits, n);
    }
  }

  lemma {:induction false} BuildingDone(lens: seq<nat>, maxbits: nat, before: seq<nat>, lookup: seq<nat>)
    requires Consistent(lens, maxbits) && Building(lens, maxbits, |lens|, before, lookup)
    ensures Kraft(lens, maxbits) <= Pow2(maxbits) && FilledFor(lens, maxbits, |lens|, before, lookup)
  {
    if Kraft(lens, maxbits) > Pow2(maxbits) {
      var j := SlotAtEnd(lens, maxbits);
      AllPassEach(lens, maxbits, |lens|, j);
    }
  }

  lemma {:induction false} FilledStep(lens: seq<nat>, maxbits: nat, n: nat, before: seq<nat>, previous: seq<nat>,
                                      lookup: seq<nat>)
    requires Consistent(lens, maxbits) && maxbits <= 24 && n < |lens|
    requires Kraft(lens, maxbits) <= Pow2(maxbits) && FilledFor(lens, maxbits, n, before, previous)
    requires if lens[n] == 0 then lookup == previous
             else SlotFilled(Code(lens, n), maxbits - lens[n], MakeLookup(n, lens[n]), previous, lookup)
    ensures FilledFor(lens, maxbits, n + 1, before, lookup)
  {
    if lens[n] > 0 {
      SlotInWords(lens, maxbits, n);
      forall i, p | 0 <= i <= n && 0 <= p < |lookup| && Covers(lens, maxbits, i, p)
        ensures lookup[p] == MakeLookup(i, lens[i])
      {
        CoversBounds(lens, maxbits, i, p);
        CoversBounds(lens, maxbits, n, p);
        if Covers(lens, maxbits, n, p) {
          SlotsDisjoint(lens, maxbits, i, n, p);
        }
      }
    }
  }

  // ----- decoding inverts encoding

  /** The symbol whose slot holds table position `p`, or |lens| if there is none. */
  function Owner(lens: seq<nat>, maxbits: nat, p: nat): nat {
    OwnerBelow(lens, maxbits, p, |lens|)
  }

  function OwnerBelow(lens: seq<nat>, maxbits: nat, p: nat, n: nat): (i: nat)
    requires n <= |lens|
    ensures i == |lens| || i < n
  {
    if n == 0 then |lens|
    else if Covers(lens, maxbits, n - 1, p) then n - 1
    else OwnerBelow(lens, maxbits, p, n - 1)
  }

  lemma {:induction false} OwnerBelowCovers(lens: seq<nat>, maxbits: nat, p: nat, n: nat)
    requires n <= |lens|
    ensures var i := OwnerBelow(lens, maxbits, p, n);
      if i == |lens| then forall k :: 0 <= k < n ==> !Covers(lens, maxbits, k, p) else Covers(lens, maxbits, i, p)
  {
    if n > 0 && !Covers(lens, maxbits, n - 1, p) {
      OwnerBelowCovers(lens, maxbits, p, n - 1);
    }
  }

  lemma {:induction false} OwnerCovers(lens: seq<nat>, maxbits: nat, p: nat)
    ensures var i := Owner(lens, maxbits, p);
      if i == |lens| then forall k :: 0 <= k < |lens| ==> !Covers(lens, maxbits, k, p) else Covers(lens, maxbits, i, p)
  {
    OwnerBelowCovers(lens, maxbits, p, |lens|);
  }

  /** A position has an owner exactly when it lies below the Kraft sum. */
  lemma {:induction false} OwnedBelowKraft(lens: seq<nat>, maxbits: nat, p: nat)
    requires Consistent(lens, maxbits) && maxbits <= 24
    ensures Owner(lens, maxbits, p) < |lens| <==> p < Kraft(lens, maxbits)
  {
    OwnerCovers(lens, maxbits, p);
    var i := Owner(lens, maxbits, p);
    if p < Kraft(lens, maxbits) {
      var k := SlotsTile(lens, maxbits, p);
    } else if i < |lens| {
      CoversBounds(lens, maxbits, i, p);
      SlotsBelowKraft(lens, maxbits, i);
    }
  }

  /** The data from bit `pos` on starts with the codes of `symbols`, one after the other. */
  ghost predicate EncodedAt(lens: seq<nat>, data: seq<byte>, pos: nat, symbols: seq<nat>)
    decreases |symbols|
  {
    symbols != [] ==>
      && symbols[0] < |lens| && 0 < lens[symbols[0]] <= 32
      && Msb(data, pos, lens[symbols[0]]) == Code(lens, symbols[0])
      && EncodedAt(lens, data, pos + lens[symbols[0]], symbols[1..])
  }

  /** What `n` calls of huffman_decode_one find from bit `pos` on, stopping where no code matches. */
  ghost function Decoded(lens: seq<nat>, maxbits: nat, data: seq<byte>, pos: nat, n: nat): seq<nat>
    decreases n
  {
    if n == 0 then [] else
    var i := Owner(lens, maxbits, Msb(data, pos, maxbits));
    if i == |lens| then [] else [i] + Decoded(lens, maxbits, data, pos + lens[i], n - 1)
  }

  /** A code at the front of the stream is recognised whatever follows it. */
  lemma {:induction false} CodeIsRecognised(lens: seq<nat>, maxbits: nat, data: seq<byte>, pos: nat, i: nat)
    requires Consistent(lens, maxbits) && maxbits <= 24
    requires i < |lens| && lens[i] > 0 && Msb(data, pos, lens[i]) == Code(lens, i)
    ensures Owner(lens, maxbits, Msb(data, pos, maxbits)) == i
  {
    var p := Msb(data, pos, maxbits);
    assert lens[i] + (maxbits - lens[i]) == maxbits;
    MsbPrefix(data, pos, lens[i], maxbits - lens[i]);
    assert Covers(lens, maxbits, i, p);
    OwnerCovers(lens, maxbits, p);
    SlotsDisjoint(lens, maxbits, i, Owner(lens, maxbits, p), p);
  }

  /** Decoding a concatenation of codes returns exactly the encoded symbols. */
  lemma {:induction false} DecodeInvertsEncode(lens: seq<nat>, maxbits: nat, data: seq<byte>, pos: nat,
                                               symbols: seq<nat>)
    requires Consistent(lens, maxbits) && maxbits <= 24 && EncodedAt(lens, data, pos, symbols)
    ensures Decoded(lens, maxbits, data, pos, |symbols|) == symbols
    decreases |symbols|
  {
    hide Consistent, Owner, Msb, Code;
    if symbols != [] {
      var i := symbols[0];
      CodeIsRecognised(lens, maxbits, data, pos, i);
      DecodeInvertsEncode(lens, maxbits, data, pos + lens[i], symbols[1..]);
      assert Decoded(lens, maxbits, data, pos, |symbols|) == [i] + symbols[1..];
    }
  }

  /** How many bits the codes of `symbols` take. */
  function CodedBits(lens: seq<nat>, symbols: seq<nat>): nat
    requires forall k :: 0 <= k < |symbols| ==> symbols[k] < |lens|
  {
    if symbols == [] then 0 else lens[symbols[0]] + CodedBits(lens, symbols[1..])
  }

  lemma {:induction false} EncodedSymbols(lens: seq<nat>, data: seq<byte>, pos: nat, symbols: seq<nat>)
    requires EncodedAt(lens, data, pos, symbols)
    ensures forall k :: 0 <= k < |symbols| ==> symbols[k] < |lens|
    decreases |symbols|
  {
    if symbols != [] {
      EncodedSymbols(lens, data, pos + lens[symbols[0]], symbols[1..]);
      forall k | 0 <= k < |symbols| ensures symbols[k] < |lens| {
        if k > 0 {
          assert symbols[k] == symbols[1..][k - 1];
        }
      }
    }
  }

  /** Repeated calls of huffman_decode_one return the symbols whose codes are there, and consume exactly their codes. */
  method DecodeSymbols(h: HuffmanDecoder, bitbuf: BitStream, n: nat, ghost symbols: seq<nat>) returns (result: seq<nat>)
    requires h.Valid() && h.TableBuilt() && Consistent(h.Lens(), h.maxbits) && bitbuf.Valid()
    requires n == |symbols| && EncodedAt(h.Lens(), bitbuf.read, bitbuf.Position(), symbols)
    modifies bitbuf
    ensures |result| == n && forall k :: 0 <= k < n ==> result[k] == Low(symbols[k], 11)
    ensures bitbuf.Valid() && forall k :: 0 <= k < n ==> symbols[k] < h.numcodes
    ensures bitbuf.Position() == old(bitbuf.Position()) + CodedBits(h.Lens(), symbols)
  {
    hide Consistent, Owner, Code, Msb, Low, HuffmanDecoder.TableBuilt;
    ghost var lens, rest := h.Lens(), symbols;
    EncodedSymbols(lens, bitbuf.read, bitbuf.Position(), symbols);
    result := [];
    while |result| < n
      invariant |result| <= n && bitbuf.Valid() && h.TableBuilt() && rest == symbols[|result|..]
      invariant forall k :: 0 <= k < |rest| ==> rest[k] < |lens|
      invariant forall k :: 0 <= k < |result| ==> result[k] == Low(symbols[k], 11)
      invariant EncodedAt(lens, bitbuf.read, bitbuf.Position(), rest)
      invariant bitbuf.Position() + CodedBits(lens, rest) == old(bitbuf.Position()) + CodedBits(lens, symbols)
    {
      CodeIsRecognised(lens, h.maxbits, bitbuf.read, bitbuf.Position(), rest[0]);
      var symbol := h.DecodeOne(bitbuf);
      result := result + [symbol];
      rest := rest[1..];
    }
  }
}
