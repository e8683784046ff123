/** Reading a run-length coded list of code lengths and building the decoder for it. */
module HuffmanImport {
  import opened Bits
  import opened BitSequence
  import B = BitStream
  import opened HuffmanCodes
  import opened H = HuffmanDecoder

  /** How many bits one length takes. */
  function EntryBits(maxbits: nat): nat {
    if maxbits >= 16 then 5 else if maxbits >= 8 then 4 else 3
  }

  datatype Import = Lens(pos: nat, lens: seq<nat>) | Invalid

  /**
   One entry: a length other than one stands for itself; one is an escape, followed by another one for a
   length of one, or by a length and a repeat count.
   */
  function RleStep(n: nat, data: seq<byte>, pos: nat, lens: seq<nat>, numcodes: nat): Import {
    var first, second := Msb(data, pos, n), Msb(data, pos + n, n);
    if first != 1 then Lens(pos + n, lens + [first])
    else if second == 1 then Lens(pos + n + n, lens + [1])
    else
      var count := Msb(data, pos + n + n, n) + 3;
      if count + |lens| > numcodes then Invalid else Lens(pos + n + n + n, lens + Repeat(second, count))
  }

  function RleFrom(n: nat, data: seq<byte>, pos: nat, lens: seq<nat>, numcodes: nat): Import
    decreases numcodes - |lens|
  {
    if |lens| >= numcodes then Lens(pos, lens)
    else
      match RleStep(n, data, pos, lens, numcodes)
      case Invalid => Invalid
      case Lens(p, l) => if |l| > |lens| then RleFrom(n, data, p, l, numcodes) else Invalid
  }

  lemma {:induction false} RleUnfold(n: nat, data: seq<byte>, pos: nat, lens: seq<nat>, numcodes: nat)
    requires |lens| < numcodes
    ensures var r := RleStep(n, data, pos, lens, numcodes);
      RleFrom(n, data, pos, lens, numcodes) == if r.Invalid? then Invalid else RleFrom(n, data, r.pos, r.lens, numcodes)
  {}

  lemma {:induction false} RleDone(n: nat, data: seq<byte>, pos: nat, lens: seq<nat>, numcodes: nat)
    requires |lens| == numcodes
    ensures RleFrom(n, data, pos, lens, numcodes) == Lens(pos, lens)
  {}

  /** One round of the loop of huffman_import_tree_rle. */
  method ReadEntry(h: HuffmanDecoder, bitbuf: B.BitStream, n: nat, curnode: nat) returns (ok: bool, next: nat)
    requires h.Valid() && bitbuf.Valid() && n <= 5 && curnode < h.numcodes
    modifies bitbuf, h.numbits
    ensures bitbuf.Valid() && curnode <= next <= h.numcodes
    ensures var r := RleStep(n, bitbuf.read, old(bitbuf.Position()), old(h.numbits[..curnode]), h.numcodes);
      if ok then r == Lens(bitbuf.Position(), h.numbits[..next]) && next > curnode else r.Invalid?
  {
    hide Msb;
    ghost var before := h.numbits[..curnode];
    ok, next := true, curnode + 1;
    var nodebits := bitbuf.Read(n);
    if nodebits != 1 {
      h.numbits[curnode] := nodebits;
      assert h.numbits[..next] == before + [nodebits];
      return;
    }
    nodebits := bitbuf.Read(n);
    if nodebits == 1 {
      h.numbits[curnode] := nodebits;
      assert h.numbits[..next] == before + [nodebits];
      return;
    }
    var repcount := bitbuf.Read(n);
    repcount := repcount + 3;
    if repcount + curnode > h.numcodes {
      return false, curnode;
    }
    next := curnode + repcount;
    FillNodes(h, curnode, next, nodebits, repcount);
  }

  /** The repeat loop. */
  method FillNodes(h: HuffmanDecoder, curnode: nat, next: nat, nodebits: nat, repcount: nat)
    requires h.Valid() && next == curnode + repcount <= h.numcodes
    modifies h.numbits
    ensures h.numbits[..next] == old(h.numbits[..curnode]) + Repeat(nodebits, repcount)
  {
    ghost var before := h.numbits[..curnode];
    var cur := curnode;
    while cur < next
      invariant curnode <= cur <= next && h.numbits[..curnode] == before
      invariant forall i :: curnode <= i < cur ==> h.numbits[i] == nodebits
    {
      h.numbits[cur] := nodebits;
      cur := cur + 1;
    }
    RepeatIs(nodebits, repcount);
  }

  /**
   huffman_import_tree_rle succeeds exactly if the data hold a list of lengths with consistent canonical
   codes that fit the table, within their end; then the table decodes those codes.
   */
  method ImportTreeRle(h: HuffmanDecoder, bitbuf: B.BitStream) returns (ok: bool)
    requires h.Valid() && bitbuf.Valid()
    modifies bitbuf, h.numbits, h.bits, h.lookup
    ensures var r := RleFrom(EntryBits(h.maxbits), bitbuf.read, old(bitbuf.Position()), [], h.numcodes);
      && (ok <==> r.Lens? && Consistent(r.lens, h.maxbits) && Kraft(r.lens, h.maxbits) <= Pow2(h.maxbits)
                  && r.pos <= 8 * |bitbuf.read|)
      && (ok ==> bitbuf.Valid() && bitbuf.Position() == r.pos && h.Valid() && h.Lens() == r.lens && h.TableBuilt())
  {
    hide RleFrom, RleStep, Consistent, Kraft;
    var n := EntryBits(h.maxbits);
    ghost var whole := RleFrom(n, bitbuf.read, bitbuf.Position(), [], h.numcodes);
    var curnode := 0;
    assert h.numbits[..0] == [];
    while curnode < h.numcodes
      invariant curnode <= h.numcodes && bitbuf.Valid()
      invariant whole == RleFrom(n, bitbuf.read, bitbuf.Position(), h.numbits[..curnode], h.numcodes)
    {
      RleUnfold(n, bitbuf.read, bitbuf.Position(), h.numbits[..curnode], h.numcodes);
      ok, curnode := ReadEntry(h, bitbuf, n, curnode);
      if !ok {
        return;
      }
    }
    RleDone(n, bitbuf.read, bitbuf.Position(), h.numbits[..curnode], h.numcodes);
    assert h.numbits[..curnode] == h.Lens();
    var error := h.AssignCanonicalCodes();
    if error != None {
      return false;
    }
    error := h.BuildLookupTable();
    if error != None {
      return false;
    }
    var overflow := bitbuf.Overflow();
    return !overflow;
  }
}
