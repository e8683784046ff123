/**
 Writing a list of code lengths for huffman_import_tree_rle: as plain lengths and runs, in fields just wide enough for
 the longest length. Importing gives the lengths back, however they are cut into runs.
 */
module HuffmanExport {
  import opened Bits
  import opened BitSequence
  import opened BitWriter
  import opened HuffmanCodes
  import opened HuffmanImport

  /** A field of `n` bits, at least three, holds all lengths up to `maxbits`, and no smaller one does. */
  predicate IsWidth(n: nat, maxbits: nat) {
    n >= 3 && maxbits < Pow2(n) && (n == 3 || maxbits >= Pow2(n - 1))
  }

  /** The width that the import uses is the least one. */
  lemma {:induction false} EntryBitsLeast(maxbits: nat, n: nat)
    requires maxbits < 32
    ensures IsWidth(n, maxbits) <==> n == EntryBits(maxbits)
  {
    assert Pow2(2) == 4 && Pow2(3) == 8 && Pow2(4) == 16 && Pow2(5) == 32;
    if n > 5 {
      Pow2Mono(5, n - 1);
    }
  }

  /** A length, or the same length several times. */
  datatype Item = Single(len: nat) | Run(len: nat, count: nat)

  /** What a field of `n` bits can say; one marks a run, so runs of ones cannot be written. */
  predicate CanWrite(n: nat, item: Item) {
    item.len < Pow2(n) && match item
                          case Single(_) => true
                          case Run(len, count) => len != 1 && 3 <= count < Pow2(n) + 3
  }

  function Size(item: Item): nat {
    if item.Single? then 1 else item.count
  }

  function ItemBits(n: nat, item: Item): seq<bool>
    requires CanWrite(n, item)
  {
    match item
    case Single(len) => if len == 1 then CodeBits(1, n) + CodeBits(1, n) else CodeBits(len, n)
    case Run(len, count) => CodeBits(1, n) + (CodeBits(len, n) + CodeBits(count - 3, n))
  }

  predicate CanWriteAll(n: nat, items: seq<Item>) {
    forall k :: 0 <= k < |items| ==> CanWrite(n, items[k])
  }

  function ItemsBits(n: nat, items: seq<Item>): seq<bool>
    requires CanWriteAll(n, items)
  {
    if items == [] then [] else ItemBits(n, items[0]) + ItemsBits(n, items[1..])
  }

  /** The items say what the lengths are, from `k` on. */
  ghost predicate Covers(lens: seq<nat>, k: nat, items: seq<Item>)
    decreases |items|
  {
    if items == [] then k == |lens|
    else
      && k + Size(items[0]) <= |lens| && (forall i :: k <= i < k + Size(items[0]) ==> lens[i] == items[0].len)
      && Covers(lens, k + Size(items[0]), items[1..])
  }

  lemma {:induction false} PartIsRepeat(lens: seq<nat>, k: nat, x: nat, n: nat)
    requires k + n <= |lens| && forall i :: k <= i < k + n ==> lens[i] == x
    ensures lens[..k] + Repeat(x, n) == lens[..k + n]
  {
    RepeatIs(x, n);
  }

  lemma {:induction false} SingleReads(n: nat, data: seq<byte>, pos: nat, before: seq<nat>, len: nat, numcodes: nat)
    requires CanWrite(n, Single(len)) && Pow2(n) >= 8 && MsbAt(data, pos, ItemBits(n, Single(len)))
    ensures RleStep(n, data, pos, before, numcodes) == Lens(pos + |ItemBits(n, Single(len))|, before + [len])
  {
    hide Msb, MsbBits, CodeBits, Pow2, Repeat;
    if len == 1 {
      MsbAtSplit(data, pos, CodeBits(1, n), CodeBits(1, n), pos + n);
      ReadsMsb(data, pos, 1, n);
      ReadsMsb(data, pos + n, 1, n);
    } else {
      ReadsMsb(data, pos, len, n);
    }
  }

  lemma {:induction false} RunReads(n: nat, data: seq<byte>, pos: nat, before: seq<nat>, len: nat, count: nat,
                                    numcodes: nat)
    requires CanWrite(n, Run(len, count)) && Pow2(n) >= 8 && count + |before| <= numcodes
    requires MsbAt(data, pos, ItemBits(n, Run(len, count)))
    ensures RleStep(n, data, pos, before, numcodes)
            == Lens(pos + |ItemBits(n, Run(len, count))|, before + Repeat(len, count))
  {
    hide Msb, MsbBits, CodeBits, Pow2, Repeat;
    var l, c := CodeBits(len, n), CodeBits(count - 3, n);
    MsbAtSplit(data, pos, CodeBits(1, n), l + c, pos + n);
    MsbAtSplit(data, pos + n, l, c, pos + n + n);
    ReadsMsb(data, pos, 1, n);
    ReadsMsb(data, pos + n, len, n);
    ReadsMsb(data, pos + n + n, count - 3, n);
  }

  lemma {:induction false} ItemReads(n: nat, data: seq<byte>, pos: nat, lens: seq<nat>, k: nat, item: Item)
    requires n >= 3 && CanWrite(n, item) && MsbAt(data, pos, ItemBits(n, item))
    requires k + Size(item) <= |lens| && forall i :: k <= i < k + Size(item) ==> lens[i] == item.len
    ensures RleStep(n, data, pos, lens[..k], |lens|) == Lens(pos + |ItemBits(n, item)|, lens[..k + Size(item)])
  {
    assert Pow2(3) == 8;
    Pow2Mono(3, n);
    PartIsRepeat(lens, k, item.len, Size(item));
    hide RleStep, ItemBits, Repeat;
    match item {
      case Single(len) =>
        assert lens[..k] + [len] == lens[..k + 1];
        SingleReads(n, data, pos, lens[..k], len, |lens|);
      case Run(len, count) => RunReads(n, data, pos, lens[..k], len, count, |lens|);
    }
  }

  /** Reading what was written gives the lengths, and ends where the writing ended. */
  lemma {:induction false} ItemsRead(n: nat, data: seq<byte>, pos: nat, lens: seq<nat>, k: nat, items: seq<Item>)
    requires n >= 3 && CanWriteAll(n, items) && k <= |lens| && Covers(lens, k, items)
    requires MsbAt(data, pos, ItemsBits(n, items))
    ensures RleFrom(n, data, pos, lens[..k], |lens|) == Lens(pos + |ItemsBits(n, items)|, lens)
    decreases |items|
  {
    hide MsbBits, RleStep, RleFrom, ItemBits, CanWrite;
    if items == [] {
      assert lens[..k] == lens;
      RleDone(n, data, pos, lens, |lens|);
    } else {
      var mid := pos + |ItemBits(n, items[0])|;
      MsbAtSplit(data, pos, ItemBits(n, items[0]), ItemsBits(n, items[1..]), mid);
      ItemReads(n, data, pos, lens, k, items[0]);
      SizePositive(n, items[0]);
      RleUnfold(n, data, pos, lens[..k], |lens|);
      ItemsRead(n, data, mid, lens, k + Size(items[0]), items[1..]);
    }
  }

  lemma {:induction false} SizePositive(n: nat, item: Item)
    requires CanWrite(n, item)
    ensures Size(item) > 0
  {}

  /** Any lengths whose code fits the table, written in fields of the least width, are imported as they were. */
  method ImportWritten(h: H.HuffmanDecoder, bitbuf: B.BitStream, n: nat, ghost lens: seq<nat>, ghost items: seq<Item>,
                       ghost after: seq<byte>)
    returns (ok: bool)
    requires h.Valid() && bitbuf.Valid() && bitbuf.Position() == 0 && IsWidth(n, h.maxbits)
    requires |lens| == h.numcodes && Consistent(lens, h.maxbits) && Kraft(lens, h.maxbits) <= Pow2(h.maxbits)
    requires CanWriteAll(n, items) && Covers(lens, 0, items)
    requires bitbuf.read == PackHigh(ItemsBits(n, items)) + after
    modifies bitbuf, h.numbits, h.bits, h.lookup
    ensures ok && bitbuf.Valid() && h.Valid() && h.Lens() == lens && h.TableBuilt()
    ensures bitbuf.Position() == |ItemsBits(n, items)|
  {
    hide RleFrom, Consistent, Kraft, PackHigh, MsbBits, Covers, ItemsBits, CanWriteAll;
    EntryBitsLeast(h.maxbits, n);
    PackedHigh(ItemsBits(n, items), after);
    assert lens[..0] == [];
    ItemsRead(n, bitbuf.read, 0, lens, 0, items);
    ok := ImportTreeRle(h, bitbuf);
  }

  /** Plain lengths alone always do. */
  lemma {:induction false} PlainItems(n: nat, lens: seq<nat>, k: nat) returns (items: seq<Item>)
    requires k <= |lens| && forall i :: 0 <= i < |lens| ==> lens[i] < Pow2(n)
    ensures CanWriteAll(n, items) && Covers(lens, k, items)
    decreases |lens| - k
  {
    if k == |lens| {
      items := [];
    } else {
      var rest := PlainItems(n, lens, k + 1);
      items := [Single(lens[k])] + rest;
    }
  }

  // ----- and only that is imported

  /** One entry that is read could have been written. */
  lemma {:induction false} ItemIsThere(n: nat, data: seq<byte>, pos: nat, before: seq<nat>, numcodes: nat)
    returns (item: Item)
    requires |before| < numcodes && RleStep(n, data, pos, before, numcodes).Lens?
    ensures CanWrite(n, item) && MsbAt(data, pos, ItemBits(n, item)) && 0 < Size(item) <= numcodes - |before|
    ensures RleStep(n, data, pos, before, numcodes)
            == Lens(pos + |ItemBits(n, item)|, before + Repeat(item.len, Size(item)))
  {
    hide Msb, MsbBits, CodeBits, Pow2;
    var first, second, third := Msb(data, pos, n), Msb(data, pos + n, n), Msb(data, pos + n + n, n);
    MsbIsThere(data, pos, n);
    MsbIsThere(data, pos + n, n);
    MsbIsThere(data, pos + n + n, n);
    MsbBound(data, pos, n);
    MsbBound(data, pos + n, n);
    MsbBound(data, pos + n + n, n);
    OneRepeat(first);
    OneRepeat(1);
    hide Repeat;
    if first != 1 {
      item := Single(first);
    } else if second == 1 {
      item := Single(1);
      MsbAtJoin(data, pos, CodeBits(1, n), CodeBits(1, n), pos + n);
    } else {
      item := Run(second, third + 3);
      MsbAtJoin(data, pos + n, CodeBits(second, n), CodeBits(third, n), pos + n + n);
      MsbAtJoin(data, pos, CodeBits(1, n), CodeBits(second, n) + CodeBits(third, n), pos + n);
    }
  }

  lemma {:induction false} OneRepeat(x: nat)
    ensures Repeat(x, 1) == [x]
  {
    assert Repeat(x, 0) == [];
  }

  /** Lengths that are read were written: some cut into single lengths and runs has exactly these bits. */
  lemma {:induction false} ItemsAreThere(n: nat, data: seq<byte>, pos: nat, before: seq<nat>, lens: seq<nat>,
                                         pos': nat) returns (items: seq<Item>)
    requires |before| <= |lens| && RleFrom(n, data, pos, before, |lens|) == Lens(pos', lens)
    ensures lens[..|before|] == before && CanWriteAll(n, items) && Covers(lens, |before|, items)
    ensures MsbAt(data, pos, ItemsBits(n, items)) && pos' == pos + |ItemsBits(n, items)|
    decreases |lens| - |before|
  {
    hide MsbBits, RleStep, RleFrom, ItemBits, CanWrite, Repeat;
    if |before| == |lens| {
      items := [];
      RleDone(n, data, pos, before, |lens|);
    } else {
      RleUnfold(n, data, pos, before, |lens|);
      var item := ItemIsThere(n, data, pos, before, |lens|);
      var more := before + Repeat(item.len, Size(item));
      var mid := pos + |ItemBits(n, item)|;
      var rest := ItemsAreThere(n, data, mid, more, lens, pos');
      items := [item] + rest;
      assert items[1..] == rest && lens[..|before|] == lens[..|more|][..|before|];
      RepeatIs(item.len, Size(item));
      MsbAtJoin(data, pos, ItemBits(n, item), ItemsBits(n, rest), mid);
    }
  }
}
