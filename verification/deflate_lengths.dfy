/**
 Writing the description of two codes (section 3.2.7 of RFC 1951): the code lengths as plain lengths and runs, coded by
 a third code. Reading it gives the two codes back, however the lengths are cut into runs.
 */
module DeflateLengths {
  import opened Bits
  import opened BitSequence
  import opened BitWriter
  import opened HuffmanCodes
  import opened CanonicalCodes
  import opened DeflateCodes
  import opened DeflateWriter
  import opened ZlibReader
  import opened ZlibCodes
  import opened DeflateSymbols

  /** A length, the last length some more times, or zeros. */
  datatype Entry = Plain(len: nat) | Again(times: nat) | Unused(times: nat)

  predicate IsEntry(e: Entry) {
    match e
    case Plain(len) => len <= 15
    case Again(times) => 3 <= times <= 6
    case Unused(times) => 3 <= times <= 138
  }

  /** The code length symbol of an entry, with its extra bits. */
  function CodeEntry(e: Entry): Coded
    requires IsEntry(e)
  {
    match e
    case Plain(len) => Coded(len, 0, 0)
    case Again(times) => Coded(16, times - 3, 2)
    case Unused(times) => if times <= 10 then Coded(17, times - 3, 3) else Coded(18, times - 11, 7)
  }

  /** What the entry adds to the lengths so far. */
  function Added(lens: seq<nat>, e: Entry): seq<nat> {
    match e
    case Plain(len) => [len]
    case Again(times) => if lens == [] then [] else Repeat(lens[|lens| - 1], times)
    case Unused(times) => Repeat(0, times)
  }

  /** All entries can be written with the code, and there is a last length where it is repeated. */
  ghost predicate CanWrite(cl: seq<nat>, lens: seq<nat>, entries: seq<Entry>)
    decreases |entries|
  {
    entries != [] ==>
      && IsEntry(entries[0]) && HasCode(cl, CodeEntry(entries[0]).symbol) && (entries[0].Again? ==> lens != [])
      && CanWrite(cl, lens + Added(lens, entries[0]), entries[1..])
  }

  function Expand(lens: seq<nat>, entries: seq<Entry>): seq<nat>
    decreases |entries|
  {
    if entries == [] then lens else Expand(lens + Added(lens, entries[0]), entries[1..])
  }

  ghost function EntriesBits(cl: seq<nat>, lens: seq<nat>, entries: seq<Entry>): seq<bool>
    requires CanWrite(cl, lens, entries)
    decreases |entries|
  {
    if entries == [] then []
    else
      CodedBits(cl, CodeEntry(entries[0])) + EntriesBits(cl, lens + Added(lens, entries[0]), entries[1..])
  }

  /** The lengths of the code length code come as 16, 17, 18, 0, and then from 8 alternately down and up. */
  function LengthOrder(i: nat): (c: nat)
    requires i < 19
    ensures c < 19
  {
    if i < 3 then 16 + i
    else if i == 3 then 0
    else if i % 2 == 0 then 8 + (i - 4) / 2
    else 7 - (i - 5) / 2
  }

  /** The order is a permutation: this is where each length is. */
  function PlaceInOrder(c: nat): (i: nat)
    requires c < 19
    ensures i < 19
  {
    if c >= 16 then c - 16
    else if c == 0 then 3
    else if c >= 8 then 4 + 2 * (c - 8)
    else 5 + 2 * (7 - c)
  }

  lemma {:induction false} OrderIsPermutation(i: nat, c: nat)
    requires i < 19 && c < 19
    ensures LengthOrder(i) == c <==> PlaceInOrder(c) == i
  {}

  /** The decoder's table is that order. */
  lemma {:induction false} DezigzagIsOrder(i: nat)
    requires i < 19
    ensures Dezigzag(i) == LengthOrder(i)
  {}

  function OrderBits(cl: seq<nat>, n: nat): (b: seq<bool>)
    requires |cl| == 19 && n <= 19
    ensures |b| == 3 * n
  {
    if n == 0 then [] else OrderBits(cl, n - 1) + ValueBits(cl[LengthOrder(n - 1)], 3)
  }

  /** The description of `ll` and `dl`, with `count` lengths of the code `cl` written out. */
  datatype Description = Description(ll: seq<nat>, dl: seq<nat>, cl: seq<nat>, count: nat, entries: seq<Entry>)

  ghost predicate IsDescription(d: Description) {
    && 257 <= |d.ll| <= 288 && 1 <= |d.dl| <= 32 && NotOversubscribed(d.ll) && NotOversubscribed(d.dl)
    && |d.cl| == 19 && 4 <= d.count <= 19 && NotOversubscribed(d.cl) && (forall c :: 0 <= c < 19 ==> d.cl[c] <= 7)
    && (forall i :: d.count <= i < 19 ==> d.cl[LengthOrder(i)] == 0)
    && CanWrite(d.cl, [], d.entries) && Expand([], d.entries) == d.ll + d.dl
  }

  /** Three counts, each less what it is at least. */
  function CountBits(hlit: nat, hdist: nat, hclen: nat): (b: seq<bool>)
    requires hlit >= 257 && hdist >= 1 && hclen >= 4
    ensures |b| == 14
  {
    ValueBits(hlit - 257, 5) + (ValueBits(hdist - 1, 5) + ValueBits(hclen - 4, 4))
  }

  ghost function DescriptionBits(d: Description): seq<bool>
    requires IsDescription(d)
  {
    CountBits(|d.ll|, |d.dl|, d.count) + (OrderBits(d.cl, d.count) + EntriesBits(d.cl, [], d.entries))
  }

  // ----- reading it

  lemma {:induction false} ExpandGrows(lens: seq<nat>, entries: seq<Entry>)
    ensures |Expand(lens, entries)| >= |lens|
    decreases |entries|
  {
    if entries != [] {
      ExpandGrows(lens + Added(lens, entries[0]), entries[1..]);
    }
  }

  lemma {:induction false} EntryReads(cl: seq<nat>, data: seq<byte>, pos: nat, lens: seq<nat>, e: Entry, ntot: nat)
    requires |cl| == 19 && NotOversubscribed(cl)
    requires IsEntry(e) && HasCode(cl, CodeEntry(e).symbol) && (e.Again? ==> lens != [])
    requires LsbAt(data, pos, CodedBits(cl, CodeEntry(e))) && |lens + Added(lens, e)| <= ntot
    ensures LengthStep(cl, data, pos, lens, ntot)
            == Got(pos + |CodedBits(cl, CodeEntry(e))|, lens + Added(lens, e))
  {
    hide NextSymbol, Lsb, NotOversubscribed, CodedBits, LsbBits, Pow2, Repeat;
    var c := CodeEntry(e);
    EntryBits(e);
    ReadsCoded(cl, c, data, pos);
    hide CodeEntry;
    var fill := if c.symbol == 16 then lens[|lens| - 1] else 0;
    assert Added(lens, e) == if c.symbol < 16 then [c.symbol] else Repeat(fill, RepeatBase(c.symbol) + c.extra);
  }

  /** The decoder's counts for the symbols 16, 17 and 18 are those of the entry. */
  lemma {:induction false} EntryBits(e: Entry)
    requires IsEntry(e)
    ensures var c := CodeEntry(e);
      && c.extra < Pow2(c.bits) && c.symbol <= 18
      && match e
         case Plain(len) => c.symbol == len && c.bits == 0
         case Again(times) => c.symbol == 16 && c.bits == RepeatBits(16) && RepeatBase(16) + c.extra == times
         case Unused(times) =>
           c.symbol > 16 && c.bits == RepeatBits(c.symbol) && RepeatBase(c.symbol) + c.extra == times
  {
    assert Pow2(2) == 4 && Pow2(3) == 8 && Pow2(7) == 128 && Pow2(0) == 1;
  }

  lemma {:induction false} EntriesRead(cl: seq<nat>, data: seq<byte>, pos: nat, lens: seq<nat>, entries: seq<Entry>,
                                       ntot: nat)
    requires |cl| == 19 && NotOversubscribed(cl) && CanWrite(cl, lens, entries)
    requires LsbAt(data, pos, EntriesBits(cl, lens, entries)) && |Expand(lens, entries)| == ntot
    ensures LengthsFrom(cl, data, pos, lens, ntot)
            == Got(pos + |EntriesBits(cl, lens, entries)|, Expand(lens, entries))
    decreases |entries|
  {
    hide LengthsFrom, LengthStep, LsbBits, NotOversubscribed, CodedBits, CodeEntry;
    if entries == [] {
      LengthsDone(cl, data, pos, lens, ntot);
    } else {
      var more, rest := lens + Added(lens, entries[0]), entries[1..];
      var mid := pos + |CodedBits(cl, CodeEntry(entries[0]))|;
      ExpandGrows(more, rest);
      assert |Added(lens, entries[0])| > 0;
      LsbAtSplit(data, pos, CodedBits(cl, CodeEntry(entries[0])), EntriesBits(cl, more, rest), mid);
      EntryReads(cl, data, pos, lens, entries[0], ntot);
      LengthsUnfold(cl, data, pos, lens, ntot);
      EntriesRead(cl, data, mid, more, rest, ntot);
    }
  }

  /** The first `n` lengths of the order, zeros elsewhere. */
  predicate FirstInOrder(sizes: seq<nat>, cl: seq<nat>, n: nat) {
    |sizes| == |cl| == 19 && forall c :: 0 <= c < 19 ==> sizes[c] == if PlaceInOrder(c) < n then cl[c] else 0
  }

  lemma {:induction false} NextInOrder(sizes: seq<nat>, cl: seq<nat>, n: nat)
    requires n < 19 && FirstInOrder(sizes, cl, n)
    ensures var c := LengthOrder(n); FirstInOrder(sizes[c := cl[c]], cl, n + 1)
  {
    hide LengthOrder, PlaceInOrder;
    forall k | 0 <= k < 19 ensures k == LengthOrder(n) <==> PlaceInOrder(k) == n {
      OrderIsPermutation(n, k);
    }
  }

  lemma {:induction false} OrderReads(data: seq<byte>, pos: nat, cl: seq<nat>, n: nat)
    requires |cl| == 19 && n <= 19 && (forall c :: 0 <= c < 19 ==> cl[c] <= 7)
    requires LsbAt(data, pos, OrderBits(cl, n))
    ensures FirstInOrder(CodeLengthSizes(data, pos, n), cl, n)
  {
    if n > 0 {
      assert Pow2(3) == 8;
      hide Dezigzag, LengthOrder, LsbBits, ValueBits, Lsb, Pow2, FirstInOrder;
      var c, at := LengthOrder(n - 1), pos + 3 * (n - 1);
      LsbAtSplit(data, pos, OrderBits(cl, n - 1), ValueBits(cl[c], 3), at);
      OrderReads(data, pos, cl, n - 1);
      ReadsValue(data, at, cl[c], 3);
      DezigzagIsOrder(n - 1);
      NextInOrder(CodeLengthSizes(data, pos, n - 1), cl, n - 1);
    }
  }

  lemma {:induction false} SizesRead(data: seq<byte>, pos: nat, d: Description)
    requires IsDescription(d) && LsbAt(data, pos, OrderBits(d.cl, d.count))
    ensures CodeLengthSizes(data, pos, d.count) == d.cl
  {
    hide CodeLengthSizes, NotOversubscribed, CanWrite, Expand, LsbBits, OrderBits;
    OrderReads(data, pos, d.cl, d.count);
    forall c | 0 <= c < 19 ensures PlaceInOrder(c) >= d.count ==> d.cl[c] == 0 {
      OrderIsPermutation(PlaceInOrder(c), c);
    }
  }

  lemma {:induction false} CountsRead(data: seq<byte>, pos: nat, hlit: nat, hdist: nat, hclen: nat)
    requires 257 <= hlit <= 288 && 1 <= hdist <= 32 && 4 <= hclen <= 19
    requires LsbAt(data, pos, CountBits(hlit, hdist, hclen))
    ensures Lsb(data, pos, 5) + 257 == hlit && Lsb(data, pos + 5, 5) + 1 == hdist
    ensures Lsb(data, pos + 10, 4) + 4 == hclen
  {
    assert Pow2(5) == 32 && Pow2(4) == 16;
    hide Pow2, Lsb, LsbBits, ValueBits;
    var b, c := ValueBits(hdist - 1, 5), ValueBits(hclen - 4, 4);
    ReadsNext(data, pos, hlit - 257, 5, b + c, pos + 5);
    ReadsNext(data, pos + 5, hdist - 1, 5, c, pos + 10);
    ReadsValue(data, pos + 10, hclen - 4, 4);
  }

  /** Where the parts of the description are. */
  lemma {:induction false} DescriptionParts(data: seq<byte>, pos: nat, d: Description)
    requires IsDescription(d) && LsbAt(data, pos, DescriptionBits(d))
    ensures LsbAt(data, pos, CountBits(|d.ll|, |d.dl|, d.count))
    ensures LsbAt(data, pos + 14, OrderBits(d.cl, d.count))
    ensures LsbAt(data, pos + 14 + 3 * d.count, EntriesBits(d.cl, [], d.entries))
    ensures |DescriptionBits(d)| == 14 + 3 * d.count + |EntriesBits(d.cl, [], d.entries)|
  {
    hide NotOversubscribed, CanWrite, Expand, LsbBits, OrderBits, EntriesBits, CountBits, LengthOrder;
    var o, e := OrderBits(d.cl, d.count), EntriesBits(d.cl, [], d.entries);
    LsbAtSplit(data, pos, CountBits(|d.ll|, |d.dl|, d.count), o + e, pos + 14);
    LsbAtSplit(data, pos + 14, o, e, pos + 14 + 3 * d.count);
  }

  /** Reading a description gives the two codes, and ends where the description ends. */
  lemma {:induction false} DescriptionReads(data: seq<byte>, pos: nat, d: Description)
    requires IsDescription(d) && LsbAt(data, pos, DescriptionBits(d))
    ensures CodesAt(data, pos) == Codes(pos + |DescriptionBits(d)|, d.ll, d.dl)
  {
    hide Lsb, NotOversubscribed, CanWrite, Expand, LsbBits, OrderBits, EntriesBits, LengthsFrom, CodeLengthSizes;
    hide DescriptionBits;
    DescriptionParts(data, pos, d);
    CountsRead(data, pos, |d.ll|, |d.dl|, d.count);
    SizesRead(data, pos + 14, d);
    var at := pos + 14 + 3 * d.count;
    EntriesRead(d.cl, data, at, [], d.entries, |d.ll| + |d.dl|);
    var lens := d.ll + d.dl;
    assert lens[..|d.ll|] == d.ll && lens[|d.ll|..] == d.dl;
  }

  // ----- and only that is read

  lemma {:induction false} EntryIsThere(cl: seq<nat>, data: seq<byte>, pos: nat, lens: seq<nat>, ntot: nat)
    returns (e: Entry)
    requires |cl| == 19 && IsLengths(cl) && |lens| < ntot && LengthStep(cl, data, pos, lens, ntot).Got?
    ensures IsEntry(e) && HasCode(cl, CodeEntry(e).symbol) && (e.Again? ==> lens != [])
    ensures LsbAt(data, pos, CodedBits(cl, CodeEntry(e)))
    ensures LengthStep(cl, data, pos, lens, ntot)
            == Got(pos + |CodedBits(cl, CodeEntry(e))|, lens + Added(lens, e))
    ensures 0 < |Added(lens, e)| <= ntot - |lens|
  {
    hide NextSymbol, Lsb, SymbolBits, LsbBits, Repeat, CodedBits;
    var c := NextSymbol(cl, data, pos);
    if c < 16 {
      CodedIsThere(cl, data, pos, 0);
      NoBits(data, pos + cl[c]);
      e := Plain(c);
    } else {
      CodedIsThere(cl, data, pos, RepeatBits(c));
      var x := Lsb(data, pos + cl[c], RepeatBits(c));
      assert Pow2(2) == 4 && Pow2(3) == 8 && Pow2(7) == 128;
      e := if c == 16 then Again(3 + x) else Unused(RepeatBase(c) + x);
    }
  }

  lemma {:induction false} NoBits(data: seq<byte>, pos: nat)
    ensures Lsb(data, pos, 0) == 0
  {}

  lemma {:induction false} EntriesAreThere(cl: seq<nat>, data: seq<byte>, pos: nat, lens: seq<nat>, ntot: nat)
    returns (entries: seq<Entry>)
    requires |cl| == 19 && IsLengths(cl) && |lens| <= ntot && LengthsFrom(cl, data, pos, lens, ntot).Got?
    ensures CanWrite(cl, lens, entries) && LsbAt(data, pos, EntriesBits(cl, lens, entries))
    ensures LengthsFrom(cl, data, pos, lens, ntot)
            == Got(pos + |EntriesBits(cl, lens, entries)|, Expand(lens, entries))
    ensures |Expand(lens, entries)| == ntot
    decreases ntot - |lens|
  {
    hide LengthsFrom, LengthStep, LsbBits, CodedBits, CodeEntry, IsLengths;
    if |lens| == ntot {
      entries := [];
      LengthsDone(cl, data, pos, lens, ntot);
    } else {
      LengthsUnfold(cl, data, pos, lens, ntot);
      var e := EntryIsThere(cl, data, pos, lens, ntot);
      var mid := pos + |CodedBits(cl, CodeEntry(e))|;
      var more := lens + Added(lens, e);
      var rest := EntriesAreThere(cl, data, mid, more, ntot);
      entries := [e] + rest;
      assert entries[1..] == rest;
      LsbAtJoin(data, pos, CodedBits(cl, CodeEntry(e)), EntriesBits(cl, more, rest), mid);
    }
  }

  /** The length of each symbol of the code length code, zero for those that are not written out. */
  lemma {:induction false} SizeIsThere(data: seq<byte>, pos: nat, n: nat, i: nat)
    requires n <= 19 && i < 19
    ensures CodeLengthSizes(data, pos, n)[LengthOrder(i)] == if i < n then Lsb(data, pos + 3 * i, 3) else 0
  {
    if n > 0 {
      hide Lsb, LengthOrder, Dezigzag;
      SizeIsThere(data, pos, n - 1, i);
      DezigzagIsOrder(n - 1);
      OrderIsPermutation(i, LengthOrder(n - 1));
      OrderIsPermutation(n - 1, LengthOrder(n - 1));
      hide PlaceInOrder;
    }
  }

  lemma {:induction false} OrderIsThere(data: seq<byte>, pos: nat, cl: seq<nat>, n: nat)
    requires |cl| == 19 && n <= 19 && forall i :: 0 <= i < n ==> cl[LengthOrder(i)] == Lsb(data, pos + 3 * i, 3)
    ensures LsbAt(data, pos, OrderBits(cl, n))
  {
    if n > 0 {
      hide Lsb, LengthOrder, ValueBits;
      var at := pos + 3 * (n - 1);
      OrderIsThere(data, pos, cl, n - 1);
      ValueIsThere(data, at, 3);
      hide LsbBits;
      LsbAtJoin(data, pos, OrderBits(cl, n - 1), ValueBits(cl[LengthOrder(n - 1)], 3), at);
    }
  }

  /** Codes that are read were written: some description has exactly these bits. */
  lemma {:induction false} CodesAreDescription(data: seq<byte>, pos: nat) returns (d: Description)
    requires CodesAt(data, pos).Codes?
    ensures IsDescription(d) && LsbAt(data, pos, DescriptionBits(d)) && IsLengths(d.ll) && IsLengths(d.dl)
    ensures CodesAt(data, pos) == Codes(pos + |DescriptionBits(d)|, d.ll, d.dl)
  {
    hide Lsb, NotOversubscribed, CanWrite, Expand, LsbBits, OrderBits, EntriesBits, LengthsFrom, CodeLengthSizes;
    hide LengthOrder;
    HeaderBounds(data, pos);
    var hlit, hdist, hclen := Lsb(data, pos, 5) + 257, Lsb(data, pos + 5, 5) + 1, Lsb(data, pos + 10, 4) + 4;
    var cl, at := CodeLengthSizes(data, pos + 14, hclen), pos + 14 + 3 * hclen;
    ThreeBits(data, pos + 14, hclen);
    var entries := EntriesAreThere(cl, data, at, [], hlit + hdist);
    LengthsAreLengths(cl, data, at, [], hlit + hdist);
    var lens := Expand([], entries);
    d := Description(lens[..hlit], lens[hlit..], cl, hclen, entries);
    assert lens[..hlit] + lens[hlit..] == lens;
    forall i | 0 <= i < 19 ensures cl[LengthOrder(i)] == if i < hclen then Lsb(data, pos + 14 + 3 * i, 3) else 0 {
      SizeIsThere(data, pos + 14, hclen, i);
    }
    OrderIsThere(data, pos + 14, cl, hclen);
    CountsAreThere(data, pos);
    LsbAtJoin(data, pos + 14, OrderBits(cl, hclen), EntriesBits(cl, [], entries), at);
    LsbAtJoin(data, pos, CountBits(hlit, hdist, hclen), OrderBits(cl, hclen) + EntriesBits(cl, [], entries), pos + 14);
  }

  lemma {:induction false} CountsAreThere(data: seq<byte>, pos: nat)
    ensures LsbAt(data, pos, CountBits(Lsb(data, pos, 5) + 257, Lsb(data, pos + 5, 5) + 1, Lsb(data, pos + 10, 4) + 4))
  {
    ValueIsThere(data, pos, 5);
    ValueIsThere(data, pos + 5, 5);
    ValueIsThere(data, pos + 10, 4);
    hide Lsb, LsbBits, ValueBits;
    var b, c := ValueBits(Lsb(data, pos + 5, 5), 5), ValueBits(Lsb(data, pos + 10, 4), 4);
    LsbAtJoin(data, pos + 5, b, c, pos + 10);
    LsbAtJoin(data, pos, ValueBits(Lsb(data, pos, 5), 5), b + c, pos + 5);
  }
}
