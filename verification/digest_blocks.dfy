/**
 What a digest of the MD5 and SHA family is: pad the message to whole blocks of 64 bytes, then
 fold the compression function over them. The compression function is a parameter.
 */
module DigestBlocks {
  import opened Bits
  import opened BitSequence

  type Words = seq<nat>

  function Fold(compress: (Words, seq<byte>) -> Words, init: Words, blocks: seq<seq<byte>>): Words {
    if blocks == [] then init
    else compress(Fold(compress, init, blocks[..|blocks| - 1]), blocks[|blocks| - 1])
  }

  ghost predicate AreBlocks(blocks: seq<seq<byte>>) {
    forall i :: 0 <= i < |blocks| ==> |blocks[i]| == 64
  }

  function Concat(blocks: seq<seq<byte>>): seq<byte> {
    if blocks == [] then [] else Concat(blocks[..|blocks| - 1]) + blocks[|blocks| - 1]
  }

  /** The whole blocks of a message. */
  function BlocksOf(m: seq<byte>): seq<seq<byte>> {
    if |m| < 64 then [] else [m[..64]] + BlocksOf(m[64..])
  }

  // ----- padding

  /** The smallest number of zero bytes that leaves room for the length only. */
  function ZeroCount(n: nat): (k: nat)
    ensures (n + 1 + k) % 64 == 56 && k < 64
  {
    var r := n % 64;
    assert n == 64 * (n / 64) + r;
    if r <= 55 then
      DivModUnique(n + 1 + (55 - r), 64, n / 64, 56);
      55 - r
    else
      DivModUnique(n + 1 + (119 - r), 64, n / 64 + 1, 56);
      119 - r
  }

  /** `n` bytes of a number, the lowest first. */
  function LittleEndian(v: nat, n: nat): (s: seq<byte>)
    ensures |s| == n
  {
    if n == 0 then [] else [v % 256] + LittleEndian(v / 256, n - 1)
  }

  /** `n` bytes of a number, the highest first. */
  function BigEndian(v: nat, n: nat): (s: seq<byte>)
    ensures |s| == n
  {
    if n == 0 then [] else BigEndian(v / 256, n - 1) + [v % 256]
  }

  /** One bit, zeros, and the length in bits modulo 2^64. */
  function Pad(m: seq<byte>, length: seq<byte>): seq<byte> {
    m + [0x80] + Zeros(ZeroCount(|m|)) + length
  }

  function BitLength(m: seq<byte>): nat {
    8 * |m| % 0x1_0000_0000_0000_0000
  }

  /** Section 5.1 of FIPS 180-4. */
  function PadBig(m: seq<byte>): seq<byte> {
    Pad(m, BigEndian(BitLength(m), 8))
  }

  /** Sections 3.1 and 3.2 of RFC 1321. */
  function PadLittle(m: seq<byte>): seq<byte> {
    Pad(m, LittleEndian(BitLength(m), 8))
  }

  // ----- blocks

  lemma {:induction false} FoldSnoc(compress: (Words, seq<byte>) -> Words, init: Words, blocks: seq<seq<byte>>,
                                    b: seq<byte>)
    ensures Fold(compress, init, blocks + [b]) == compress(Fold(compress, init, blocks), b)
  {
    assert (blocks + [b])[..|blocks|] == blocks;
  }

  lemma {:induction false} ConcatSnoc(blocks: seq<seq<byte>>, b: seq<byte>)
    ensures Concat(blocks + [b]) == Concat(blocks) + b
  {
    assert (blocks + [b])[..|blocks|] == blocks;
  }

  lemma {:induction false} ConcatLength(blocks: seq<seq<byte>>)
    requires AreBlocks(blocks)
    ensures |Concat(blocks)| == 64 * |blocks|
  {
    if blocks != [] {
      ConcatLength(blocks[..|blocks| - 1]);
    }
  }

  lemma {:induction false} ConcatNone()
    ensures Concat([]) == []
  {}

  lemma {:induction false} ConcatHead(blocks: seq<seq<byte>>)
    requires blocks != []
    ensures Concat(blocks) == blocks[0] + Concat(blocks[1..])
  {
    hide Concat;
    var n := |blocks| - 1;
    if n == 0 {
      assert blocks == [] + [blocks[0]] && blocks[1..] == [];
      ConcatSnoc([], blocks[0]);
      ConcatNone();
    } else {
      var front, last := blocks[..n], blocks[n];
      assert blocks == front + [last] && blocks[1..] == front[1..] + [last];
      ConcatHead(front);
      ConcatSnoc(front, last);
      ConcatSnoc(front[1..], last);
      assert blocks[0] + Concat(front[1..]) + last == blocks[0] + (Concat(front[1..]) + last);
    }
  }

  /** Splitting finds the blocks that were put together. */
  lemma {:induction false} BlocksOfConcat(blocks: seq<seq<byte>>)
    requires AreBlocks(blocks)
    ensures BlocksOf(Concat(blocks)) == blocks
    decreases |blocks|
  {
    if blocks != [] {
      ConcatHead(blocks);
      BlocksOfConcat(blocks[1..]);
      assert Concat(blocks)[..64] == blocks[0] && Concat(blocks)[64..] == Concat(blocks[1..]);
      assert [blocks[0]] + blocks[1..] == blocks;
    }
  }

  /** How many zeros the padding has, from what is left in the buffer. */
  lemma {:induction false} ZerosOfTail(blocks: nat, tail: nat, n: nat)
    requires n == 64 * blocks + tail && tail < 64
    ensures n % 64 == tail
    ensures ZeroCount(n) == if tail <= 55 then 55 - tail else 119 - tail
  {
    DivModUnique(n, 64, blocks, tail);
  }

  /** With room for the length, the padded message is one block more. */
  lemma {:induction false} PadOneBlock(blocks: seq<seq<byte>>, tail: seq<byte>, length: seq<byte>, last: seq<byte>)
    requires AreBlocks(blocks) && |tail| <= 55 && |length| == 8
    requires last == tail + [0x80] + Zeros(55 - |tail|) + length
    ensures |last| == 64 && BlocksOf(Pad(Concat(blocks) + tail, length)) == blocks + [last]
  {
    ConcatLength(blocks);
    ZerosOfTail(|blocks|, |tail|, |Concat(blocks) + tail|);
    ConcatSnoc(blocks, last);
    BlocksOfConcat(blocks + [last]);
    assert Pad(Concat(blocks) + tail, length) == Concat(blocks) + last;
  }

  /** Without it, two blocks more. */
  lemma {:induction false} PadTwoBlocks(blocks: seq<seq<byte>>, tail: seq<byte>, length: seq<byte>, b: seq<byte>,
                                        last: seq<byte>)
    requires AreBlocks(blocks) && 55 < |tail| < 64 && |length| == 8
    requires b == tail + [0x80] + Zeros(63 - |tail|) && last == Zeros(56) + length
    ensures |b| == |last| == 64 && BlocksOf(Pad(Concat(blocks) + tail, length)) == blocks + [b] + [last]
  {
    ConcatLength(blocks);
    ZerosOfTail(|blocks|, |tail|, |Concat(blocks) + tail|);
    ConcatSnoc(blocks, b);
    ConcatSnoc(blocks + [b], last);
    BlocksOfConcat(blocks + [b] + [last]);
    assert Zeros(119 - |tail|) == Zeros(63 - |tail|) + Zeros(56);
    assert Pad(Concat(blocks) + tail, length) == Concat(blocks) + b + last;
  }

  // ----- helpers of the three implementations

  /** memcpy into a buffer. */
  method CopyBytes(dst: array<byte>, at: nat, src: seq<byte>)
    requires at + |src| <= dst.Length
    modifies dst
    ensures dst[..] == old(dst[..at]) + src + old(dst[at + |src|..])
  {
    ghost var before := dst[..];
    for i := 0 to |src|
      invariant forall j :: 0 <= j < i ==> dst[at + j] == src[j]
      invariant forall j :: 0 <= j < at || at + i <= j < dst.Length ==> dst[j] == before[j]
    {
      dst[at + i] := src[i];
    }
  }

  /** The 0x80 byte, then zeros up to `to`. */
  method PadBlock(block: array<byte>, at: nat, to: nat)
    requires at < to <= block.Length
    modifies block
    ensures block[..] == old(block[..at]) + [0x80] + Zeros(to - at - 1) + old(block[to..])
  {
    ghost var before := block[..];
    var i := at;
    block[i] := 0x80;
    i := i + 1;
    while i < to
      invariant at < i <= to && block[at] == 0x80
      invariant forall j :: at < j < i ==> block[j] == 0
      invariant forall j :: 0 <= j < at || i <= j < block.Length ==> block[j] == before[j]
    {
      block[i] := 0;
      i := i + 1;
    }
  }

  /** memset of a range to zero. */
  method ClearBytes(dst: array<byte>, from: nat, to: nat)
    requires from <= to <= dst.Length
    modifies dst
    ensures dst[..] == old(dst[..from]) + Zeros(to - from) + old(dst[to..])
  {
    ghost var before := dst[..];
    for i := from to to
      invariant forall j :: from <= j < i ==> dst[j] == 0
      invariant forall j :: 0 <= j < from || i <= j < dst.Length ==> dst[j] == before[j]
    {
      dst[i] := 0;
    }
  }

  /** Adding modulo 2^64. */
  lemma {:induction false} AddMod64(x: nat, d: nat)
    ensures (x % 0x1_0000_0000_0000_0000 + d) % 0x1_0000_0000_0000_0000 == (x + d) % 0x1_0000_0000_0000_0000
  {
    var w := 0x1_0000_0000_0000_0000;
    var q, r := x / w, x % w;
    var y := r + d;
    DivModUnique(x + d, w, q + y / w, y % w);
  }

  /** The state words as the digest bytes. */
  function WordsBig(words: Words): seq<byte> {
    if words == [] then [] else WordsBig(words[..|words| - 1]) + BigEndian(words[|words| - 1], 4)
  }

  function WordsLittle(words: Words): seq<byte> {
    if words == [] then [] else WordsLittle(words[..|words| - 1]) + LittleEndian(words[|words| - 1], 4)
  }

  // ----- the bit counter in two 32-bit words

  /** `n` bytes are counted as bits in `hi` and `lo`, modulo 2^64; `wraps` is what was lost. */
  ghost predicate Counted(n: nat, wraps: nat, hi: nat, lo: nat) {
    && hi < 0x1_0000_0000 && lo < 0x1_0000_0000
    && 8 * n == wraps * 0x1_0000_0000_0000_0000 + hi * 0x1_0000_0000 + lo
  }

  /** The counter after `cb` more bytes: a carry shows as a low word that got smaller. */
  function CountLow(lo: nat, cb: nat): nat {
    (lo + 8 * cb % 0x1_0000_0000) % 0x1_0000_0000
  }

  function CountHigh(hi: nat, lo: nat, cb: nat): nat {
    ((hi + if CountLow(lo, cb) < lo then 1 else 0) % 0x1_0000_0000 + cb / 0x2000_0000) % 0x1_0000_0000
  }

  lemma {:induction false} CountStep(n: nat, wraps: nat, hi: nat, lo: nat, cb: nat) returns (wraps': nat)
    requires Counted(n, wraps, hi, lo)
    ensures Counted(n + cb, wraps', CountHigh(hi, lo, cb), CountLow(lo, cb))
  {
    var w := 0x1_0000_0000;
    var q, r := cb / 0x2000_0000, cb % 0x2000_0000;
    DivModUnique(8 * cb, w, q, 8 * r);
    var lo' := CountLow(lo, cb);
    var c := if lo + 8 * r >= w then 1 else 0;
    DivModUnique(lo + 8 * r, w, c, lo + 8 * r - c * w);
    assert lo' < lo <==> c == 1;
    var h := (hi + c) % w + q;
    var c1, c2 := (hi + c) / w, h / w;
    wraps' := wraps + c1 + c2;
  }

  /** The counter is the length in bits, and tells how much of the last block is filled. */
  lemma {:induction false} CounterMeaning(m: seq<byte>, blocks: nat, tail: nat, wraps: nat, hi: nat, lo: nat)
    requires Counted(|m|, wraps, hi, lo) && |m| == 64 * blocks + tail && tail < 64
    ensures lo / 8 % 64 == tail && BitLength(m) == hi * 0x1_0000_0000 + lo
  {
    DivModUnique(8 * |m|, 0x1_0000_0000_0000_0000, wraps, hi * 0x1_0000_0000 + lo);
    var rest := |m| - wraps * 0x2000_0000_0000_0000 - hi * 0x2000_0000;
    assert lo == 8 * rest;
    DivModUnique(rest, 64, blocks - wraps * 0x80_0000_0000_0000 - hi * 0x80_0000, tail);
  }

  lemma {:induction false} LittleHalves(hi: nat, lo: nat)
    requires lo < 0x1_0000_0000
    ensures LittleEndian(hi * 0x1_0000_0000 + lo, 8) == LittleEndian(lo, 4) + LittleEndian(hi, 4)
  {
    LittleSplit(hi, lo, 4);
  }

  function Bytes256(n: nat): (p: nat)
    ensures p > 0
  {
    if n == 0 then 1 else 256 * Bytes256(n - 1)
  }

  /** Splitting off the lowest byte of a number that is put together from two parts. */
  lemma {:induction false} LowByte(hi: nat, lo: nat, b: nat) returns (x: nat)
    requires lo < 256 * b
    ensures x == hi * b + lo / 256 && hi * (256 * b) + lo == 256 * x + lo % 256 && lo / 256 < b
    ensures lo == 256 * (lo / 256) + lo % 256
  {
    x := hi * b + lo / 256;
    Regroup(hi, b);
  }

  lemma {:induction false} Regroup(a: nat, b: nat)
    ensures a * (256 * b) == 256 * (a * b)
  {}

  lemma {:induction false} LittleStep(x: nat, d: nat, n: nat)
    requires n > 0 && d < 256
    ensures LittleEndian(256 * x + d, n) == [d] + LittleEndian(x, n - 1)
  {
    DivModUnique(256 * x + d, 256, x, d);
  }

  lemma {:induction false} BigStep(x: nat, d: nat, n: nat)
    requires n > 0 && d < 256
    ensures BigEndian(256 * x + d, n) == BigEndian(x, n - 1) + [d]
  {
    DivModUnique(256 * x + d, 256, x, d);
  }

  lemma {:induction false} LittleSplit(hi: nat, lo: nat, n: nat)
    requires lo < Bytes256(n) && n <= 4
    ensures LittleEndian(hi * Bytes256(n) + lo, 4 + n) == LittleEndian(lo, n) + LittleEndian(hi, 4)
  {
    if n > 0 {
      var x := LowByte(hi, lo, Bytes256(n - 1));
      LittleSplit(hi, lo / 256, n - 1);
      LittleStep(x, lo % 256, 4 + n);
      LittleStep(lo / 256, lo % 256, n);
    }
  }

  lemma {:induction false} BigHalves(hi: nat, lo: nat)
    requires lo < 0x1_0000_0000
    ensures BigEndian(hi * 0x1_0000_0000 + lo, 8) == BigEndian(hi, 4) + BigEndian(lo, 4)
  {
    BigSplit(hi, lo, 4);
  }

  lemma {:induction false} BigSplit(hi: nat, lo: nat, n: nat)
    requires lo < Bytes256(n) && n <= 4
    ensures BigEndian(hi * Bytes256(n) + lo, 4 + n) == BigEndian(hi, 4) + BigEndian(lo, n)
  {
    if n > 0 {
      var x := LowByte(hi, lo, Bytes256(n - 1));
      BigSplit(hi, lo / 256, n - 1);
      BigStep(x, lo % 256, 4 + n);
      BigStep(lo / 256, lo % 256, n);
    }
  }
}
