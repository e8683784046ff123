/**
 Decoding one compressed block (section 3.2.3 of RFC 1951): literals, copies of earlier
 output, end of block; into a buffer that grows by doubling.
 */
module ZlibInflate {
  import opened Bits
  import opened BitSequence
  import opened ZlibHuffman
  import opened ZlibReader

  // ----- the alphabet of section 3.2.5

  function LengthBase(z: nat): nat
    requires 257 <= z < 288
  {
    [3, 4, 5, 6, 7, 8, 9, 10, 11, 13, 15, 17, 19, 23, 27, 31, 35, 43, 51, 59,
     67, 83, 99, 115, 131, 163, 195, 227, 258, 0, 0][z - 257]
  }

  function LengthExtra(z: nat): nat
    requires 257 <= z < 288
  {
    [0, 0, 0, 0, 0, 0, 0, 0, 1, 1, 1, 1, 2, 2, 2, 2, 3, 3, 3, 3, 4, 4, 4, 4, 5, 5, 5, 5, 0, 0, 0][z - 257]
  }

  function DistBase(d: nat): nat
    requires d < 32
  {
    [1, 2, 3, 4, 5, 7, 9, 13, 17, 25, 33, 49, 65, 97, 129, 193,
     257, 385, 513, 769, 1025, 1537, 2049, 3073, 4097, 6145, 8193, 12289, 16385, 24577, 0, 0][d]
  }

  function DistExtra(d: nat): nat
    requires d < 32
  {
    [0, 0, 0, 0, 1, 1, 2, 2, 3, 3, 4, 4, 5, 5, 6, 6, 7, 7, 8, 8, 9, 9, 10, 10, 11, 11, 12, 12, 13, 13, 0, 0][d]
  }

  // ----- what a block means

  /** Append `len` bytes, each the one `dist` positions back; source and target may overlap. */
  function CopyBack(out: seq<byte>, dist: nat, len: nat): (r: seq<byte>)
    requires 1 <= dist <= |out|
    ensures |r| == |out| + len
    decreases len
  {
    if len == 0 then out else CopyBack(out + [out[|out| - dist]], dist, len - 1)
  }

  datatype Outcome = More(pos: nat, out: seq<byte>) | Ended(pos: nat, out: seq<byte>) | Bad

  /** One literal, one copy, or the end of the block. */
  ghost function Step(ll: seq<nat>, dl: seq<nat>, data: seq<byte>, pos: nat, out: seq<byte>): Outcome
  {
    var z := NextSymbol(ll, data, pos);
    if z < 0 || z >= |ll| then Bad
    else if z < 256 then More(pos + ll[z], out + [z])
    else if z == 256 then Ended(pos + ll[z], out)
    else if z >= 286 then Bad
    else
      var p1 := pos + ll[z];
      var p2 := p1 + LengthExtra(z);
      var len := LengthBase(z) + Lsb(data, p1, LengthExtra(z));
      CopyStep(dl, data, p2, out, len)
  }

  /** The distance half of a copy. */
  ghost function CopyStep(dl: seq<nat>, data: seq<byte>, pos: nat, out: seq<byte>, len: nat): Outcome
  {
    var d := NextSymbol(dl, data, pos);
    if d < 0 || d >= |dl| || d >= 30 then Bad
    else
      var p1 := pos + dl[d];
      var dist := DistBase(d) + Lsb(data, p1, DistExtra(d));
      if dist > |out| then Bad else More(p1 + DistExtra(d), CopyBack(out, dist, len))
  }

  /** The state after `n` steps. */
  ghost function Run(ll: seq<nat>, dl: seq<nat>, data: seq<byte>, pos: nat, out: seq<byte>, n: nat): Outcome
  {
    if n == 0 then More(pos, out)
    else match Run(ll, dl, data, pos, out, n - 1)
         case More(p, o) => Step(ll, dl, data, p, o)
         case other => other
  }

  /** The block that starts at bit `pos` decodes to `out'`, appended to nothing else, ending at bit `pos'`. */
  ghost predicate Decodes(ll: seq<nat>, dl: seq<nat>, data: seq<byte>, pos: nat, out: seq<byte>, pos': nat,
                          out': seq<byte>) {
    exists n: nat :: Run(ll, dl, data, pos, out, n) == Ended(pos', out')
  }

  lemma {:induction false} StepMovesOn(ll: seq<nat>, dl: seq<nat>, data: seq<byte>, pos: nat, out: seq<byte>)
    ensures var s := Step(ll, dl, data, pos, out); s.Bad? || (s.pos >= pos && |s.out| >= |out|)
  {}

  lemma {:induction false} EndedStays(ll: seq<nat>, dl: seq<nat>, data: seq<byte>, pos: nat, out: seq<byte>, m: nat,
                                      n: nat)
    requires m <= n && !Run(ll, dl, data, pos, out, m).More?
    ensures Run(ll, dl, data, pos, out, n) == Run(ll, dl, data, pos, out, m)
    decreases n
  {
    hide Step;
    if m < n {
      EndedStays(ll, dl, data, pos, out, m, n - 1);
    }
  }

  /** Nothing comes of this state that ends within `bound` bits and with less than `size` bytes. */
  predicate Past(s: Outcome, bound: nat, size: nat) {
    s.Bad? || s.pos > bound || |s.out| >= size
  }

  /** If step k + 1 fails, passes `bound` or reaches `size`, the block does not end before. */
  lemma {:induction false} EndsBeyond(ll: seq<nat>, dl: seq<nat>, data: seq<byte>, pos: nat, out: seq<byte>, k: nat,
                                      bound: nat, size: nat, n: nat)
    requires Run(ll, dl, data, pos, out, k).More?
    requires Past(Run(ll, dl, data, pos, out, k + 1), bound, size)
    ensures Run(ll, dl, data, pos, out, n).Ended? || n > k ==> Past(Run(ll, dl, data, pos, out, n), bound, size)
    decreases n
  {
    if n <= k {
      if !Run(ll, dl, data, pos, out, n).More? {
        EndedStays(ll, dl, data, pos, out, n, k);
      }
    } else if n > k + 1 {
      EndsBeyond(ll, dl, data, pos, out, k, bound, size, n - 1);
      var s := Run(ll, dl, data, pos, out, n - 1);
      if s.More? {
        StepMovesOn(ll, dl, data, s.pos, s.out);
      }
    }
  }

  /** A block has at most one decoding. */
  lemma {:induction false} DecodesOnce(ll: seq<nat>, dl: seq<nat>, data: seq<byte>, pos: nat, out: seq<byte>,
                                       p1: nat, o1: seq<byte>, p2: nat, o2: seq<byte>)
    requires Decodes(ll, dl, data, pos, out, p1, o1) && Decodes(ll, dl, data, pos, out, p2, o2)
    ensures p1 == p2 && o1 == o2
  {
    var m: nat :| Run(ll, dl, data, pos, out, m) == Ended(p1, o1);
    var n: nat :| Run(ll, dl, data, pos, out, n) == Ended(p2, o2);
    if m <= n {
      EndedStays(ll, dl, data, pos, out, m, n);
    } else {
      EndedStays(ll, dl, data, pos, out, n, m);
    }
  }

  /** A copy keeps what was there, and every new byte equals the one `dist` positions before it. */
  lemma {:induction false} CopyRepeats(out: seq<byte>, dist: nat, len: nat, k: nat)
    requires 1 <= dist <= |out| && k < |out| + len
    ensures var r := CopyBack(out, dist, len); r[k] == if k < |out| then out[k] else r[k - dist]
    decreases len
  {
    if len > 0 {
      var next := out + [out[|out| - dist]];
      CopyRepeats(next, dist, len - 1, k);
      if k == |out| {
        CopyRepeats(next, dist, len - 1, k - dist);
      }
    }
  }

  // ----- the output buffer

  class Output {
    var zout_start: array<byte>
    var zout: nat                    // bytes written
    const expandable: bool

    ghost predicate Valid()
      reads this
    {
      zout <= zout_start.Length && 0 < zout_start.Length <= 0xffff_ffff
    }

    /** Everything written so far. */
    ghost function Written(): (w: seq<byte>)
      reads this, zout_start
      requires Valid()
      ensures |w| == zout
    {
      zout_start[..zout]
    }

    /** So many bytes do not fit: the buffer is too small, and may not grow to that size. */
    ghost predicate TooLarge(size: nat)
      reads this
    {
      size > zout_start.Length && (!expandable || size > 0x7fff_ffff)
    }

    constructor (initial: nat, expandable: bool)
      requires 0 < initial <= 0xffff_ffff
      ensures Valid() && fresh(zout_start) && Written() == [] && this.expandable == expandable
      ensures zout_start.Length == initial
    {
      zout_start := new byte[initial](_ => 0);
      zout := 0;
      this.expandable := expandable;
    }

    /**
     stbi__zexpand makes room for `n` more bytes by doubling, and keeps what was written. It refuses
     only fixed buffers and sizes from 2^31 on.
     */
    method Expand(n: nat) returns (ok: bool)
      requires Valid() && n <= 0xffff_ffff
      modifies this`zout_start
      ensures Valid() && Written() == old(Written())
      ensures zout_start == old(zout_start) || fresh(zout_start)
      ensures zout_start.Length >= old(zout_start.Length)
      ensures ok ==> zout + n <= zout_start.Length
      ensures !ok ==> zout_start == old(zout_start) && (!expandable || zout + n > 0x7fff_ffff)
    {
      if !expandable {
        return false;
      }
      var limit := zout_start.Length;
      if 0xffff_ffff - zout < n {
        return false;
      }
      while zout + n > limit
        invariant 0 < zout_start.Length <= limit <= 0xffff_ffff
        decreases zout + n - limit
      {
        if limit > 0x7fff_ffff {
          return false;
        }
        limit := limit * 2;
      }
      var q := new byte[limit](i requires 0 <= i < limit reads this, zout_start =>
        if i < zout_start.Length then zout_start[i] else 0);
      zout_start := q;
      return true;
    }

    method Put(b: byte)
      requires Valid() && zout < zout_start.Length
      modifies this`zout, zout_start
      ensures Valid() && Written() == old(Written()) + [b] && zout == old(zout) + 1
    {
      zout_start[zout] := b;
      zout := zout + 1;
    }

    /** Put a byte, in a larger buffer if need be. */
    method PutOrExpand(b: byte) returns (ok: bool)
      requires Valid()
      modifies this`zout, this`zout_start, zout_start
      ensures Valid() && (zout_start == old(zout_start) || fresh(zout_start))
      ensures zout_start.Length >= old(zout_start.Length)
      ensures ok ==> Written() == old(Written()) + [b] && zout == old(zout) + 1
      ensures !ok ==> Written() == old(Written()) && TooLarge(|Written()| + 1)
    {
      if zout >= zout_start.Length {
        ok := Expand(1);
        if !ok {
          return false;
        }
      }
      Put(b);
      return true;
    }

    /** Room for `n` more bytes, in a larger buffer if need be. */
    method MakeRoom(n: nat) returns (ok: bool)
      requires Valid() && n <= 0xffff
      modifies this`zout_start
      ensures Valid() && Written() == old(Written()) && (zout_start == old(zout_start) || fresh(zout_start))
      ensures zout_start.Length >= old(zout_start.Length)
      ensures ok ==> zout + n <= zout_start.Length
      ensures !ok ==> TooLarge(|Written()| + n)
    {
      ok := true;
      if n > zout_start.Length - zout {
        ok := Expand(n);
      }
    }

    /** memcpy to the end of what was written. */
    method Append(bytes: seq<byte>)
      requires Valid() && zout + |bytes| <= zout_start.Length
      modifies this`zout, zout_start
      ensures Valid() && Written() == old(Written()) + bytes && zout == old(zout) + |bytes|
    {
      for i := 0 to |bytes|
        invariant Valid() && zout == old(zout) + i && zout + |bytes| - i <= zout_start.Length
        invariant Written() == old(Written()) + bytes[..i]
      {
        Put(bytes[i]);
      }
    }

    /** The copy loops of stbi__parse_huffman_block: a run of one byte, or byte by byte. */
    method Copy(dist: nat, n: nat)
      requires Valid() && 1 <= dist <= zout && zout + n <= zout_start.Length
      modifies this`zout, zout_start
      ensures Valid() && Written() == CopyBack(old(Written()), dist, n) && zout == old(zout) + n
    {
      ghost var goal := CopyBack(Written(), dist, n);
      var p := zout - dist;
      var len := n;
      if dist == 1 {
        var v := zout_start[p];
        while len > 0
          invariant Valid() && zout + len == old(zout) + n
          invariant zout > 0 && zout_start[zout - 1] == v
          invariant CopyBack(Written(), 1, len) == goal
        {
          assert Written()[|Written()| - 1] == v;
          Put(v);
          len := len - 1;
        }
      } else {
        while len > 0
          invariant Valid() && zout + len == old(zout) + n && p == zout - dist
          invariant CopyBack(Written(), dist, len) == goal
        {
          assert Written()[|Written()| - dist] == zout_start[p];
          Put(zout_start[p]);
          p := p + 1;
          len := len - 1;
        }
      }
    }
  }

  // ----- stbi__parse_huffman_block

  /** Copies are 3 to 258 bytes long and reach at most 32768 bytes back. */
  lemma {:induction false} CopyLengthBound(z: nat, x: nat)
    requires 257 <= z < 286 && x < Pow2(LengthExtra(z))
    ensures LengthExtra(z) <= 5 && 3 <= LengthBase(z) + x <= 258
  {
    assert Pow2(0) == 1 && Pow2(1) == 2 && Pow2(2) == 4 && Pow2(3) == 8 && Pow2(4) == 16 && Pow2(5) == 32;
  }

  lemma {:induction false} CopyDistanceBound(d: nat, y: nat)
    requires d < 30 && y < Pow2(DistExtra(d))
    ensures DistExtra(d) <= 13 && 1 <= DistBase(d) + y <= 32768
  {
    Pow2Consts();
    assert Pow2(0) == 1 && Pow2(1) == 2 && Pow2(2) == 4 && Pow2(3) == 8 && Pow2(4) == 16 && Pow2(5) == 32;
    assert Pow2(6) == 64 && Pow2(7) == 128 && Pow2(8) == 256 && Pow2(9) == 512 && Pow2(10) == 1024;
    assert Pow2(11) == 2048 && Pow2(12) == 4096 && Pow2(13) == 8192;
  }

  datatype Status = Ok | Corrupt | NoRoom

  /** Decode a distance; zero stands for an error. */
  method ParseDistance(a: ZBuf, zd: ZHuffman, ghost dl: seq<nat>) returns (dist: nat)
    requires a.Valid() && zd.Built(dl)
    modifies a
    ensures a.Valid() && a.pos >= old(a.pos) && a.Limit() >= old(a.Limit())
    ensures var d := NextSymbol(dl, a.data, old(a.pos));
      && (dist > 0 ==> 0 <= d < |dl| && d < 30)
      && (dist > 0 ==> dist == DistBase(d) + Lsb(a.data, old(a.pos) + dl[d], DistExtra(d)))
      && (dist > 0 ==> a.pos == old(a.pos) + dl[d] + DistExtra(d))
      && (dist == 0 ==> d < 0 || d >= 30 || old(a.pos) > a.Limit())
  {
    hide DistBase, DistExtra, Lsb, NextSymbol, ZHuffman.Built, ZBuf.Valid;
    var d := a.Decode(zd, dl);
    if d < 0 || d >= 30 {
      return 0;
    }
    LsbBound(a.data, a.pos, DistExtra(d));
    CopyDistanceBound(d, Lsb(a.data, a.pos, DistExtra(d)));
    var y := a.Receive(DistExtra(d));
    dist := DistBase(d) + y;
  }

  /** Decode the length of a copy whose symbol is `z`, then its distance, then copy. */
  method ParseCopy(a: ZBuf, o: Output, zd: ZHuffman, z: nat, ghost dl: seq<nat>) returns (status: Status)
    requires a.Valid() && o.Valid() && zd.Built(dl) && 257 <= z < 286 && o.zout_start !in zd.Arrays()
    modifies a, o, o.zout_start
    ensures a.Valid() && o.Valid() && (o.zout_start == old(o.zout_start) || fresh(o.zout_start))
    ensures o.zout_start.Length >= old(o.zout_start.Length)
    ensures zd.Built(dl) && a.pos >= old(a.pos) && a.Limit() >= old(a.Limit())
    ensures var len := LengthBase(z) + Lsb(a.data, old(a.pos), LengthExtra(z));
      var s := CopyStep(dl, a.data, old(a.pos) + LengthExtra(z), old(o.Written()), len);
      && (status == Ok ==> s == More(a.pos, o.Written()) && o.zout >= old(o.zout) + 3)
      && (status == Corrupt ==> s.Bad? || s.pos > a.Limit())
      && (status == NoRoom ==> s.More? && o.TooLarge(|s.out|))
  {
    hide LengthBase, LengthExtra, DistBase, DistExtra, CopyBack, Lsb, NextSymbol, ZHuffman.Built, ZBuf.Valid;
    LsbBound(a.data, a.pos, LengthExtra(z));
    CopyLengthBound(z, Lsb(a.data, a.pos, LengthExtra(z)));
    ghost var out := o.Written();
    var x := a.Receive(LengthExtra(z));
    var len := LengthBase(z) + x;
    var dist := ParseDistance(a, zd, dl);
    if dist == 0 {
      return Corrupt;
    }
    if o.zout < dist {
      return Corrupt;
    }
    var ok := o.MakeRoom(len);
    if !ok {
      return NoRoom;
    }
    o.Copy(dist, len);
    return Ok;
  }

  /** If the next step of a run fails or needs more than `bound` bits, so does every decoding. */
  lemma {:induction false} NeverEndsWithin(ll: seq<nat>, dl: seq<nat>, data: seq<byte>, pos: nat, out: seq<byte>,
                                           k: nat, bound: nat)
    requires Run(ll, dl, data, pos, out, k).More?
    requires var s := Run(ll, dl, data, pos, out, k + 1); s.Bad? || s.pos > bound
    ensures forall p: nat, o: seq<byte> :: Decodes(ll, dl, data, pos, out, p, o) ==> p > bound
  {
    forall p: nat, o: seq<byte> | Decodes(ll, dl, data, pos, out, p, o) ensures p > bound {
      var n: nat :| Run(ll, dl, data, pos, out, n) == Ended(p, o);
      EndsBeyond(ll, dl, data, pos, out, k, bound, |o| + 1, n);
    }
  }

  /** If the next step of a run brings the output to `size` bytes, every decoding has that many. */
  lemma {:induction false} NeverFits(ll: seq<nat>, dl: seq<nat>, data: seq<byte>, pos: nat, out: seq<byte>, k: nat,
                                     size: nat)
    requires Run(ll, dl, data, pos, out, k).More?
    requires var s := Run(ll, dl, data, pos, out, k + 1); s.More? && |s.out| >= size
    ensures forall p: nat, o: seq<byte> :: Decodes(ll, dl, data, pos, out, p, o) ==> |o| >= size
  {
    forall p: nat, o: seq<byte> | Decodes(ll, dl, data, pos, out, p, o) ensures |o| >= size {
      var n: nat :| Run(ll, dl, data, pos, out, n) == Ended(p, o);
      EndsBeyond(ll, dl, data, pos, out, k, p, size, n);
    }
  }

  /** One round of stbi__parse_huffman_block: a literal, a copy, or the end of the block. */
  method ParseSymbol(a: ZBuf, o: Output, zl: ZHuffman, zd: ZHuffman, ghost ll: seq<nat>, ghost dl: seq<nat>)
    returns (status: Status, ended: bool)
    requires a.Valid() && o.Valid() && zl.Built(ll) && zd.Built(dl)
    requires o.zout_start !in zl.Arrays() && o.zout_start !in zd.Arrays()
    modifies a, o, o.zout_start
    ensures a.Valid() && o.Valid() && (o.zout_start == old(o.zout_start) || fresh(o.zout_start))
    ensures o.zout_start.Length >= old(o.zout_start.Length)
    ensures zl.Built(ll) && zd.Built(dl) && a.Limit() >= old(a.Limit())
    ensures var s := Step(ll, dl, a.data, old(a.pos), old(o.Written()));
      && (status == Ok && !ended ==> s == More(a.pos, o.Written()) && o.zout > old(o.zout))
      && (status == Ok && ended ==> s == Ended(a.pos, o.Written()) && a.pos <= a.Limit())
      && (status == Corrupt ==> s.Bad? || s.pos > a.Limit())
      && (status == NoRoom ==> s.More? && o.TooLarge(|s.out|))
  {
    hide CopyBack, Lsb, NextSymbol, ZHuffman.Built, LengthBase, LengthExtra, CopyStep, Output.Written;
    StepMovesOn(ll, dl, a.data, a.pos, o.Written());
    var z := a.Decode(zl, ll);
    if z < 0 {
      return Corrupt, true;
    }
    if z < 256 {
      var ok := o.PutOrExpand(z);
      return if ok then Ok else NoRoom, false;
    }
    if z == 256 {
      a.GuardIsLimit();
      if a.hit_zeof_once && a.num_bits < 16 {
        return Corrupt, true;
      }
      return Ok, true;
    }
    if z >= 286 {
      return Corrupt, true;
    }
    status := ParseCopy(a, o, zd, z, dl);
    return status, false;
  }

  /**
   stbi__parse_huffman_block. A block that decodes, zeros behind the data included, and for which there is room,
   is accepted exactly if it ends within the limit; what is appended is then the decoding. Running out of room
   means that no decoding fits in the output buffer, nor in one that could be had.
   */
  method ParseHuffmanBlock(a: ZBuf, o: Output, zl: ZHuffman, zd: ZHuffman, ghost ll: seq<nat>, ghost dl: seq<nat>)
    returns (status: Status)
    requires a.Valid() && o.Valid() && zl.Built(ll) && zd.Built(dl)
    requires o.zout_start !in zl.Arrays() && o.zout_start !in zd.Arrays()
    modifies a, o, o.zout_start
    ensures a.Valid() && o.Valid() && (o.zout_start == old(o.zout_start) || fresh(o.zout_start))
    ensures o.zout_start.Length >= old(o.zout_start.Length)
    ensures a.Limit() >= old(a.Limit())
    ensures status == Ok ==>
      Decodes(ll, dl, a.data, old(a.pos), old(o.Written()), a.pos, o.Written()) && a.pos <= a.Limit()
    ensures status == Corrupt ==>
      forall p: nat, w: seq<byte> :: Decodes(ll, dl, a.data, old(a.pos), old(o.Written()), p, w) ==> p > a.Limit()
    ensures status == NoRoom ==>
      forall p: nat, w: seq<byte> :: Decodes(ll, dl, a.data, old(a.pos), old(o.Written()), p, w) ==> o.TooLarge(|w|)
  {
    hide Step, ZHuffman.Built, ZBuf.Valid, Output.Written;
    ghost var start, out := a.pos, o.Written();
    ghost var k := 0;
    while true
      invariant a.Valid() && o.Valid() && zl.Built(ll) && zd.Built(dl) && a.Limit() >= old(a.Limit())
      invariant o.zout_start == old(o.zout_start) || fresh(o.zout_start)
      invariant o.zout_start.Length >= old(o.zout_start.Length)
      invariant o.zout_start !in zl.Arrays() && o.zout_start !in zd.Arrays()
      invariant Run(ll, dl, a.data, start, out, k) == More(a.pos, o.Written())
      decreases 0xffff_ffff - o.zout
    {
      ghost var next := Run(ll, dl, a.data, start, out, k + 1);
      assert next == Step(ll, dl, a.data, a.pos, o.Written());
      var ended;
      status, ended := ParseSymbol(a, o, zl, zd, ll, dl);
      if status == Corrupt {
        NeverEndsWithin(ll, dl, a.data, start, out, k, a.Limit());
        return;
      }
      if status == NoRoom {
        NeverFits(ll, dl, a.data, start, out, k, |next.out|);
        return;
      }
      if ended {
        return;
      }
      k := k + 1;
    }
  }
}
