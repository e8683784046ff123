/**
 The bit buffer of stb's JPEG reader. The entropy-coded data ends at a marker; 0xff is
 followed by a stuffed zero byte, and fill bytes 0xff may come before either.
 */
module JpegReader {
  import opened Bits
  import opened BitSequence
  import opened BitStream
  import opened CanonicalCodes
  import opened JpegCodes
  import opened JpegHuffman
  import opened JpegFastAc

  /** Where a run of fill bytes that starts at `i` ends. */
  function SkipFill(raw: seq<byte>, i: nat): (j: nat)
    requires i <= |raw|
    ensures i <= j <= |raw| && (j < |raw| ==> raw[j] != 0xff)
    decreases |raw| - i
  {
    if i < |raw| && raw[i] == 0xff then SkipFill(raw, i + 1) else i
  }

  /** The entropy-coded bytes from `i` up to the next marker, without stuffing (sections B.1.1.2 and B.1.1.5). */
  function Unstuff(raw: seq<byte>, i: nat): seq<byte>
    requires i <= |raw|
    decreases |raw| - i
  {
    if i == |raw| then []
    else if raw[i] != 0xff then [raw[i]] + Unstuff(raw, i + 1)
    else
      var j := SkipFill(raw, i + 1);
      if j == |raw| then [0xff]
      else if raw[j] == 0 then [0xff] + Unstuff(raw, j + 1)
      else []
  }

  lemma {:induction false} MsbPastEnd(data: seq<byte>, pos: nat, n: nat)
    requires pos >= 8 * |data|
    ensures Msb(data, pos, n) == 0
  {
    if n > 0 {
      MsbPastEnd(data, pos, n - 1);
      BitOfZero(7 - (pos + n - 1) % 8);
    }
  }

  /** The top of the buffer is the next bits, if enough are there or the data has run out. */
  lemma {:induction false} TopOfBuffer(data: seq<byte>, pos: nat, bits: nat, n: nat)
    requires bits <= 32 && n <= 32 && (n <= bits || pos + bits >= 8 * |data|)
    ensures Shr(Shl(Msb(data, pos, bits), 32 - bits), 32 - n) == Msb(data, pos, n)
  {
    hide Shl, Shr, Msb;
    if n <= bits {
      TopBits(data, pos, bits, n);
    } else {
      var x := Msb(data, pos, bits);
      assert bits + (n - bits) == n && (n - bits) + (32 - n) == 32 - bits;
      MsbSplit(data, pos, bits, n - bits);
      MsbPastEnd(data, pos + bits, n - bits);
      ShlShl(x, n - bits, 32 - n);
      ShrOfShl(Shl(x, n - bits), 32 - n);
    }
  }

  /** Rotate a 32-bit word left. */
  function RotateLeft(x: nat, n: nat): nat
    requires n < 32
  {
    Or(Low(Shl(x, n), 32), Shr(x, (32 - n) % 32))
  }

  function HighMask(n: nat): nat
    requires n <= 16
  {
    Pow2Mono(n, 16);
    Pow2Consts();
    0xffff_ffff - (Pow2(n) - 1)
  }

  /** Rotating brings the top bits to the bottom, where the mask separates them from the rest. */
  lemma {:induction false} RotateSplits(x: nat, n: nat)
    requires x < 0x1_0000_0000 && n <= 16
    ensures And(RotateLeft(x, n), HighMask(n)) == Low(Shl(x, n), 32)
    ensures And(RotateLeft(x, n), Pow2(n) - 1) == if n == 0 then 0 else Shr(x, 32 - n)
  {
    hide Shl, Shr, Low, Or, And, Pow2;
    var w, top := 32 - n, Shr(x, (32 - n) % 32);
    Pow2Consts();
    Pow2Split(w, n);
    Split(x, w);
    ShlSum(Shl(Shr(x, w), w), Low(x, w), n);
    ShlShl(Shr(x, w), w, n);
    ShlMono(Low(x, w), Pow2(w), n);
    Join(Shr(x, w), Shl(Low(x, w), n), 32);
    var rot := RotateLeft(x, n);
    assert Low(Shl(x, n), 32) == Shl(Low(x, w), n);
    if n == 0 {
      RotateByZero(x);
    } else {
      ShrBelow(x, Pow2(n), w);
      Pow2Split(n, w);
      OrDisjoint(top, Low(x, w), n);
      assert rot == Shl(Low(x, w), n) + top;
    }
    RotatedHalves(Low(x, w), if n == 0 then 0 else top, n);
  }

  lemma {:induction false} RotateByZero(x: nat)
    requires x < 0x1_0000_0000
    ensures RotateLeft(x, 0) == x && Shl(x, 0) == x && Low(x, 32) == x && Shr(x, 32) == 0
  {
    SmallWord(x);
    Pow2Consts();
    LowSmall(x, 32);
    assert Shr(x, 0) == x;
    OrSame(x);
  }

  lemma {:induction false} OrSame(x: nat)
    ensures Or(x, x) == x
  {
    if x > 0 {
      OrSame(x / 2);
    }
  }

  lemma {:induction false} RotatedHalves(lo: nat, top: nat, n: nat)
    requires n <= 16 && lo < Pow2(32 - n) && top < Pow2(n)
    ensures And(Shl(lo, n) + top, HighMask(n)) == Shl(lo, n)
    ensures And(Shl(lo, n) + top, Pow2(n) - 1) == top
  {
    hide Shl, Shr, Low, Or, And, Pow2;
    Pow2Consts();
    Join(lo, top, n);
    AndMask(Shl(lo, n) + top, n);
    Pow2Split(32 - n, n);
    ShlSum(Pow2(32 - n) - 1, 1, n);
    ShlOne(n);
    AndHigh(Shl(lo, n) + top, Pow2(32 - n) - 1, n);
    AndMask(lo, 32 - n);
    LowSmall(lo, 32 - n);
  }

  lemma {:induction false} HeadOf(s: seq<byte>, n: nat, b: byte, rest: seq<byte>)
    requires n <= |s| && s[n..] == [b] + rest
    ensures n < |s| && s[n] == b && s[n + 1..] == rest
  {
    assert s[n..][0] == b && s[n..][1..] == rest;
  }

  class JReader {
    const raw: seq<byte>
    var at: nat                       // next byte of the file
    var code_buffer: nat              // uint32: unread bits, left aligned
    var code_bits: nat
    var nomore: bool                  // a marker was met
    ghost const stream: seq<byte>     // the entropy-coded bytes
    ghost var pos: nat                // bits consumed
    ghost var loaded: nat             // bytes moved to the buffer

    /** What is in the buffer, followed by what is still to be unstuffed, is the stream. */
    ghost predicate Valid()
      reads this
    {
      && at <= |raw| && code_bits <= 32 && pos + code_bits == 8 * loaded
      && code_buffer == Shl(Msb(stream, pos, code_bits), 32 - code_bits)
      && Rest() == if loaded <= |stream| then stream[loaded..] else []
    }

    ghost function Rest(): seq<byte>
      reads this
      requires at <= |raw|
    {
      if nomore then [] else Unstuff(raw, at)
    }

    /** As many bits as fit are buffered, or all of them are. */
    ghost predicate Filled(n: nat)
      reads this
    {
      code_bits >= n || pos + code_bits >= 8 * |stream|
    }

    constructor (raw: seq<byte>, start: nat)
      requires start <= |raw|
      ensures Valid() && pos == 0 && stream == Unstuff(raw, start)
    {
      ShlZero(32);
      this.raw, at, code_buffer, code_bits, nomore := raw, start, 0, 0, false;
      stream, pos, loaded := Unstuff(raw, start), 0, 0;
    }

    method Get8() returns (b: byte)
      requires at <= |raw|
      modifies this`at
      ensures b == ByteAt(raw, old(at)) && at == if old(at) < |raw| then old(at) + 1 else old(at)
    {
      if at >= |raw| {
        return 0;
      }
      b := raw[at];
      at := at + 1;
    }

    /** One byte of the stream, or the news that a marker was met. */
    method NextByte() returns (b: byte, ended: bool)
      requires Valid()
      modifies this`at, this`nomore
      ensures at <= |raw| && (old(nomore) ==> !ended && nomore)
      ensures !ended ==> b == ByteAt(stream, loaded)
      ensures !ended ==> Rest() == if loaded + 1 <= |stream| then stream[loaded + 1..] else []
      ensures ended ==> nomore && loaded >= |stream|
    {
      if nomore {
        return 0, false;
      }
      b := Get8();
      if b == 0xff {
        var c := Get8();
        while c == 0xff
          invariant old(at) + 1 <= at <= |raw| && !nomore
          invariant c == 0xff ==> SkipFill(raw, old(at) + 1) == SkipFill(raw, at)
          invariant c != 0xff ==> var j := SkipFill(raw, old(at) + 1);
            c == ByteAt(raw, j) && at == if j < |raw| then j + 1 else j
          decreases |raw| - at, c
        {
          c := Get8();
        }
        if c != 0 {
          nomore := true;
          return b, true;
        }
      }
      if old(at) < |raw| {
        assert Unstuff(raw, old(at)) == [b] + Unstuff(raw, at);
        HeadOf(stream, loaded, b, Unstuff(raw, at));
      } else {
        assert loaded >= |stream|;
      }
      return b, false;
    }

    /** stbi__grow_buffer_unsafe loads bytes until more than 24 bits are there, or a marker is met. */
    method GrowBuffer()
      requires Valid() && code_bits <= 24
      modifies this`at, this`nomore, this`code_buffer, this`code_bits, this`loaded
      ensures Valid() && Filled(25) && code_bits >= old(code_bits)
    {
      hide Msb, Shl, Unstuff;
      while true
        invariant Valid() && old(code_bits) <= code_bits <= 24
        decreases 24 - code_bits
      {
        var b, ended := NextByte();
        if ended {
          return;
        }
        AppendByte(stream, pos, code_bits, loaded, code_buffer);
        code_buffer := Or(code_buffer, Shl(b, 24 - code_bits));
        code_bits := code_bits + 8;
        loaded := loaded + 1;
        if code_bits > 24 {
          return;
        }
      }
    }

    /** Drop the top `n` bits. */
    method Consume(n: nat)
      requires Valid() && n <= code_bits
      modifies this`code_buffer, this`code_bits, this`pos
      ensures Valid() && pos == old(pos) + n && code_bits == old(code_bits) - n
    {
      ShiftOut(stream, pos, code_bits, n);
      code_buffer := Low(Shl(code_buffer, n), 32);
      code_bits := code_bits - n;
      pos := pos + n;
    }

    /** The next nine bits. */
    method PeekFast() returns (c: nat)
      requires Valid() && Filled(16)
      ensures c == Msb(stream, pos, 9) == Shr(Msb(stream, pos, 16), 7) < 512
    {
      hide Msb, Shl, Shr, Unstuff;
      TopOfBuffer(stream, pos, code_bits, 9);
      MsbBound(stream, pos, 9);
      assert Pow2(9) == 512 && 9 + 7 == 16;
      MsbPrefix(stream, pos, 9, 7);
      AndMask(Shr(code_buffer, 32 - 9), 9);
      LowSmall(Msb(stream, pos, 9), 9);
      c := And(Shr(code_buffer, 32 - 9), 511);
    }

    /**
     stbi__jpeg_huff_decode returns the symbol that the tables name and consumes its code. It fails
     exactly if they name none, or a code that runs past the end of the data.
     */
    method Decode(h: JHuffman, ghost sizes: seq<nat>) returns (v: int)
      requires Valid() && h.Built(sizes)
      modifies this
      ensures var found := Lookup(sizes, Msb(stream, old(pos), 16));
        && (v >= 0 ==> Valid() && found.Symbol? && found.id < 256 && v == h.values[found.id]
                       && pos == old(pos) + found.length && found.length > 0)
        && (v < 0 ==> found.Nothing? || old(pos) + found.length > 8 * |stream|)
    {
      hide Msb, Shl, Shr, Unstuff, Below, Before, NextCode, NotOversubscribed, SymbolCode, FastEntry, Or, And, Low;
      if code_bits < 16 {
        GrowBuffer();
      }
      ghost var window := Msb(stream, pos, 16);
      var c := PeekFast();
      var k := h.fast[c];
      if k < 255 {
        var s := h.size[k];
        if s > code_bits {
          return -1;
        }
        Consume(s);
        return h.values[k];
      }
      v := DecodeSlow(h, sizes);
    }

    /** The part of stbi__jpeg_huff_decode that compares against one threshold per length. */
    method DecodeSlow(h: JHuffman, ghost sizes: seq<nat>) returns (v: int)
      requires Valid() && Filled(16) && h.Built(sizes)
      requires FastEntry(sizes, Shr(Msb(stream, pos, 16), 7), |sizes|) == 255
      modifies this`code_buffer, this`code_bits, this`pos
      ensures var found := Lookup(sizes, Msb(stream, old(pos), 16));
        && (v >= 0 ==> Valid() && found.Symbol? && found.id < 256 && v == h.values[found.id]
                       && pos == old(pos) + found.length && found.length > 0)
        && (v < 0 ==> found.Nothing? || old(pos) + found.length > 8 * |stream|)
    {
      hide Msb, Shl, Shr, Unstuff, Below, Before, NextCode, NotOversubscribed, SymbolCode, FastEntry, Or, And, Low;
      ghost var window := Msb(stream, pos, 16);
      TopOfBuffer(stream, pos, code_bits, 16);
      MsbBound(stream, pos, 16);
      Pow2Consts();
      var temp, k := Shr(code_buffer, 16), 10;
      while true
        invariant 10 <= k <= 17 && FirstLength(sizes, window, k) == FirstLength(sizes, window, 10)
        decreases 17 - k
      {
        if temp < h.maxcode[k] {
          break;
        }
        k := k + 1;
      }
      if k == 17 {
        // below zero in the source; nothing is read after a failure
        code_bits := if code_bits >= 16 then code_bits - 16 else 0;
        return -1;
      }
      if k > code_bits {
        return -1;
      }
      TopOfBuffer(stream, pos, code_bits, k);
      MsbBound(stream, pos, k);
      AndMask(Shr(code_buffer, 32 - k), k);
      LowSmall(Msb(stream, pos, k), k);
      assert k + (16 - k) == 16;
      MsbPrefix(stream, pos, k, 16 - k);
      var c := And(Shr(code_buffer, 32 - k), Pow2(k) - 1) + h.delta[k];
      if c < 0 || c >= 256 {
        return -1;
      }
      Consume(k);
      return h.values[c];
    }

    /**
     stbi__extend_receive reads `n` value bits and extends their sign. If the data ends before, it
     returns zero and consumes nothing.
     */
    method ExtendReceive(n: nat) returns (v: int)
      requires Valid() && n <= 15
      modifies this
      ensures Valid()
      ensures (pos == old(pos) + n && v == Extend(Msb(stream, old(pos), n), n))
        || (pos == old(pos) && v == 0 && pos + n > 8 * |stream|)
    {
      hide Msb, Shl, Shr, Unstuff, Or, And, Low, RotateLeft;
      if code_bits < n {
        GrowBuffer();
      }
      if code_bits < n {
        return 0;
      }
      WordBound(stream, pos, code_bits);
      RotateSplits(code_buffer, n);
      SignBit(stream, pos, n);
      TopOfBuffer(stream, pos, code_bits, if n == 0 then code_bits else 1);
      TopOfBuffer(stream, pos, code_bits, n);
      MsbBound(stream, pos, n);
      var sgn := Shr(code_buffer, 31);
      var k := RotateLeft(code_buffer, n);
      var bias := 1 - Pow2(n);
      code_buffer := And(k, HighMask(n));
      k := And(k, Pow2(n) - 1);
      ShiftOut(stream, pos, code_bits, n);
      code_bits := code_bits - n;
      pos := pos + n;
      v := if sgn == 0 then k + bias else k;
    }
  }

  lemma {:induction false} WordBound(data: seq<byte>, pos: nat, bits: nat)
    requires bits <= 32
    ensures Shl(Msb(data, pos, bits), 32 - bits) < 0x1_0000_0000
  {
    MsbBound(data, pos, bits);
    ShlMono(Msb(data, pos, bits), Pow2(bits), 32 - bits);
    Pow2Split(bits, 32 - bits);
    Pow2Consts();
  }

  /** The first bit of a value tells its sign. */
  lemma {:induction false} SignBit(data: seq<byte>, pos: nat, n: nat)
    ensures n > 0 ==> (Msb(data, pos, n) < Pow2(n - 1) <==> Msb(data, pos, 1) == 0)
  {
    hide Shl;
    if n > 0 {
      assert 1 + (n - 1) == n;
      MsbSplit(data, pos, 1, n - 1);
      MsbBound(data, pos + 1, n - 1);
      ShlZero(n - 1);
      MsbBound(data, pos, 1);
      if Msb(data, pos, 1) > 0 {
        ShlMono(1, Msb(data, pos, 1), n - 1);
        ShlOne(n - 1);
      }
    }
  }
}
