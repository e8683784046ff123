/**
 The bit buffer of stb's zlib reader, and decoding one Huffman symbol from it by the fast
 table or the slow path. Positions count bits from the start of the data; past its end
 the reader sees zeros.
 */
module ZlibReader {
  import opened Bits
  import opened BitSequence
  import opened BitReversal
  import opened CanonicalCodes
  import opened DeflateCodes
  import opened ZlibHuffman

  /** The symbol whose code comes next in the input, or -1 if no code matches. */
  ghost function NextSymbol(lens: seq<nat>, data: seq<byte>, pos: nat): int {
    if exists i: nat :: StartsWith(lens, i, data, pos)
    then var i: nat :| StartsWith(lens, i, data, pos); i
    else -1
  }

  lemma {:induction false} NextSymbolIs(lens: seq<nat>, data: seq<byte>, pos: nat, i: nat)
    requires StartsWith(lens, i, data, pos)
    ensures NextSymbol(lens, data, pos) == i
  {
    var j: nat := NextSymbol(lens, data, pos);
    StartsWithMatches(lens, i, data, pos);
    StartsWithMatches(lens, j, data, pos);
    MatchIsUnique(lens, i, j, FirstBits(data, pos, 16));
  }

  class ZBuf {
    const data: seq<byte>
    var zbuffer: nat           // next byte to load
    var num_bits: nat
    var hit_zeof_once: bool
    var code_buffer: nat
    ghost var pos: nat         // bits consumed

    /** The buffer holds the next `num_bits` bits of the data, and nothing above them. */
    ghost predicate Valid()
      reads this
    {
      && num_bits <= 32 && zbuffer <= |data| && (pos + num_bits) % 8 == 0
      && code_buffer == Lsb(data, pos, num_bits)
      && (if zbuffer < |data| then pos + num_bits == 8 * zbuffer else pos + num_bits >= 8 * |data|)
      && (hit_zeof_once ==> zbuffer == |data| && pos + num_bits >= 8 * |data| + 16)
    }

    constructor (input: seq<byte>)
      ensures Valid() && pos == num_bits == zbuffer == 0 && data == input && !hit_zeof_once
    {
      data := input;
      zbuffer, num_bits, hit_zeof_once, code_buffer, pos := 0, 0, false, 0, 0;
    }

    /**
     Up to here bits count as read from the data: its end, or the last bit of the zeros that came with its end in
     refills of whole bytes.
     */
    ghost function Limit(): (limit: int)
      reads this
      ensures limit >= 8 * |data|
    {
      var loaded := pos + num_bits - if hit_zeof_once then 16 else 0;
      if loaded > 8 * |data| then loaded else 8 * |data|
    }

    /** The guard at the end of a block: padding was consumed exactly if the position is past the limit. */
    lemma {:induction false} GuardIsLimit()
      requires Valid()
      ensures hit_zeof_once && num_bits < 16 <==> pos > Limit()
    {}

    predicate Zeof()
      reads this
    {
      zbuffer >= |data|
    }

    method Zget8() returns (b: byte)
      requires zbuffer <= |data|
      modifies this`zbuffer
      ensures b == ByteAt(data, old(zbuffer))
      ensures zbuffer == if old(zbuffer) < |data| then old(zbuffer) + 1 else |data|
    {
      if Zeof() {
        return 0;
      }
      b := data[zbuffer];
      zbuffer := zbuffer + 1;
    }

    /**
     stbi__fill_bits loads bytes until more than 24 bits are buffered. The source gives up if there
     are stray bits above `num_bits`; there never are.
     */
    method FillBits()
      requires Valid() && num_bits <= 24
      modifies this`zbuffer, this`num_bits, this`code_buffer
      ensures Valid() && pos == old(pos) && num_bits >= 25 && num_bits >= old(num_bits)
    {
      hide Lsb, Or, Shl, Pow2;
      while true
        invariant Valid() && pos == old(pos) && num_bits <= 24
        decreases 24 - num_bits
      {
        LsbBound(data, pos, num_bits);
        if code_buffer >= Pow2(num_bits) {
          assert false;
        }
        var more := num_bits + 8;
        AppendLow(data, pos, num_bits, zbuffer, more);
        var b := Zget8();
        code_buffer := Or(code_buffer, Shl(b, num_bits));
        num_bits := more;
        if num_bits > 24 {
          break;
        }
      }
    }

    /** stbi__zreceive returns the next `n` bits, first bit least significant. */
    method Receive(n: nat) returns (k: nat)
      requires Valid() && n <= 16
      modifies this
      ensures Valid() && k == Lsb(data, old(pos), n) && pos == old(pos) + n
      ensures hit_zeof_once == old(hit_zeof_once)
      ensures old(num_bits) >= n ==> zbuffer == old(zbuffer) && num_bits == old(num_bits) - n
      ensures old(num_bits) < n ==> num_bits + n >= 25
      ensures Limit() >= old(Limit())
    {
      if num_bits < n {
        FillBits();
      }
      AndMask(code_buffer, n);
      k := And(code_buffer, Pow2(n) - 1);
      Consume(n);
    }

    /** Drop `n` buffered bits. */
    method Consume(n: nat)
      requires Valid() && n <= num_bits
      modifies this`code_buffer, this`num_bits, this`pos
      ensures Valid() && pos == old(pos) + n && num_bits == old(num_bits) - n && Limit() == old(Limit())
      ensures old(Low(code_buffer, n)) == Lsb(data, old(pos), n)
    {
      assert n + (num_bits - n) == num_bits;
      LsbPrefix(data, pos, n, num_bits - n);
      code_buffer := Shr(code_buffer, n);
      num_bits := num_bits - n;
      pos := pos + n;
    }

    /** Make sure of 16 bits, the last ones implicit zeros; false if the padding was used up before. */
    method Ensure16() returns (ok: bool)
      requires Valid()
      modifies this`zbuffer, this`num_bits, this`code_buffer, this`hit_zeof_once
      ensures Valid() && pos == old(pos) && Limit() >= old(Limit())
      ensures ok ==> num_bits >= 16
      ensures old(num_bits) < 16 && old(!Zeof()) ==> num_bits >= 25
      ensures ok <==> pos <= Limit() || num_bits >= 16
      ensures !ok ==> pos > Limit()
    {
      hide Lsb, Shl;
      if num_bits < 16 {
        if Zeof() {
          if !hit_zeof_once {
            hit_zeof_once := true;
            ZerosPastEnd(data, pos, num_bits, num_bits + 16);
            num_bits := num_bits + 16;
          } else {
            return false;
          }
        } else {
          FillBits();
        }
      }
      return true;
    }

    /** With nothing buffered, the next byte is the next eight bits. */
    method AlignedByte() returns (b: byte)
      requires Valid() && num_bits == 0
      modifies this`zbuffer, this`pos
      ensures Valid() && b == Lsb(data, old(pos), 8) && pos == old(pos) + 8 && (zbuffer < |data| ==> pos == 8 * zbuffer)
      ensures num_bits == 0 && hit_zeof_once == old(hit_zeof_once) && Limit() >= old(Limit())
    {
      if zbuffer < |data| {
        LsbByte(data, zbuffer);
      } else {
        LsbPastEnd(data, pos, 8);
      }
      b := Zget8();
      pos := pos + 8;
    }

    /** With nothing buffered, the position is that of the next byte, or past the end. */
    lemma {:induction false} PositionOfNext()
      requires Valid() && num_bits == 0
      ensures zbuffer <= |data| && if zbuffer < |data| then pos == 8 * zbuffer else pos >= 8 * |data|
    {}

    /** With nothing buffered, step over bytes of the data. */
    method SkipBytes(n: nat)
      requires Valid() && num_bits == 0 && zbuffer + n <= |data|
      modifies this`zbuffer, this`pos
      ensures Valid() && pos == old(pos) + 8 * n && Limit() >= old(Limit()) && num_bits == 0
      ensures n > 0 ==> pos <= 8 * |data|
    {
      zbuffer := zbuffer + n;
      pos := pos + 8 * n;
    }

    /**
     stbi__zhuffman_decode_slowpath, for input that no code of at most nine bits starts. Its two
     guards against inconsistent tables never fire.
     */
    method DecodeSlow(z: ZHuffman, ghost lens: seq<nat>) returns (v: int)
      requires Valid() && num_bits >= 16 && z.Built(lens)
      requires FirstBits(data, pos, 16) >= Below(lens, 9)
      modifies this`code_buffer, this`num_bits, this`pos
      ensures Valid() && v == NextSymbol(lens, data, old(pos))
      ensures v >= 0 ==> v < |lens| && pos == old(pos) + lens[v] && old(num_bits) - lens[v] == num_bits
      ensures v < 0 ==> pos == old(pos) && v == -1
      ensures Limit() == old(Limit())
    {
      ghost var window := FirstBits(data, pos, 16);
      WindowOfBuffer(data, pos, num_bits, code_buffer);
      FirstBitsBound(data, pos, 16);
      Pow2Consts();
      var k := BitReverse(code_buffer, 16);
      var s := 10;
      while true
        invariant 10 <= s <= 16 && window >= Below(lens, s - 1)
        decreases 16 - s
      {
        if k < z.maxcode[s] {
          break;
        }
        s := s + 1;
      }
      if s >= 16 {
        NoSymbol(lens, data, pos);
        return -1;
      }
      ghost var i := MatchOfLength(lens, s, window);
      StartsWithMatches(lens, i, data, pos);
      NextSymbolIs(lens, data, pos, i);
      SortedIndexBound(lens, i);
      var b := Shr(k, 16 - s) - z.firstcode[s] + z.firstsymbol[s];
      assert b == SortedIndex(lens, i);
      if b >= 288 {
        assert false;
      }
      if z.size[b] != s {
        assert false;
      }
      v := z.value[b];
      Consume(s);
    }

    /**
     stbi__zhuffman_decode returns the symbol whose code comes next and consumes exactly that code. It
     returns -1, consuming nothing, only if no code matches or bits beyond the limit are gone.
     */
    method Decode(z: ZHuffman, ghost lens: seq<nat>) returns (v: int)
      requires Valid() && z.Built(lens)
      modifies this
      ensures Valid() && Limit() >= old(Limit())
      ensures v >= 0 ==> v == NextSymbol(lens, data, old(pos)) < |lens| && pos == old(pos) + lens[v]
      ensures v < 0 ==> v == -1 && pos == old(pos) && (NextSymbol(lens, data, pos) == -1 || pos > Limit())
    {
      var ok := Ensure16();
      if !ok {
        return -1;
      }
      LowNine(data, pos, num_bits, code_buffer);
      FastLookup(lens, data, pos);
      var b := z.fast[And(code_buffer, 511)];
      if b > 0 {
        Consume(Shr(b, 9));
        return And(b, 511);
      }
      v := DecodeSlow(z, lens);
    }
  }

  /** Past the end more bits are more zeros. */
  lemma {:induction false} ZerosPastEnd(data: seq<byte>, pos: nat, n: nat, more: nat)
    requires more == n + 16 && pos + n >= 8 * |data|
    ensures Lsb(data, pos, more) == Lsb(data, pos, n)
  {
    hide Lsb, Shl;
    LsbSplit(data, pos, n, 16);
    LsbPastEnd(data, pos + n, 16);
    ShlOfZero(n);
  }

  lemma {:induction false} ShlOfZero(k: nat)
    ensures Shl(0, k) == 0
  {
    if k > 0 {
      ShlOfZero(k - 1);
    }
  }

  lemma {:induction false} LowNine(data: seq<byte>, pos: nat, n: nat, buffer: nat)
    requires n >= 9 && buffer == Lsb(data, pos, n)
    ensures And(buffer, 511) == Lsb(data, pos, 9) < 512
  {
    assert Pow2(9) == 512;
    AndMask(buffer, 9);
    assert 9 + (n - 9) == n;
    LsbPrefix(data, pos, 9, n - 9);
    LsbBound(data, pos, 9);
  }

  /** A nonzero fast entry names the next symbol and its length; a zero one rules out all short codes. */
  lemma {:induction false} FastLookup(lens: seq<nat>, data: seq<byte>, pos: nat)
    requires NotOversubscribed(lens) && IsLengths(lens) && |lens| <= 288
    ensures var b, v := FastEntry(lens, Lsb(data, pos, 9), |lens|), NextSymbol(lens, data, pos);
      && (b > 0 ==> 0 <= v < |lens| && Shr(b, 9) == lens[v] <= 9 && And(b, 511) == v)
      && (b == 0 ==> FirstBits(data, pos, 16) >= Below(lens, 9))
  {
    var j := Lsb(data, pos, 9);
    var b := FastEntry(lens, j, |lens|);
    FastEntryMeaning(lens, j, |lens|);
    if b > 0 {
      var i :| 0 <= i < |lens| && FastHit(lens, i, j) && b == FastValue(lens[i], i);
      FastFields(lens[i], i);
      FastHitIsMatch(lens, i, data, pos);
      NextSymbolIs(lens, data, pos, i);
    } else {
      NoShortMatch(lens, data, pos);
    }
  }

  /** Reversing the low 16 buffered bits gives the next 16 bits in code order. */
  lemma {:induction false} WindowOfBuffer(data: seq<byte>, pos: nat, n: nat, buffer: nat)
    requires n >= 16 && buffer == Lsb(data, pos, n)
    ensures BitReverse(buffer, 16) == FirstBits(data, pos, 16)
  {
    BitReverse16IsRev(buffer);
    RevOfLow(buffer, 16);
    assert 16 + (n - 16) == n;
    LsbPrefix(data, pos, 16, n - 16);
    RevOfLsb(data, pos, 16);
  }

  lemma {:induction false} RevOfLow(v: nat, n: nat)
    ensures Rev(Low(v, n), n) == Rev(v, n)
    decreases n
  {
    if n > 0 {
      RevOfLow(v / 2, n - 1);
    }
  }

  lemma {:induction false} NoSymbol(lens: seq<nat>, data: seq<byte>, pos: nat)
    requires IsLengths(lens) && FirstBits(data, pos, 16) >= Below(lens, 15)
    ensures NextSymbol(lens, data, pos) == -1
  {
    var x := MatchBelow(lens, 15, FirstBits(data, pos, 16));
    forall i: nat ensures !StartsWith(lens, i, data, pos) {
      StartsWithMatches(lens, i, data, pos);
    }
  }

  lemma {:induction false} FastHitIsMatch(lens: seq<nat>, i: nat, data: seq<byte>, pos: nat)
    requires NotOversubscribed(lens) && i < |lens| && 0 < lens[i] <= 9
    ensures FastHit(lens, i, Lsb(data, pos, 9)) <==> StartsWith(lens, i, data, pos)
  {
    assert lens[i] + (9 - lens[i]) == 9;
    LsbPrefix(data, pos, lens[i], 9 - lens[i]);
    MatchesReversed(lens, i, data, pos);
  }

  lemma {:induction false} NoShortMatch(lens: seq<nat>, data: seq<byte>, pos: nat)
    requires NotOversubscribed(lens)
    requires forall i :: 0 <= i < |lens| ==> !FastHit(lens, i, Lsb(data, pos, 9))
    ensures FirstBits(data, pos, 16) >= Below(lens, 9)
  {
    var window := FirstBits(data, pos, 16);
    if window < Below(lens, 9) {
      var i := MatchBelow(lens, 9, window);
      StartsWithMatches(lens, i, data, pos);
      FastHitIsMatch(lens, i, data, pos);
    }
  }
}
