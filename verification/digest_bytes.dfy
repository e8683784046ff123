/**
 The digests' byte orders, padding and initial values, as the standards state them: byte by byte, bit by bit, and by
 where the constants come from.
 */
module DigestBytes {
  import opened Bits
  import opened BitSequence
  import opened BitWriter
  import opened DigestBlocks
  import Md5 = DigestMd5
  import Sha1 = DigestSha1
  import Sha256 = DigestSha256

  // ----- byte order

  /** Byte `j` of a number, counted from the lowest. */
  function ByteOfNumber(v: nat, j: nat): byte {
    if j == 0 then v % 256 else ByteOfNumber(v / 256, j - 1)
  }

  lemma {:induction false} ByteByDivision(v: nat, j: nat)
    ensures ByteOfNumber(v, j) == v / Bytes256(j) % 256
    decreases j
  {
    if j > 0 {
      ByteByDivision(v / 256, j - 1);
      DivTwice(v, 256, Bytes256(j - 1));
    }
  }

  lemma {:induction false} DivTwice(v: nat, a: nat, b: nat)
    requires a > 0 && b > 0
    ensures a * b > 0 && v / a / b == v / (a * b)
  {
    var q, r := v / a, v % a;
    var q2, r2 := q / b, q % b;
    MulMono(0, b - 1, a);
    MulMono(r2 + 1, b, a);
    assert v == (q2 * b + r2) * a + r;
    assert (q2 * b + r2) * a + r == q2 * (a * b) + (r2 * a + r);
    assert (r2 + 1) * a == r2 * a + a && b * a == a * b;
    DivModUnique(v, a * b, q2, r2 * a + r);
  }

  lemma {:induction false} LittleEndianByte(v: nat, n: nat, j: nat)
    requires j < n
    ensures LittleEndian(v, n)[j] == ByteOfNumber(v, j)
  {
    if j > 0 {
      LittleEndianByte(v / 256, n - 1, j - 1);
    }
  }

  lemma {:induction false} BigEndianByte(v: nat, n: nat, j: nat)
    requires j < n
    ensures BigEndian(v, n)[j] == ByteOfNumber(v, n - 1 - j)
  {
    if j < n - 1 {
      BigEndianByte(v / 256, n - 1, j);
    }
  }

  /** MD5 writes its state words with the lowest byte first, the SHA digests with the highest byte first. */
  lemma {:induction false} DigestByte(words: Words, i: nat, j: nat)
    requires i < |words| && j < 4
    ensures |WordsLittle(words)| == |WordsBig(words)| == 4 * |words|
    ensures WordsLittle(words)[4 * i + j] == words[i] / Bytes256(j) % 256
    ensures WordsBig(words)[4 * i + j] == words[i] / Bytes256(3 - j) % 256
  {
    hide Bytes256;
    DigestLength(words);
    var n := |words| - 1;
    DigestLength(words[..n]);
    if i == n {
      LittleEndianByte(words[i], 4, j);
      BigEndianByte(words[i], 4, j);
      ByteByDivision(words[i], j);
      ByteByDivision(words[i], 3 - j);
    } else {
      DigestByte(words[..n], i, j);
    }
  }

  lemma {:induction false} DigestLength(words: Words)
    ensures |WordsLittle(words)| == |WordsBig(words)| == 4 * |words|
  {
    if words != [] {
      DigestLength(words[..|words| - 1]);
    }
  }

  // ----- padding, in bits

  lemma {:induction false} MsbBitsConcat(a: seq<byte>, b: seq<byte>, start: nat)
    requires start == 8 * |a|
    ensures MsbBits(a + b, 0, 8 * |a + b|) == MsbBits(a, 0, start) + MsbBits(b, 0, 8 * |b|)
  {
    var whole, first, second := MsbBits(a + b, 0, 8 * |a + b|), MsbBits(a, 0, start), MsbBits(b, 0, 8 * |b|);
    forall i | 0 <= i < |whole| ensures whole[i] == (first + second)[i] {
      if i >= start {
        assert i / 8 - |a| == (i - start) / 8 && i % 8 == (i - start) % 8;
      }
    }
  }

  /** A byte, its highest bit first. */
  lemma {:induction false} OneByteBits(x: byte)
    ensures MsbBits([x], 0, 8) == CodeBits(x, 8)
  {
    forall i | 0 <= i < 8 ensures MsbBits([x], 0, 8)[i] == CodeBits(x, 8)[i] {
      assert (0 + i) / 8 == 0 && (0 + i) % 8 == i;
    }
  }

  lemma {:induction false} CodeBitsOfByte(v: nat, n: nat)
    requires n >= 8
    ensures CodeBits(v, n) == CodeBits(v / 256, n - 8) + CodeBits(v % 256, 8)
  {
    forall i | 0 <= i < n ensures CodeBits(v, n)[i] == (CodeBits(v / 256, n - 8) + CodeBits(v % 256, 8))[i] {
      if i < n - 8 {
        BitAbove(v, n - 1 - i - 8);
      } else {
        BitBelow(v, n - 1 - i);
      }
    }
  }

  lemma {:induction false} BitAbove(v: nat, j: nat)
    ensures Bit(v, j + 8) == Bit(v / 256, j)
  {
    assert Shr(v, 1) == v / 2 && Shr(v, 2) == v / 4 && Shr(v, 3) == v / 8 && Shr(v, 4) == v / 16;
    assert Shr(v, 5) == v / 32 && Shr(v, 6) == v / 64 && Shr(v, 7) == v / 128 && Shr(v, 8) == v / 256;
    BitShr(v, 8, j);
  }

  lemma {:induction false} BitBelow(v: nat, j: nat)
    requires j < 8
    ensures Bit(v, j) == Bit(v % 256, j)
  {
    BitLow(v, 8, j);
    LowByteIs(v);
  }

  lemma {:induction false} LowByteIs(v: nat)
    ensures Low(v, 8) == v % 256
  {
    Split(v, 8);
    assert Pow2(8) == 256;
    TimesByte(Shr(v, 8));
    DivModUnique(v, 256, Shr(v, 8), Low(v, 8));
  }

  lemma {:induction false} TimesByte(x: nat)
    ensures Shl(x, 8) == 256 * x
  {
    ByEight(x);
    ByEight(8 * x);
    ShlShl(x, 3, 3);
    Thrice(x, 6);
    Thrice(x, 7);
  }

  /** The bytes of a number, the highest first, are its bits, the highest first. */
  lemma {:induction false} BigEndianBits(v: nat, n: nat)
    ensures MsbBits(BigEndian(v, n), 0, 8 * n) == CodeBits(v, 8 * n)
    decreases n
  {
    if n > 0 {
      BigEndianBits(v / 256, n - 1);
      MsbBitsConcat(BigEndian(v / 256, n - 1), [v % 256], 8 * (n - 1));
      OneByteBits(v % 256);
      CodeBitsOfByte(v, 8 * n);
    }
  }

  function Off(n: nat): (b: seq<bool>)
    ensures |b| == n && forall i :: 0 <= i < n ==> !b[i]
  {
    seq(n, _ => false)
  }

  lemma {:induction false} ZeroBits(n: nat)
    ensures MsbBits(Zeros(n), 0, 8 * n) == Off(8 * n)
  {
    forall i | 0 <= i < 8 * n ensures !MsbBits(Zeros(n), 0, 8 * n)[i] {
      BitOfZero(7 - i % 8);
    }
  }

  lemma {:induction false} BitEighty()
    ensures CodeBits(0x80, 8) == [true] + Off(7)
  {
    assert Bit(0x80, 7) && !Bit(0x80, 6) && !Bit(0x80, 5) && !Bit(0x80, 4);
    assert !Bit(0x80, 3) && !Bit(0x80, 2) && !Bit(0x80, 1) && !Bit(0x80, 0);
  }

  /**
   Section 5.1 of FIPS 180-4: behind the bits of the message come one bit, as few zero bits as make the length 448
   modulo 512, and the length of the message in 64 bits.
   */
  lemma {:induction false} PaddingInBits(m: seq<byte>, k: nat)
    requires k < 512 && (8 * |m| + 1 + k) % 512 == 448
    ensures MsbBits(PadBig(m), 0, 8 * |PadBig(m)|)
            == MsbBits(m, 0, 8 * |m|) + [true] + Off(k) + CodeBits(BitLength(m), 64)
  {
    hide MsbBits, CodeBits, BigEndian;
    var z := ZeroCount(|m|);
    FewestZeros(|m|, z, k);
    var a := m + [0x80];
    var b := a + Zeros(z);
    MsbBitsConcat(m, [0x80], 8 * |m|);
    OneByteBits(0x80);
    BitEighty();
    MsbBitsConcat(a, Zeros(z), 8 * |a|);
    ZeroBits(z);
    MsbBitsConcat(b, BigEndian(BitLength(m), 8), 8 * |b|);
    BigEndianBits(BitLength(m), 8);
    assert Off(7) + Off(8 * z) == Off(k);
  }

  lemma {:induction false} FewestZeros(n: nat, z: nat, k: nat)
    requires k < 512 && (8 * n + 1 + k) % 512 == 448 && z < 64 && (n + 1 + z) % 64 == 56
    ensures k == 7 + 8 * z
  {}

  /** Sections 3.1 and 3.2 of RFC 1321: the same padding, but the length comes with its lowest byte first. */
  lemma {:induction false} PaddingOfMd5(m: seq<byte>, j: nat)
    requires j < 8
    ensures |PadLittle(m)| == |PadBig(m)| >= 8 && PadLittle(m)[..|PadLittle(m)| - 8] == PadBig(m)[..|PadBig(m)| - 8]
    ensures PadLittle(m)[|PadLittle(m)| - 8 + j] == BitLength(m) / Bytes256(j) % 256
  {
    LittleEndianByte(BitLength(m), 8, j);
    ByteByDivision(BitLength(m), j);
    hide LittleEndian, BigEndian, Bytes256, BitLength;
  }

  // ----- initial values

  /** Section 3.3 of RFC 1321: the bytes 0 to f counted up and down, in nibbles. */
  lemma {:induction false} Md5Start()
    ensures WordsLittle(Md5.InitialState())
            == [0x01, 0x23, 0x45, 0x67, 0x89, 0xab, 0xcd, 0xef, 0xfe, 0xdc, 0xba, 0x98, 0x76, 0x54, 0x32, 0x10]
  {
    hide WordsLittle, LittleEndian;
    var a, b, c, d := 0x67452301, 0xefcdab89, 0x98badcfe, 0x10325476;
    Md5StartWords();
    LittleSnoc([], a);
    LittleSnoc([a], b);
    LittleSnoc([a, b], c);
    LittleSnoc([a, b, c], d);
    assert [] + [a] == [a] && [a] + [b] == [a, b] && [a, b] + [c] == [a, b, c];
    assert [a, b, c] + [d] == Md5.InitialState();
    NoWords();
  }

  lemma {:induction false} NoWords()
    ensures WordsLittle([]) == []
  {}

  lemma {:induction false} Md5StartWords()
    ensures LittleEndian(0x67452301, 4) == [0x01, 0x23, 0x45, 0x67]
    ensures LittleEndian(0xefcdab89, 4) == [0x89, 0xab, 0xcd, 0xef]
    ensures LittleEndian(0x98badcfe, 4) == [0xfe, 0xdc, 0xba, 0x98]
    ensures LittleEndian(0x10325476, 4) == [0x76, 0x54, 0x32, 0x10]
  {
    FourBytes(0x01, 0x23, 0x45, 0x67);
    FourBytes(0x89, 0xab, 0xcd, 0xef);
    FourBytes(0xfe, 0xdc, 0xba, 0x98);
    FourBytes(0x76, 0x54, 0x32, 0x10);
    hide LittleEndian;
  }

  lemma {:induction false} FourBytes(a: byte, b: byte, c: byte, d: byte)
    ensures LittleEndian(256 * (256 * (256 * d + c) + b) + a, 4) == [a, b, c, d]
  {
    LittleStep(256 * (256 * d + c) + b, a, 4);
    LittleStep(256 * d + c, b, 3);
    LittleStep(d, c, 2);
    LittleStep(0, d, 1);
  }

  lemma {:induction false} LittleSnoc(words: Words, w: nat)
    ensures WordsLittle(words + [w]) == WordsLittle(words) + LittleEndian(w, 4)
  {
    assert (words + [w])[..|words|] == words;
  }

  /** Section 5.3.1 of FIPS 180-4: the words of MD5, and one more that alternates two such counts. */
  lemma {:induction false} Sha1Start()
    ensures Sha1.InitialState()[..4] == Md5.InitialState() && |Sha1.InitialState()| == 5
    ensures LittleEndian(Sha1.InitialState()[4], 4) == [0xf0, 0xe1, 0xd2, 0xc3]
  {
    FourBytes(0xf0, 0xe1, 0xd2, 0xc3);
  }

  /** Section 5.3.3: the first 32 bits of the fractional parts of the square roots of the first eight primes. */
  lemma {:induction false} Sha256Start(i: nat)
    requires i < 8
    ensures var prime, root := [2, 3, 5, 7, 11, 13, 17, 19][i], [1, 1, 2, 2, 3, 3, 4, 4][i];
      var x := root * 0x1_0000_0000 + Sha256.InitialState()[i];
      && Sha256.InitialState()[i] < 0x1_0000_0000 && |Sha256.InitialState()| == 8
      && x * x <= prime * 0x1_0000_0000_0000_0000 < (x + 1) * (x + 1)
  {}
}
