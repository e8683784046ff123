/** Integers in any base from 2 to 36, written and read back. */
module NumberText {
  import opened Bits

  // ----- digits

  function DigitChar(d: nat): char
    requires d < 36
  {
    if d < 10 then '0' + d as char else 'a' + (d - 10) as char
  }

  /** The value of a digit in either case; 36 for any other character. */
  function DigitValue(c: char): (d: nat)
    ensures d <= 36
  {
    if '0' <= c <= '9' then (c - '0') as nat
    else if 'a' <= c <= 'z' then 10 + (c - 'a') as nat
    else if 'A' <= c <= 'Z' then 10 + (c - 'A') as nat
    else 36
  }

  const DIGITS := "0123456789abcdefghijklmnopqrstuvwxyz"
  const CAPITAL_DIGITS := "0123456789ABCDEFGHIJKLMNOPQRSTUVWXYZ"

  /** Written digits are those of the table, small letters above nine; letters of both cases are read. */
  lemma {:induction false} DigitsOfTable(d: nat, c: char)
    requires d < 36
    ensures DigitChar(d) == DIGITS[d]
    ensures DigitValue(c) == d <==> c == DIGITS[d] || c == CAPITAL_DIGITS[d]
  {
    SmallDigit(d);
    CapitalDigit(d);
  }

  lemma {:induction false} SmallDigit(d: nat)
    requires d < 36
    ensures DIGITS[d] as int == if d < 10 then 48 + d else 87 + d
  {}

  lemma {:induction false} CapitalDigit(d: nat)
    requires d < 36
    ensures CAPITAL_DIGITS[d] as int == if d < 10 then 48 + d else 55 + d
  {}

  predicate IsDigit(c: char, base: nat) {
    DigitValue(c) < base
  }

  /** The number that a string of digits stands for. */
  function Value(s: string, base: nat): nat {
    if s == "" then 0 else Value(s[..|s| - 1], base) * base + DigitValue(s[|s| - 1])
  }

  /** The digits of a number, without leading zeros (NoLeadingZero, DigitsAreShortest). */
  function Digits(v: nat, base: nat): (s: string)
    requires 2 <= base <= 36
    ensures s != ""
    decreases v
  {
    DivSmaller(v, base);
    if v < base then [DigitChar(v)] else Digits(v / base, base) + [DigitChar(v % base)]
  }

  lemma {:induction false} DivSmaller(v: nat, base: nat)
    requires base >= 2
    ensures 0 <= v / base <= v / 2 && (v >= base ==> v / base < v) && 0 <= v % base < base
    ensures v == v / base * base + v % base
  {
    var q := v / base;
    assert v == q * base + v % base;
    if q < 0 {
      MulStrict(q, 0, base);
    }
    MulMono(2, base, q);
  }

  lemma {:induction false} DigitBack(d: nat)
    requires d < 36
    ensures DigitValue(DigitChar(d)) == d
  {}

  ghost predicate AllDigits(s: string, base: nat) {
    forall i :: 0 <= i < |s| ==> IsDigit(s[i], base)
  }

  /** Writing and reading back gives the number, in every base. */
  lemma {:induction false} ValueOfDigits(v: nat, base: nat)
    requires 2 <= base <= 36
    ensures Value(Digits(v, base), base) == v && AllDigits(Digits(v, base), base)
    decreases v
  {
    DivSmaller(v, base);
    if v < base {
      DigitBack(v);
      assert Value([DigitChar(v)], base) == Value("", base) * base + v;
    } else {
      var front, last := Digits(v / base, base), DigitChar(v % base);
      DigitBack(v % base);
      ValueOfDigits(v / base, base);
      assert (front + [last])[..|front|] == front;
    }
  }

  /** Digits never start with a zero, except for zero itself. */
  lemma {:induction false} NoLeadingZero(v: nat, base: nat)
    requires 2 <= base <= 36
    ensures Digits(v, base)[0] == '0' <==> v == 0
    decreases v
  {
    DivSmaller(v, base);
    if v >= base {
      if v / base == 0 {
        assert false;
      }
      NoLeadingZero(v / base, base);
    }
  }

  /** No string of digits for the same number is shorter. */
  lemma {:induction false} DigitsAreShortest(v: nat, base: nat, s: string)
    requires 2 <= base <= 36 && s != "" && AllDigits(s, base) && Value(s, base) == v
    ensures |Digits(v, base)| <= |s|
    decreases |s|
  {
    var n := |s| - 1;
    var q, d := Value(s[..n], base), DigitValue(s[n]);
    DivSmaller(v, base);
    if v >= base {
      DivModUnique(v, base, q, d);
      if n == 0 {
        assert false;
      }
      DigitsAreShortest(q, base, s[..n]);
    }
  }

  /** A number below 2^k has at most k digits. */
  lemma {:induction false} DigitCount(v: nat, base: nat, k: nat)
    requires 2 <= base <= 36 && k >= 1 && v < Pow2(k)
    ensures |Digits(v, base)| <= k
    decreases k
  {
    DivSmaller(v, base);
    assert Pow2(1) == 2;
    if v >= base {
      DigitCount(v / base, base, k - 1);
    }
  }

  // ----- format_uint

  /** Digits from the end of a buffer of 65 characters. */
  method FormatUint(value: nat, base: nat) returns (s: string)
    requires value < 0x1_0000_0000_0000_0000 && 2 <= base <= 36
    ensures s == Digits(value, base)
  {
    hide Digits, Pow2;
    var buf := new char[65];
    var pos := 65;
    pos := pos - 1;
    buf[pos] := '\0';
    SixtyFourBits(value);
    DigitCount(value, base, 64);
    if value == 0 {
      pos := pos - 1;
      buf[pos] := '0';
      DigitsOfZero(base);
      return buf[pos..64];
    }
    var v: nat := value;
    ghost var all := Digits(value, base);
    while v != 0
      invariant pos <= 64 && pos >= 64 - |all| + Remaining(v, base)
      invariant Written(v, base) + buf[pos..64] == all && |Written(v, base)| == Remaining(v, base)
      decreases v
    {
      DivSmaller(v, base);
      WrittenStep(v, base);
      var digit := v % base;
      ghost var tail := buf[pos..64];
      pos := pos - 1;
      buf[pos] := DigitChar(digit);
      assert buf[pos..64] == [DigitChar(digit)] + tail;
      assert Written(v / base, base) + ([DigitChar(digit)] + tail) == Written(v, base) + tail;
      v := v / base;
    }
    assert Written(0, base) + buf[pos..64] == buf[pos..64];
    return buf[pos..64];
  }

  /** The digits still to be written: none for zero. */
  function Written(v: nat, base: nat): string
    requires 2 <= base <= 36
  {
    if v == 0 then "" else Digits(v, base)
  }

  function Remaining(v: nat, base: nat): nat
    requires 2 <= base <= 36
  {
    |Written(v, base)|
  }

  lemma {:induction false} WrittenStep(v: nat, base: nat)
    requires 2 <= base <= 36 && v > 0
    ensures 0 <= v / base && v % base < 36 && Written(v, base) == Written(v / base, base) + [DigitChar(v % base)]
  {
    DivSmaller(v, base);
    if v < base {
      DivModUnique(v, base, 0, v);
    }
  }

  lemma {:induction false} DigitsOfZero(base: nat)
    requires 2 <= base <= 36
    ensures Digits(0, base) == "0"
  {}

  lemma {:induction false} SixtyFourBits(v: nat)
    requires v < 0x1_0000_0000_0000_0000
    ensures v < Pow2(64)
  {
    Pow2Consts();
    UpSix(32);
    UpSix(38);
    UpSix(44);
    UpSix(50);
    UpSix(56);
    assert Pow2(64) == 2 * Pow2(63) && Pow2(63) == 2 * Pow2(62);
  }

  lemma {:induction false} UpSix(a: nat)
    ensures Pow2(a + 6) == 64 * Pow2(a)
  {
    Pow2Split(a, 6);
    BySixtyFour(Pow2(a));
  }

  // ----- parse_uint

  /** How many digits the text starts with. */
  function DigitPrefix(s: string, base: nat, i: nat): (n: nat)
    requires i <= |s|
    ensures i <= n <= |s|
    decreases |s| - i
  {
    if i < |s| && IsDigit(s[i], base) then DigitPrefix(s, base, i + 1) else i
  }

  lemma {:induction false} ValueStep(s: string, i: nat, base: nat)
    requires i < |s|
    ensures Value(s[..i + 1], base) == Value(s[..i], base) * base + DigitValue(s[i])
  {
    assert s[..i + 1][..i] == s[..i];
  }

  lemma {:induction false} TimesAtLeast(v: nat, base: nat)
    requires base >= 1
    ensures v <= v * base
  {
    MulMono(1, base, v);
  }

  /** More digits never make the number smaller. */
  lemma {:induction false} ValueGrows(s: string, i: nat, j: nat, base: nat)
    requires i <= j <= |s| && base >= 1
    ensures Value(s[..i], base) <= Value(s[..j], base)
    decreases j - i
  {
    if i < j {
      hide Value;
      ValueGrows(s, i, j - 1, base);
      ValueStep(s, j - 1, base);
      TimesAtLeast(Value(s[..j - 1], base), base);
    }
  }

  /** The overflow test, by division, is exact. */
  lemma {:induction false} OverflowExact(acc: nat, digit: nat, base: nat, max: nat)
    requires base >= 1 && digit <= max
    ensures acc > (max - digit) / base <==> acc * base + digit > max
  {
    var room := max - digit;
    var q := room / base;
    assert room == q * base + room % base && 0 <= room % base < base;
    if acc > q {
      MulStrict(q, acc, base);
    } else {
      MulMono(acc, q, base);
    }
  }

  /**
   parse_uint consumes the digits the text starts with, and fails exactly on a bad base, no digits, or a
   number above the maximum.
   */
  method ParseUint(data: string, base: nat, max_val: nat) returns (consumed: nat, value: nat)
    requires max_val >= 35
    ensures var n := DigitPrefix(data, base, 0);
      if 2 <= base <= 36 && n > 0 && Value(data[..n], base) <= max_val
      then consumed == n && value == Value(data[..n], base)
      else consumed == 0
  {
    value := 0;
    if |data| == 0 || base < 2 || base > 36 {
      return 0, 0;
    }
    var acc, i, any := 0, 0, false;
    ghost var n := DigitPrefix(data, base, 0);
    while i < |data|
      invariant i <= n && DigitPrefix(data, base, i) == n && any == (i > 0)
      invariant acc == Value(data[..i], base) <= max_val
    {
      var digit := DigitValue(data[i]);
      if digit >= base {
        break;
      }
      ValueStep(data, i, base);
      OverflowExact(acc, digit, base, max_val);
      if acc > (max_val - digit) / base {
        ValueGrows(data, i + 1, n, base);
        return 0, 0;
      }
      acc := acc * base + digit;
      any := true;
      i := i + 1;
    }
    if !any {
      return 0, 0;
    }
    return i, acc;
  }

  // ----- signs

  function SignedText(v: int, base: nat): string
    requires 2 <= base <= 36
  {
    if v < 0 then "-" + Digits(-v, base) else Digits(v, base)
  }

  /** What a signed text says: how many characters belong to it, and the number. */
  function SignedValue(s: string, base: nat): (int, nat) {
    var start := if s != "" && (s[0] == '-' || s[0] == '+') then 1 else 0;
    var n := DigitPrefix(s, base, start);
    var m := Value(s[start..n], base);
    var v: int := if start == 1 && s[0] == '-' then 0 - m else m;
    (v, if n > start then n else 0)
  }

  /** format_sint; the magnitude of the smallest number is one more than the largest. */
  method FormatSint(value: int, base: nat) returns (s: string)
    requires -0x8000_0000_0000_0000 <= value < 0x8000_0000_0000_0000 && 2 <= base <= 36
    ensures s == SignedText(value, base)
  {
    if value < 0 {
      var mag := if value == -0x8000_0000_0000_0000 then 0x7fff_ffff_ffff_ffff + 1 else -value;
      var digits := FormatUint(mag, base);
      s := "-" + digits;
    } else {
      s := FormatUint(value, base);
    }
  }

  lemma {:induction false} PrefixOfTail(s: string, base: nat, i: nat)
    requires 1 <= i <= |s|
    ensures DigitPrefix(s, base, i) == DigitPrefix(s[1..], base, i - 1) + 1
    decreases |s| - i
  {
    if i < |s| {
      assert s[1..][i - 1] == s[i];
      if IsDigit(s[i], base) {
        PrefixOfTail(s, base, i + 1);
      }
    }
  }

  /** parse_sint: sign, digits, and the range from `min_val` to `max_val`. */
  method ParseSint(data: string, base: nat, min_val: int, max_val: int) returns (consumed: nat, value: int)
    requires min_val <= -36 && max_val >= 35
    ensures var r := SignedValue(data, base);
      if 2 <= base <= 36 && r.1 > 0 && min_val <= r.0 <= max_val then consumed == r.1 && value == r.0 else consumed == 0
  {
    value := 0;
    if |data| == 0 {
      return 0, 0;
    }
    var negative, start := false, 0;
    if data[0] == '-' {
      negative, start := true, 1;
    } else if data[0] == '+' {
      start := 1;
    }
    if start >= |data| {
      return 0, 0;
    }
    var cap := if negative then -(min_val + 1) + 1 else max_val;
    var mag: nat;
    consumed, mag := ParseUint(data[start..], base, cap);
    if start == 1 {
      PrefixOfTail(data, base, 1);
    } else {
      assert data[0..] == data;
    }
    ghost var n := DigitPrefix(data, base, start);
    assert data[start..][..n - start] == data[start..n];
    if consumed == 0 {
      return 0, 0;
    }
    if negative {
      if mag == -(min_val + 1) + 1 {
        value := min_val;
      } else {
        value := 0 - mag;
      }
    } else {
      value := mag;
    }
    consumed := start + consumed;
  }

  // ----- round trips

  /** Digits followed by anything but a digit are consumed exactly. */
  lemma {:induction false} PrefixIsAll(d: string, rest: string, base: nat, i: nat)
    requires i <= |d| && AllDigits(d, base) && (rest == "" || !IsDigit(rest[0], base))
    ensures DigitPrefix(d + rest, base, i) == |d|
    decreases |d| - i
  {
    if i < |d| {
      PrefixIsAll(d, rest, base, i + 1);
    }
  }

  lemma {:induction false} NoSign(c: char, base: nat)
    requires IsDigit(c, base) && base <= 36
    ensures c != '-' && c != '+'
  {}

  /**
   A written number, signed or not, reads back, in every base and before any text that does not go on with a digit.
   */
  lemma {:induction false} SignedRoundTrip(v: int, base: nat, rest: string)
    requires 2 <= base <= 36 && (rest == "" || !IsDigit(rest[0], base))
    ensures SignedValue(SignedText(v, base) + rest, base) == (v, |SignedText(v, base)|)
  {
    hide Value, Digits, DigitPrefix, IsDigit;
    var m := if v < 0 then -v else v;
    var d, s := Digits(m, base), SignedText(v, base) + rest;
    ValueOfDigits(m, base);
    PrefixIsAll(d, rest, base, 0);
    if v < 0 {
      assert s[1..] == d + rest && s[0] == '-';
      PrefixOfTail(s, base, 1);
      assert s[1..1 + |d|] == d;
    } else {
      assert s[0] == d[0] && IsDigit(d[0], base);
      NoSign(d[0], base);
      assert s == d + rest && s[0..|d|] == d;
    }
  }
}
