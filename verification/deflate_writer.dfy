/**
 Writing the compressed data of a block (section 3.2.3 of RFC 1951): a text is cut into literals and copies, these are
 coded, and the codes are written one behind the other. Decoding gives the text back.
 */
module DeflateWriter {
  import opened Bits
  import opened BitSequence
  import opened BitWriter
  import opened CanonicalCodes
  import opened DeflateCodes
  import opened DeflateSymbols
  import opened ZlibReader
  import opened ZlibInflate

  /** A copy of length 258 can be written with the value that symbol 284 has to spare. */
  datatype Token = Literal(value: byte) | Copy(length: nat, dist: nat, spare: bool)

  /** Bytes of text a token stands for. */
  function Size(t: Token): nat {
    match t
    case Literal(_) => 1
    case Copy(length, _, _) => length
  }

  /** The token says what the text is from position `p` on: a byte, or the same as some distance before. */
  ghost predicate Describes(text: seq<byte>, p: nat, t: Token) {
    p + Size(t) <= |text| &&
    match t
    case Literal(value) => text[p] == value
    case Copy(length, dist, spare) =>
      && 3 <= length <= 258 && 1 <= dist <= 32768 && dist <= p && (spare ==> length == 258)
      && forall k :: p <= k < p + length ==> text[k] == text[k - dist]
  }

  /** Bytes of text the tokens stand for. */
  function TotalSize(tokens: seq<Token>): nat {
    if tokens == [] then 0 else TotalSize(tokens[..|tokens| - 1]) + Size(tokens[|tokens| - 1])
  }

  /** Each token describes its part of the text from `p` on. */
  ghost predicate Parses(text: seq<byte>, p: nat, tokens: seq<Token>)
    decreases |tokens|
  {
    tokens != [] ==>
      var init, last := tokens[..|tokens| - 1], tokens[|tokens| - 1];
      Parses(text, p, init) && Describes(text, p + TotalSize(init), last)
  }

  // ----- coding

  predicate HasCode(lens: seq<nat>, i: nat) {
    i < |lens| && 0 < lens[i] <= 15
  }

  function SymbolBits(lens: seq<nat>, i: nat): (b: seq<bool>)
    requires HasCode(lens, i)
    ensures |b| == lens[i]
  {
    CodeBits(SymbolCode(lens, i), lens[i])
  }

  /** A symbol with its extra bits. */
  function CodedBits(lens: seq<nat>, c: Coded): (b: seq<bool>)
    requires HasCode(lens, c.symbol)
    ensures |b| == lens[c.symbol] + c.bits
  {
    SymbolBits(lens, c.symbol) + ValueBits(c.extra, c.bits)
  }

  function CopyLength(length: nat, spare: bool): Coded
    requires 3 <= length <= 258
  {
    if spare then Coded(284, 31, 5) else CodeLength(length)
  }

  /** The two codes have what the token needs. */
  predicate CanCode(ll: seq<nat>, dl: seq<nat>, t: Token) {
    match t
    case Literal(value) => HasCode(ll, value)
    case Copy(length, dist, spare) =>
      && 3 <= length <= 258 && 1 <= dist <= 32768 && (spare ==> length == 258)
      && HasCode(ll, CopyLength(length, spare).symbol) && HasCode(dl, CodeDistance(dist).symbol)
  }

  function TokenBits(ll: seq<nat>, dl: seq<nat>, t: Token): seq<bool>
    requires CanCode(ll, dl, t)
  {
    match t
    case Literal(value) => SymbolBits(ll, value)
    case Copy(length, dist, spare) => CodedBits(ll, CopyLength(length, spare)) + CodedBits(dl, CodeDistance(dist))
  }

  predicate CanCodeAll(ll: seq<nat>, dl: seq<nat>, tokens: seq<Token>) {
    forall k :: 0 <= k < |tokens| ==> CanCode(ll, dl, tokens[k])
  }

  function TokensBits(ll: seq<nat>, dl: seq<nat>, tokens: seq<Token>): seq<bool>
    requires CanCodeAll(ll, dl, tokens)
  {
    if tokens == [] then []
    else TokensBits(ll, dl, tokens[..|tokens| - 1]) + TokenBits(ll, dl, tokens[|tokens| - 1])
  }

  /** Two codes that an encoder may use for the tokens. */
  ghost predicate AreCodes(ll: seq<nat>, dl: seq<nat>, tokens: seq<Token>) {
    && NotOversubscribed(ll) && NotOversubscribed(dl) && HasCode(ll, 256) && CanCodeAll(ll, dl, tokens)
  }

  /** The compressed data: the tokens, then symbol 256. */
  function BodyBits(ll: seq<nat>, dl: seq<nat>, tokens: seq<Token>): seq<bool>
    requires HasCode(ll, 256) && CanCodeAll(ll, dl, tokens)
  {
    TokensBits(ll, dl, tokens) + SymbolBits(ll, 256)
  }

  // ----- decoding

  lemma {:induction false} ReadsSymbol(lens: seq<nat>, i: nat, data: seq<byte>, pos: nat)
    requires NotOversubscribed(lens) && HasCode(lens, i) && LsbAt(data, pos, SymbolBits(lens, i))
    ensures NextSymbol(lens, data, pos) == i
  {
    CodeFitsLength(lens, i);
    ReadsCode(data, pos, SymbolCode(lens, i), lens[i]);
    NextSymbolIs(lens, data, pos, i);
  }

  lemma {:induction false} ReadsCoded(lens: seq<nat>, c: Coded, data: seq<byte>, pos: nat)
    requires NotOversubscribed(lens) && HasCode(lens, c.symbol) && c.extra < Pow2(c.bits)
    requires LsbAt(data, pos, CodedBits(lens, c))
    ensures NextSymbol(lens, data, pos) == c.symbol && Lsb(data, pos + lens[c.symbol], c.bits) == c.extra
  {
    LsbAtSplit(data, pos, SymbolBits(lens, c.symbol), ValueBits(c.extra, c.bits), pos + lens[c.symbol]);
    ReadsSymbol(lens, c.symbol, data, pos);
    ReadsValue(data, pos + lens[c.symbol], c.extra, c.bits);
  }

  /** Copying from the text so far gives the text that the token describes. */
  lemma {:induction false} CopyIsText(text: seq<byte>, p: nat, dist: nat, length: nat)
    requires 1 <= dist <= p && p + length <= |text|
    requires forall k :: p <= k < p + length ==> text[k] == text[k - dist]
    ensures CopyBack(text[..p], dist, length) == text[..p + length]
    decreases length
  {
    if length > 0 {
      assert text[p] == text[p - dist];
      assert text[..p] + [text[..p][p - dist]] == text[..p + 1];
      CopyIsText(text, p + 1, dist, length - 1);
      assert p + 1 + (length - 1) == p + length;
    }
  }

  /** One token: the decoder takes one step, and the text grows by what the token stands for. */
  lemma {:induction false} TokenDecodes(ll: seq<nat>, dl: seq<nat>, data: seq<byte>, pos: nat, text: seq<byte>, p: nat,
                                        t: Token)
    requires NotOversubscribed(ll) && NotOversubscribed(dl) && CanCode(ll, dl, t) && Describes(text, p, t)
    requires LsbAt(data, pos, TokenBits(ll, dl, t))
    ensures Step(ll, dl, data, pos, text[..p]) == More(pos + |TokenBits(ll, dl, t)|, text[..p + Size(t)])
  {
    hide NextSymbol, Lsb, NotOversubscribed, CodeLength, CodeDistance, LengthBase, LengthExtra, DistBase, DistExtra;
    hide LsbBits, CopyBack, SymbolCode, CodeBits, ValueBits, CopyLength, CodedBits;
    match t {
      case Literal(value) =>
        ReadsSymbol(ll, value, data, pos);
        assert text[..p] + [text[p]] == text[..p + 1];
      case Copy(length, dist, spare) =>
        CopyLengthDecodes(length, spare);
        DistanceDecodes(dist);
        CopyDecodes(ll, dl, data, pos, text[..p], CopyLength(length, spare), CodeDistance(dist), length, dist);
        CopyIsText(text, p, dist, length);
    }
  }

  lemma {:induction false} CopyLengthDecodes(length: nat, spare: bool)
    requires 3 <= length <= 258 && (spare ==> length == 258)
    ensures var c := CopyLength(length, spare);
      && 257 <= c.symbol <= 285 && LengthExtra(c.symbol) == c.bits && c.extra < Pow2(c.bits)
      && LengthBase(c.symbol) + c.extra == length
  {
    LengthDecodes(length);
    SpareLength();
    hide CodeLength, LengthBase, LengthExtra, Pow2;
  }

  /** Two symbols with their extra bits are one copy. */
  lemma {:induction false} CopyDecodes(ll: seq<nat>, dl: seq<nat>, data: seq<byte>, pos: nat, out: seq<byte>, c: Coded,
                                       d: Coded, length: nat, dist: nat)
    requires NotOversubscribed(ll) && NotOversubscribed(dl) && HasCode(ll, c.symbol) && HasCode(dl, d.symbol)
    requires LsbAt(data, pos, CodedBits(ll, c) + CodedBits(dl, d))
    requires 257 <= c.symbol <= 285 && LengthExtra(c.symbol) == c.bits && c.extra < Pow2(c.bits)
    requires d.symbol < 30 && DistExtra(d.symbol) == d.bits && d.extra < Pow2(d.bits)
    requires LengthBase(c.symbol) + c.extra == length && DistBase(d.symbol) + d.extra == dist && 1 <= dist <= |out|
    ensures Step(ll, dl, data, pos, out)
            == More(pos + |CodedBits(ll, c) + CodedBits(dl, d)|, CopyBack(out, dist, length))
  {
    hide NextSymbol, Lsb, NotOversubscribed, LengthBase, LengthExtra, DistBase, DistExtra, LsbBits, CopyBack, CodedBits;
    hide Pow2;
    var mid := pos + ll[c.symbol] + c.bits;
    LsbAtSplit(data, pos, CodedBits(ll, c), CodedBits(dl, d), mid);
    ReadsCoded(ll, c, data, pos);
    ReadsCoded(dl, d, data, mid);
  }

  lemma {:induction false} ParsedFits(text: seq<byte>, p: nat, tokens: seq<Token>)
    requires p <= |text| && Parses(text, p, tokens)
    ensures p + TotalSize(tokens) <= |text|
  {}

  lemma {:induction false} TokensDecode(ll: seq<nat>, dl: seq<nat>, data: seq<byte>, pos: nat, text: seq<byte>, p: nat,
                                        tokens: seq<Token>)
    requires AreCodes(ll, dl, tokens) && p <= |text| && Parses(text, p, tokens)
    requires LsbAt(data, pos, TokensBits(ll, dl, tokens))
    ensures p + TotalSize(tokens) <= |text|
    ensures Run(ll, dl, data, pos, text[..p], |tokens|)
            == More(pos + |TokensBits(ll, dl, tokens)|, text[..p + TotalSize(tokens)])
  {
    hide NextSymbol, NotOversubscribed, Step, TokenBits, LsbBits, Describes;
    ParsedFits(text, p, tokens);
    if tokens != [] {
      var init, last := tokens[..|tokens| - 1], tokens[|tokens| - 1];
      var mid := pos + |TokensBits(ll, dl, init)|;
      LsbAtSplit(data, pos, TokensBits(ll, dl, init), TokenBits(ll, dl, last), mid);
      TokensDecode(ll, dl, data, pos, text, p, init);
      TokenDecodes(ll, dl, data, mid, text, p + TotalSize(init), last);
    }
  }

  /** Decoding the compressed data of a text gives the text, and ends where the data end. */
  lemma {:induction false} BodyDecodes(ll: seq<nat>, dl: seq<nat>, data: seq<byte>, pos: nat, text: seq<byte>, p: nat,
                                       tokens: seq<Token>)
    requires AreCodes(ll, dl, tokens) && p <= |text| && Parses(text, p, tokens)
    requires LsbAt(data, pos, BodyBits(ll, dl, tokens))
    ensures p + TotalSize(tokens) <= |text|
    ensures Decodes(ll, dl, data, pos, text[..p], pos + |BodyBits(ll, dl, tokens)|, text[..p + TotalSize(tokens)])
  {
    hide NextSymbol, NotOversubscribed, TokensBits, LsbBits, Parses, TotalSize, CanCodeAll, Run, Decodes;
    var mid := pos + |TokensBits(ll, dl, tokens)|;
    LsbAtSplit(data, pos, TokensBits(ll, dl, tokens), SymbolBits(ll, 256), mid);
    TokensDecode(ll, dl, data, pos, text, p, tokens);
    ReadsSymbol(ll, 256, data, mid);
    EndOfBlock(ll, dl, data, pos, text[..p], |tokens|, mid, text[..p + TotalSize(tokens)]);
  }

  lemma {:induction false} EndOfBlock(ll: seq<nat>, dl: seq<nat>, data: seq<byte>, pos: nat, out: seq<byte>, n: nat,
                                      pos': nat, out': seq<byte>)
    requires Run(ll, dl, data, pos, out, n) == More(pos', out') && 256 < |ll| && NextSymbol(ll, data, pos') == 256
    ensures Decodes(ll, dl, data, pos, out, pos' + ll[256], out')
  {
    hide NextSymbol;
    assert Run(ll, dl, data, pos, out, n + 1) == Ended(pos' + ll[256], out');
  }

  // ----- and only that decodes

  lemma {:induction false} SymbolIsThere(lens: seq<nat>, data: seq<byte>, pos: nat)
    requires IsLengths(lens) && NextSymbol(lens, data, pos) >= 0
    ensures var i := NextSymbol(lens, data, pos); HasCode(lens, i) && LsbAt(data, pos, SymbolBits(lens, i))
  {
    var i := NextSymbol(lens, data, pos);
    assert StartsWith(lens, i, data, pos);
    CodeIsThere(data, pos, lens[i]);
  }

  lemma {:induction false} CodedIsThere(lens: seq<nat>, data: seq<byte>, pos: nat, bits: nat)
    requires IsLengths(lens) && NextSymbol(lens, data, pos) >= 0
    ensures var i := NextSymbol(lens, data, pos);
      && HasCode(lens, i) && Lsb(data, pos + lens[i], bits) < Pow2(bits)
      && LsbAt(data, pos, CodedBits(lens, Coded(i, Lsb(data, pos + lens[i], bits), bits)))
  {
    hide LsbBits, NextSymbol;
    var i := NextSymbol(lens, data, pos);
    SymbolIsThere(lens, data, pos);
    ValueIsThere(data, pos + lens[i], bits);
    LsbBound(data, pos + lens[i], bits);
    LsbAtJoin(data, pos, SymbolBits(lens, i), ValueBits(Lsb(data, pos + lens[i], bits), bits), pos + lens[i]);
  }

  /** A copy describes what it appends. */
  lemma {:induction false} CopyDescribes(out: seq<byte>, length: nat, dist: nat, spare: bool)
    requires 3 <= length <= 258 && 1 <= dist <= 32768 && dist <= |out| && (spare ==> length == 258)
    ensures var text := CopyBack(out, dist, length);
      text[..|out|] == out && Describes(text, |out|, Copy(length, dist, spare))
  {
    hide CopyBack;
    var text := CopyBack(out, dist, length);
    forall k | 0 <= k < |out| ensures text[k] == out[k] {
      CopyRepeats(out, dist, length, k);
    }
    forall k | |out| <= k < |out| + length ensures text[k] == text[k - dist] {
      CopyRepeats(out, dist, length, k);
    }
    assert text[..|out|] == out;
  }

  /** Each step of the decoder reads a token that an encoder could have written. */
  lemma {:induction false} StepIsToken(ll: seq<nat>, dl: seq<nat>, data: seq<byte>, pos: nat, out: seq<byte>)
    returns (t: Token)
    requires IsLengths(ll) && IsLengths(dl) && Step(ll, dl, data, pos, out).More?
    ensures CanCode(ll, dl, t) && LsbAt(data, pos, TokenBits(ll, dl, t))
    ensures var s := Step(ll, dl, data, pos, out);
      && s.pos == pos + |TokenBits(ll, dl, t)| && |s.out| == |out| + Size(t) && s.out[..|out|] == out
      && Describes(s.out, |out|, t)
  {
    hide NextSymbol, Lsb, CodeLength, CodeDistance, LengthBase, LengthExtra, DistBase, DistExtra;
    hide LsbBits, CopyBack, SymbolCode, CodeBits, ValueBits, Pow2;
    var z := NextSymbol(ll, data, pos);
    SymbolIsThere(ll, data, pos);
    if z < 256 {
      t := Literal(z);
    } else {
      t := CopyIsThere(ll, dl, data, pos, out);
    }
  }

  lemma {:induction false} CopyIsThere(ll: seq<nat>, dl: seq<nat>, data: seq<byte>, pos: nat, out: seq<byte>)
    returns (t: Token)
    requires IsLengths(ll) && IsLengths(dl) && Step(ll, dl, data, pos, out).More? && NextSymbol(ll, data, pos) > 256
    ensures CanCode(ll, dl, t) && LsbAt(data, pos, TokenBits(ll, dl, t))
    ensures var s := Step(ll, dl, data, pos, out);
      && s.pos == pos + |TokenBits(ll, dl, t)| && |s.out| == |out| + Size(t) && s.out[..|out|] == out
      && Describes(s.out, |out|, t)
  {
    hide NextSymbol, Lsb, CodeLength, CodeDistance, LengthBase, LengthExtra, DistBase, DistExtra;
    hide LsbBits, CopyBack, SymbolBits, CodedBits, Pow2, Describes;
    var z := NextSymbol(ll, data, pos);
    CodedIsThere(ll, data, pos, LengthExtra(z));
    var x := Lsb(data, pos + ll[z], LengthExtra(z));
    var mid := pos + ll[z] + LengthExtra(z);
    var d := NextSymbol(dl, data, mid);
    CodedIsThere(dl, data, mid, DistExtra(d));
    var y := Lsb(data, mid + dl[d], DistExtra(d));
    LengthOfSymbol(z, x);
    DistanceOfSymbol(d, y);
    var length, dist := LengthBase(z) + x, DistBase(d) + y;
    var spare := Coded(z, x, LengthExtra(z)) != CodeLength(length);
    t := Copy(length, dist, spare);
    assert CopyLength(length, spare) == Coded(z, x, LengthExtra(z));
    LsbAtJoin(data, pos, CodedBits(ll, CopyLength(length, spare)), CodedBits(dl, CodeDistance(dist)), mid);
    CopyDescribes(out, length, dist, spare);
  }

  lemma {:induction false} LongerText(text: seq<byte>, more: seq<byte>, p: nat, tokens: seq<Token>)
    requires p <= |text| <= |more| && more[..|text|] == text && Parses(text, p, tokens)
    ensures Parses(more, p, tokens)
    decreases |tokens|
  {
    if tokens != [] {
      var init, last := tokens[..|tokens| - 1], tokens[|tokens| - 1];
      LongerText(text, more, p, init);
      assert forall k :: 0 <= k < |text| ==> more[k] == text[k];
    }
  }

  lemma {:induction false} RunIsTokens(ll: seq<nat>, dl: seq<nat>, data: seq<byte>, pos: nat, out: seq<byte>, n: nat)
    returns (tokens: seq<Token>)
    requires IsLengths(ll) && IsLengths(dl) && Run(ll, dl, data, pos, out, n).More?
    ensures CanCodeAll(ll, dl, tokens) && LsbAt(data, pos, TokensBits(ll, dl, tokens))
    ensures var s := Run(ll, dl, data, pos, out, n);
      && s.pos == pos + |TokensBits(ll, dl, tokens)| && |s.out| == |out| + TotalSize(tokens) && s.out[..|out|] == out
      && Parses(s.out, |out|, tokens)
  {
    if n == 0 {
      tokens := [];
      assert out[..|out|] == out;
    } else {
      hide Step, TokenBits, LsbBits, Describes, CanCode, TokensBits, TotalSize, Parses, CanCodeAll;
      var s := Run(ll, dl, data, pos, out, n - 1);
      var init := RunIsTokens(ll, dl, data, pos, out, n - 1);
      var t := StepIsToken(ll, dl, data, s.pos, s.out);
      tokens := init + [t];
      OneMoreToken(ll, dl, data, pos, |out|, init, t, s.pos, s.out, Run(ll, dl, data, pos, out, n).out);
    }
  }

  lemma {:induction false} OneMoreToken(ll: seq<nat>, dl: seq<nat>, data: seq<byte>, pos: nat, p: nat,
                                        init: seq<Token>, t: Token, mid: nat, text: seq<byte>, more: seq<byte>)
    requires CanCodeAll(ll, dl, init) && LsbAt(data, pos, TokensBits(ll, dl, init)) && CanCode(ll, dl, t)
    requires mid == pos + |TokensBits(ll, dl, init)| && LsbAt(data, mid, TokenBits(ll, dl, t))
    requires Parses(text, p, init) && |text| == p + TotalSize(init)
    requires |more| == |text| + Size(t) && more[..|text|] == text && Describes(more, |text|, t)
    ensures var tokens := init + [t];
      && CanCodeAll(ll, dl, tokens) && LsbAt(data, pos, TokensBits(ll, dl, tokens))
      && |TokensBits(ll, dl, tokens)| == |TokensBits(ll, dl, init)| + |TokenBits(ll, dl, t)|
      && TotalSize(tokens) == TotalSize(init) + Size(t) && Parses(more, p, tokens) && more[..p] == text[..p]
  {
    hide TokenBits, LsbBits, Describes, CanCode;
    var tokens := init + [t];
    assert tokens[..|init|] == init;
    LongerText(text, more, p, init);
    LsbAtJoin(data, pos, TokensBits(ll, dl, init), TokenBits(ll, dl, t), mid);
  }

  /** What decodes was written: some cut into literals and copies has exactly these bits and this text. */
  lemma {:induction false} DecodedIsBody(ll: seq<nat>, dl: seq<nat>, data: seq<byte>, pos: nat, out: seq<byte>,
                                         pos': nat, out': seq<byte>) returns (tokens: seq<Token>)
    requires IsLengths(ll) && IsLengths(dl) && Decodes(ll, dl, data, pos, out, pos', out')
    ensures HasCode(ll, 256) && CanCodeAll(ll, dl, tokens) && LsbAt(data, pos, BodyBits(ll, dl, tokens))
    ensures pos' == pos + |BodyBits(ll, dl, tokens)| && |out'| == |out| + TotalSize(tokens)
    ensures out'[..|out|] == out && Parses(out', |out|, tokens)
  {
    hide TokensBits, LsbBits, Parses, CanCodeAll;
    var n: nat :| Run(ll, dl, data, pos, out, n) == Ended(pos', out');
    var k := LastStep(ll, dl, data, pos, out, n);
    var s := Run(ll, dl, data, pos, out, k);
    tokens := RunIsTokens(ll, dl, data, pos, out, k);
    EndIsThere(ll, dl, data, s.pos, s.out);
    LsbAtJoin(data, pos, TokensBits(ll, dl, tokens), SymbolBits(ll, 256), s.pos);
  }

  lemma {:induction false} LastStep(ll: seq<nat>, dl: seq<nat>, data: seq<byte>, pos: nat, out: seq<byte>, n: nat)
    returns (k: nat)
    requires Run(ll, dl, data, pos, out, n).Ended?
    ensures k < n && Run(ll, dl, data, pos, out, k).More?
    ensures var s := Run(ll, dl, data, pos, out, k);
      Step(ll, dl, data, s.pos, s.out) == Run(ll, dl, data, pos, out, n)
  {
    hide Step;
    k := n - 1;
    if !Run(ll, dl, data, pos, out, k).More? {
      k := LastStep(ll, dl, data, pos, out, k);
    }
  }

  lemma {:induction false} EndIsThere(ll: seq<nat>, dl: seq<nat>, data: seq<byte>, pos: nat, out: seq<byte>)
    requires IsLengths(ll) && Step(ll, dl, data, pos, out).Ended?
    ensures HasCode(ll, 256) && LsbAt(data, pos, SymbolBits(ll, 256))
    ensures Step(ll, dl, data, pos, out) == Ended(pos + ll[256], out)
  {
    hide NextSymbol, LsbBits, SymbolBits, LengthBase, LengthExtra, DistBase, DistExtra, CopyBack;
    SymbolIsThere(ll, data, pos);
  }
}
