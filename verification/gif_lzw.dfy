/**
 What the GIF decoder makes of its codes, with a dictionary of strings instead of the linked table: the reference that
 the table is proved against. It has the decoder's own limits: entries up to number 8191, the demand for a first clear
 code, and codes of 13 bits for minimum size 12. GifReference compares it with Appendix F of GIF89a.
 */
module GifLzw {
  import opened Bits
  import opened BitSequence

  /** The data of the sub-blocks that start at `i`, without their length bytes. */
  function Deblock(raw: seq<byte>, i: nat): seq<byte>
    decreases |raw| - i
  {
    if ByteAt(raw, i) == 0 then [] else BytesFrom(raw, i + 1, ByteAt(raw, i)) + Deblock(raw, i + 1 + ByteAt(raw, i))
  }

  predicate IsEntry(cs: nat, dict: seq<seq<byte>>, code: nat) {
    code < Pow2(cs) || Pow2(cs) + 2 <= code < Pow2(cs) + 2 + |dict|
  }

  /** Roots stand for one colour each; the entries after clear and end code come from the dictionary. */
  function Entry(cs: nat, dict: seq<seq<byte>>, code: nat): seq<byte>
    requires IsEntry(cs, dict, code)
  {
    if code < Pow2(cs) then [code % 256] else dict[code - Pow2(cs) - 2]
  }

  /** `prev` is the string of the last code, empty right after a clear code. */
  datatype State = State(pos: nat, size: nat, dict: seq<seq<byte>>, prev: seq<byte>, cleared: bool, out: seq<byte>)

  datatype Outcome = Running(state: State) | Finished(out: seq<byte>) | Failed

  function Start(cs: nat): State {
    State(0, cs + 1, [], [], false, [])
  }

  /** The next free code. */
  function Avail(cs: nat, s: State): nat {
    Pow2(cs) + 2 + |s.dict|
  }

  /** No string is empty, and the dictionary is empty until a code was seen. */
  predicate Sound(s: State) {
    && (s.prev == [] ==> s.dict == [])
    && forall i :: 0 <= i < |s.dict| ==> s.dict[i] != []
  }

  predicate IsString(cs: nat, s: State, code: nat) {
    code != Pow2(cs) && code != Pow2(cs) + 1 && code <= Avail(cs, s)
  }

  /** The string of a code; the code about to be defined repeats the last string and its first element. */
  function StringOf(cs: nat, s: State, code: nat): (w: seq<byte>)
    requires Sound(s) && s.prev != [] && IsString(cs, s, code)
    ensures w != []
  {
    if code == Avail(cs, s) then s.prev + [s.prev[0]] else Entry(cs, s.dict, code)
  }

  /** Output a string; the dictionary gains the last string extended by the new first element. */
  function Emit(cs: nat, s: State, code: nat): (r: Outcome)
    requires Sound(s) && IsString(cs, s, code)
    ensures r.Failed? || (r.Running? && Sound(r.state))
  {
    if s.prev == [] then
      if code >= Pow2(cs) then Failed
      else Running(Grow(cs, s.(pos := s.pos + s.size, prev := [code % 256], out := s.out + [code % 256])))
    else if Avail(cs, s) >= 8192 then Failed
    else
      var w := StringOf(cs, s, code);
      Running(Grow(cs, s.(pos := s.pos + s.size, dict := s.dict + [s.prev + [w[0]]], prev := w, out := s.out + w)))
  }

  /** Codes get one bit longer when the next free one needs it, up to twelve bits. */
  function Grow(cs: nat, s: State): State {
    if Low(Avail(cs, s), s.size) == 0 && Avail(cs, s) <= 0xfff then s.(size := s.size + 1) else s
  }

  /** Read and obey one code. The decoder insists on a clear code before the first string. */
  function Step(cs: nat, data: seq<byte>, s: State): (r: Outcome)
    requires Sound(s)
    ensures r.Running? ==> Sound(r.state)
  {
    if s.pos + s.size > 8 * |data| then Finished(s.out)
    else
      var code := Lsb(data, s.pos, s.size);
      if code == Pow2(cs) then Running(State(s.pos + s.size, cs + 1, [], [], true, s.out))
      else if code == Pow2(cs) + 1 then Finished(s.out)
      else if code > Avail(cs, s) || !s.cleared then Failed
      else Emit(cs, s, code)
  }

  /** The state after `n` codes. */
  function Run(cs: nat, data: seq<byte>, n: nat): (r: Outcome)
    ensures r.Running? ==> Sound(r.state)
  {
    if n == 0 then Running(Start(cs))
    else match Run(cs, data, n - 1)
         case Running(s) => Step(cs, data, s)
         case other => other
  }

  lemma {:induction false} RunStart(cs: nat, data: seq<byte>)
    ensures Run(cs, data, 0) == Running(Start(cs))
  {}

  lemma {:induction false} RunStep(cs: nat, data: seq<byte>, n: nat, next: nat)
    requires Run(cs, data, n).Running? && next == n + 1
    ensures Run(cs, data, next) == Step(cs, data, Run(cs, data, n).state)
  {}

  /** Where decoding ends up. */
  ghost predicate Decodes(cs: nat, data: seq<byte>, result: Outcome) {
    !result.Running? && exists n: nat :: Run(cs, data, n) == result
  }

  /** The outcome is unique. */
  lemma {:induction false} RunStays(cs: nat, data: seq<byte>, m: nat, n: nat)
    requires m <= n && !Run(cs, data, m).Running?
    ensures Run(cs, data, n) == Run(cs, data, m)
    decreases n
  {
    if m < n {
      RunStays(cs, data, m, n - 1);
    }
  }

  // ----- code sizes

  /** Codes are just long enough for the next free one, up to twelve bits; before the first string nothing has grown. */
  ghost predicate JustLongEnough(cs: nat, s: State) {
    && cs + 1 <= s.size && (s.size <= 12 || s.size == cs + 1)
    && (s.size > cs + 1 ==> Avail(cs, s) >= Pow2(s.size - 1))
    && (s.size < 12 ==> Avail(cs, s) < Pow2(s.size) || (s.prev == [] && Avail(cs, s) == Pow2(s.size)))
    && Avail(cs, s) <= 8192
  }

  lemma {:induction false} LowZero(a: nat, k: nat)
    requires a > 0
    ensures Low(a, k) == 0 ==> a >= Pow2(k)
    ensures Low(Pow2(k), k) == 0
  {
    Split(a, k);
    ShlZero(k);
    ShlOne(k);
    ShrOfShl(1, k);
    if Shr(a, k) > 0 {
      ShlMono(1, Shr(a, k), k);
    }
  }

  /** One more entry, then perhaps one more bit. */
  lemma {:induction false} GrowKeeps(cs: nat, s: State, t: State)
    requires 1 <= cs <= 12 && JustLongEnough(cs, s) && t.size == s.size
    requires if s.prev == [] then |t.dict| == |s.dict| else |t.dict| == |s.dict| + 1 && Avail(cs, s) < 8192
    ensures JustLongEnough(cs, Grow(cs, t))
  {
    hide Low, Pow2;
    LowZero(Avail(cs, t), t.size);
    TwelveBits();
    if t.size >= 12 {
      Pow2Mono(12, t.size);
    } else {
      Pow2Mono(t.size, 11);
    }
    assert Avail(cs, Grow(cs, t)) == Avail(cs, t);
    assert Pow2(t.size + 1) == 2 * Pow2(t.size) by { DoublePow2(t.size); }
  }

  lemma {:induction false} TwelveBits()
    ensures Pow2(11) == 2048 && Pow2(12) == 4096 && Pow2(1) == 2
  {}

  lemma {:induction false} DoublePow2(k: nat)
    ensures Pow2(k + 1) == 2 * Pow2(k)
  {}

  lemma {:induction false} FreshIsLongEnough(cs: nat, s: State)
    requires 1 <= cs <= 12 && s.dict == [] && s.prev == [] && s.size == cs + 1
    ensures JustLongEnough(cs, s)
  {
    TwelveBits();
    DoublePow2(cs);
    Pow2Mono(1, cs);
    Pow2Mono(cs, 12);
  }

  /** With at least one bit per root, the code size follows Appendix F in every run. */
  lemma {:induction false} CodeSizes(cs: nat, data: seq<byte>, n: nat)
    requires 1 <= cs <= 12 && Run(cs, data, n).Running?
    ensures JustLongEnough(cs, Run(cs, data, n).state)
  {
    hide Pow2, Lsb, Grow, JustLongEnough;
    var t := Run(cs, data, n).state;
    if n == 0 {
      FreshIsLongEnough(cs, t);
    } else {
      var s := Run(cs, data, n - 1).state;
      CodeSizes(cs, data, n - 1);
      var code := Lsb(data, s.pos, s.size);
      if code == Pow2(cs) {
        FreshIsLongEnough(cs, t);
      } else if s.prev == [] {
        GrowKeeps(cs, s, s.(pos := s.pos + s.size, prev := [code % 256], out := s.out + [code % 256]));
      } else {
        var w := StringOf(cs, s, code);
        GrowKeeps(cs, s, s.(pos := s.pos + s.size, dict := s.dict + [s.prev + [w[0]]], prev := w, out := s.out + w));
      }
    }
  }

  /**
   The decoder accepts minimum sizes from 0 to 12. In every state of every run codes are just long enough exactly if
   the size is not 0: then even the first codes have one bit, and the next free code is 3.
   */
  lemma {:induction false} CodeSizesExact(cs: nat)
    requires cs <= 12
    ensures (forall data: seq<byte>, n: nat :: Run(cs, data, n).Running? ==> JustLongEnough(cs, Run(cs, data, n).state))
      <==> cs >= 1
  {
    if cs >= 1 {
      forall data: seq<byte>, n: nat | Run(cs, data, n).Running? ensures JustLongEnough(cs, Run(cs, data, n).state) {
        CodeSizes(cs, data, n);
      }
    } else {
      TooShortAtFirst();
    }
  }

  lemma {:induction false} TooShortAtFirst()
    ensures Run(0, [], 0) == Running(Start(0)) && Avail(0, Start(0)) == 3 && !JustLongEnough(0, Start(0))
  {
    assert Pow2(0) == 1 && Pow2(1) == 2;
  }
}
