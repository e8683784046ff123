/**
 Decoding after Appendix F of GIF89a: codes have at most twelve bits, so the table holds 4096 codes; a full table
 stays as it is until the next clear code; a stream should begin with a clear code, but need not. The decoder goes
 on numbering entries up to 8192, fails after that, and demands the first clear code. What is proved: exactly when
 that makes a difference.
 */
module GifReference {
  import opened Bits
  import opened BitSequence
  import opened GifLzw

  /** How many codes twelve bits can tell apart. */
  const TABLE_SIZE := 4096

  /** A state, and how many strings came since the last clear code, or since the start. */
  datatype Progress = Progress(s: State, strings: nat)

  datatype Result = Going(p: Progress) | Ended(out: seq<byte>) | Invalid

  /** Read and obey one code. */
  function RefStep(cs: nat, data: seq<byte>, p: Progress): (r: Result)
    requires Sound(p.s)
    ensures r.Going? ==> Sound(r.p.s)
  {
    var s := p.s;
    if s.pos + s.size > 8 * |data| then Ended(s.out)
    else
      var code, pos := Lsb(data, s.pos, s.size), s.pos + s.size;
      if code == Pow2(cs) then Going(Progress(State(pos, cs + 1, [], [], true, s.out), 0))
      else if code == Pow2(cs) + 1 then Ended(s.out)
      else if s.prev == [] then
        if code >= Pow2(cs) then Invalid
        else Going(Progress(Grow(cs, s.(pos := pos, prev := [code % 256], out := s.out + [code % 256])), 1))
      else if Avail(cs, s) < TABLE_SIZE then
        if code > Avail(cs, s) then Invalid
        else
          var w := StringOf(cs, s, code);
          var dict := s.dict + [s.prev + [w[0]]];
          Going(Progress(Grow(cs, s.(pos := pos, dict := dict, prev := w, out := s.out + w)), p.strings + 1))
      else if code >= Avail(cs, s) then Invalid
      else
        var w := Entry(cs, s.dict, code);
        Going(Progress(s.(pos := pos, prev := w, out := s.out + w), p.strings + 1))
  }

  /** The state after `n` codes. */
  function RefRun(cs: nat, data: seq<byte>, n: nat): (r: Result)
    ensures r.Going? ==> Sound(r.p.s)
  {
    if n == 0 then Going(Progress(Start(cs), 0))
    else match RefRun(cs, data, n - 1)
         case Going(p) => RefStep(cs, data, p)
         case other => other
  }

  function AsOutcome(r: Result): Outcome
    requires !r.Going?
  {
    if r.Ended? then Finished(r.out) else Failed
  }

  /** Where Appendix F ends up. */
  ghost predicate RefDecodes(cs: nat, data: seq<byte>, result: Outcome) {
    exists n: nat :: !RefRun(cs, data, n).Going? && result == AsOutcome(RefRun(cs, data, n))
  }

  // ----- Appendix F always ends, in one way

  lemma {:induction false} RefStays(cs: nat, data: seq<byte>, m: nat, n: nat)
    requires m <= n && !RefRun(cs, data, m).Going?
    ensures RefRun(cs, data, n) == RefRun(cs, data, m)
    decreases n
  {
    hide RefStep;
    if m < n {
      RefStays(cs, data, m, n - 1);
    }
  }

  lemma {:induction false} RefDecodesOnce(cs: nat, data: seq<byte>, a: Outcome, b: Outcome)
    requires RefDecodes(cs, data, a) && RefDecodes(cs, data, b)
    ensures a == b
  {
    hide RefRun;
    var m: nat :| !RefRun(cs, data, m).Going? && a == AsOutcome(RefRun(cs, data, m));
    var n: nat :| !RefRun(cs, data, n).Going? && b == AsOutcome(RefRun(cs, data, n));
    if m <= n {
      RefStays(cs, data, m, n);
    } else {
      RefStays(cs, data, n, m);
    }
  }

  lemma {:induction false} RefMovesOn(cs: nat, data: seq<byte>, p: Progress)
    requires Sound(p.s) && p.s.size > 0
    ensures var r := RefStep(cs, data, p); r.Going? ==> r.p.s.size > 0 && p.s.pos < r.p.s.pos <= 8 * |data|
  {
    hide Lsb, Pow2, Low;
  }

  lemma {:induction false} RefPosition(cs: nat, data: seq<byte>, n: nat)
    ensures var r := RefRun(cs, data, n);
      r.Going? ==> r.p.s.size > 0 && r.p.s.pos >= n && (n > 0 ==> r.p.s.pos <= 8 * |data|)
  {
    hide RefStep;
    if n > 0 && RefRun(cs, data, n - 1).Going? {
      RefPosition(cs, data, n - 1);
      RefMovesOn(cs, data, RefRun(cs, data, n - 1).p);
    }
  }

  lemma {:induction false} RefEnds(cs: nat, data: seq<byte>) returns (result: Outcome)
    ensures RefDecodes(cs, data, result)
  {
    var n := 8 * |data| + 1;
    RefPosition(cs, data, n);
    result := AsOutcome(RefRun(cs, data, n));
  }

  lemma {:induction false} NotRunning(cs: nat, data: seq<byte>, result: Outcome)
    requires RefDecodes(cs, data, result)
    ensures !result.Running?
  {}

  // ----- the decoder follows Appendix F

  /** The next code is a string, and the decoder refuses it: no clear code came yet, or too many strings since. */
  ghost predicate Refuses(cs: nat, data: seq<byte>, p: Progress)
    requires Sound(p.s)
  {
    var r := RefStep(cs, data, p);
    r.Going? && r.p.strings > 0 && (!p.s.cleared || r.p.strings + Pow2(cs) > 8191)
  }

  /** Somewhere in the data the decoder refuses a string. */
  ghost predicate Refused(cs: nat, data: seq<byte>) {
    exists n: nat :: RefRun(cs, data, n).Going? && Refuses(cs, data, RefRun(cs, data, n).p)
  }

  /** The same state, but for entries that Appendix F does not define. */
  ghost predicate Agrees(cs: nat, s: State, p: Progress) {
    var full := TABLE_SIZE - 2 - Pow2(cs);
    && p.s.pos == s.pos && p.s.size == s.size && p.s.prev == s.prev && p.s.cleared == s.cleared && p.s.out == s.out
    && (s.prev == [] <==> p.strings == 0) && |s.dict| == (if p.strings == 0 then 0 else p.strings - 1)
    && p.s.dict == if |s.dict| <= full then s.dict else if full >= 0 then s.dict[..full] else []
  }

  ghost predicate SameResult(cs: nat, a: Outcome, b: Result) {
    match a
    case Running(s) => b.Going? && Agrees(cs, s, b.p)
    case Finished(out) => b == Ended(out)
    case Failed => b == Invalid
  }

  /** Codes fit twelve bits. */
  lemma {:induction false} CodeBound(cs: nat, data: seq<byte>, s: State)
    requires 1 <= cs <= 11 && JustLongEnough(cs, s)
    ensures Lsb(data, s.pos, s.size) < TABLE_SIZE && Pow2(cs) <= 2048
  {
    hide Lsb, Pow2;
    LsbBound(data, s.pos, s.size);
    Pow2Mono(s.size, 12);
    Pow2Mono(cs, 11);
    TwelveBits();
  }

  lemma {:induction false} StepAgrees(cs: nat, data: seq<byte>, s: State, p: Progress)
    requires 1 <= cs <= 11 && Sound(s) && Sound(p.s) && Agrees(cs, s, p) && JustLongEnough(cs, s)
    ensures if Refuses(cs, data, p) then Step(cs, data, s) == Failed
            else SameResult(cs, Step(cs, data, s), RefStep(cs, data, p))
  {
    hide Lsb, Pow2, Low, JustLongEnough;
    CodeBound(cs, data, s);
  }

  lemma {:induction false} RunAgrees(cs: nat, data: seq<byte>, n: nat)
    requires 1 <= cs <= 11
    requires forall k: nat :: k < n && RefRun(cs, data, k).Going? ==> !Refuses(cs, data, RefRun(cs, data, k).p)
    ensures SameResult(cs, Run(cs, data, n), RefRun(cs, data, n))
  {
    hide Step, RefStep, Agrees, Refuses;
    if n == 0 {
      AgreesAtFirst(cs);
    } else {
      RunAgrees(cs, data, n - 1);
      var before := RefRun(cs, data, n - 1);
      if before.Going? {
        CodeSizes(cs, data, n - 1);
        StepAgrees(cs, data, Run(cs, data, n - 1).state, before.p);
      }
    }
  }

  lemma {:induction false} AgreesAtFirst(cs: nat)
    requires cs <= 11
    ensures Agrees(cs, Start(cs), Progress(Start(cs), 0))
  {
    Pow2Mono(cs, 11);
    TwelveBits();
  }

  /** The first string that is refused. */
  lemma {:induction false} FirstRefusal(cs: nat, data: seq<byte>, n: nat) returns (k: nat)
    requires RefRun(cs, data, n).Going? && Refuses(cs, data, RefRun(cs, data, n).p)
    ensures RefRun(cs, data, k).Going? && Refuses(cs, data, RefRun(cs, data, k).p)
    ensures forall i: nat :: i < k && RefRun(cs, data, i).Going? ==> !Refuses(cs, data, RefRun(cs, data, i).p)
  {
    hide RefRun, Refuses;
    k := n;
    if i: nat :| i < n && RefRun(cs, data, i).Going? && Refuses(cs, data, RefRun(cs, data, i).p) {
      k := FirstRefusal(cs, data, i);
    }
  }

  /**
   For minimum code sizes from 1 to 11: the decoder fails where it refuses a string, and otherwise its outcome is
   that of Appendix F. So it meets Appendix F on exactly those data in which it refuses no string, or which are
   invalid anyway.
   */
  lemma {:induction false} OutcomeExact(cs: nat, data: seq<byte>, result: Outcome, reference: Outcome)
    requires 1 <= cs <= 11 && Decodes(cs, data, result) && RefDecodes(cs, data, reference)
    ensures result == if Refused(cs, data) then Failed else reference
    ensures result == reference <==> !Refused(cs, data) || reference == Failed
  {
    hide Run, RefRun, Refuses;
    var m: nat :| Run(cs, data, m) == result;
    var n: nat :| !RefRun(cs, data, n).Going? && reference == AsOutcome(RefRun(cs, data, n));
    if i: nat :| RefRun(cs, data, i).Going? && Refuses(cs, data, RefRun(cs, data, i).p) {
      var k := FirstRefusal(cs, data, i);
      FailsAt(cs, data, k, k + 1);
      SameOutcome(cs, data, m, k + 1);
    } else {
      RunAgrees(cs, data, n);
      SameOutcome(cs, data, m, n);
    }
  }

  lemma {:induction false} FailsAt(cs: nat, data: seq<byte>, k: nat, next: nat)
    requires 1 <= cs <= 11 && next == k + 1
    requires RefRun(cs, data, k).Going? && Refuses(cs, data, RefRun(cs, data, k).p)
    requires forall i: nat :: i < k && RefRun(cs, data, i).Going? ==> !Refuses(cs, data, RefRun(cs, data, i).p)
    ensures Run(cs, data, next) == Failed
  {
    hide Step, RefStep, Agrees, Refuses;
    RunAgrees(cs, data, k);
    CodeSizes(cs, data, k);
    StepAgrees(cs, data, Run(cs, data, k).state, RefRun(cs, data, k).p);
  }

  lemma {:induction false} SameOutcome(cs: nat, data: seq<byte>, m: nat, n: nat)
    requires !Run(cs, data, m).Running? && !Run(cs, data, n).Running?
    ensures Run(cs, data, m) == Run(cs, data, n)
  {
    if m <= n {
      RunStays(cs, data, m, n);
    } else {
      RunStays(cs, data, n, m);
    }
  }

  // ----- a valid stream that the decoder refuses

  /** A clear code of eight bits, then zeros: after the clear code, every code is 0. */
  function ClearThenZeros(k: nat): seq<byte> {
    [128] + Zeros(k)
  }

  lemma {:induction false} ZeroBits(k: nat, pos: nat, n: nat)
    requires pos >= 8
    ensures Lsb(ClearThenZeros(k), pos, n) == 0
    decreases n
  {
    if n > 0 {
      ZeroBits(k, pos + 1, n - 1);
      assert ByteAt(ClearThenZeros(k), pos / 8) == 0;
      BitOfZero(pos % 8);
    }
  }

  lemma {:induction false} ClearBits(k: nat)
    ensures Lsb(ClearThenZeros(k), 0, 8) == 128 == Pow2(7)
  {
    LsbByte(ClearThenZeros(k), 0);
  }

  /** Appendix F decodes one string after the other, until the data end. */
  lemma {:induction false} ZerosGoOn(k: nat, n: nat)
    requires n >= 1
    ensures var r := RefRun(7, ClearThenZeros(k), n);
      && !r.Invalid?
      && (r.Going? ==> r.p.strings == n - 1 && r.p.s.cleared && 8 <= r.p.s.pos <= 8 + 12 * (n - 1) && Zeroed(r.p))
      && (8 + 12 * n <= 8 * (k + 1) ==> r.Going?)
  {
    var data := ClearThenZeros(k);
    hide Lsb, Pow2, Low;
    if n == 1 {
      FirstIsClear(k);
    } else {
      hide RefStep;
      ZerosGoOn(k, n - 1);
      var r := RefRun(7, data, n - 1);
      if r.Going? {
        ZeroStep(k, r.p, n - 2);
      }
    }
  }

  lemma {:induction false} FirstIsClear(k: nat)
    ensures RefRun(7, ClearThenZeros(k), 1) == Going(Progress(State(8, 8, [], [], true, []), 0))
  {
    hide Lsb, Pow2;
    ClearBits(k);
    assert RefRun(7, ClearThenZeros(k), 0) == Going(Progress(Start(7), 0));
  }

  lemma {:induction false} ZeroStep(k: nat, p: Progress, strings: nat)
    requires Sound(p.s) && p.strings == strings && p.s.pos >= 8 && Zeroed(p)
    ensures var r := RefStep(7, ClearThenZeros(k), p);
      && !r.Invalid?
      && (r.Going? ==> r.p.strings == strings + 1 && r.p.s.cleared == p.s.cleared
                       && r.p.s.pos == p.s.pos + p.s.size && Zeroed(r.p))
      && (p.s.pos + 12 <= 8 * (k + 1) ==> r.Going?)
  {
    hide Lsb, Pow2, Low;
    ZeroBits(k, p.s.pos, p.s.size);
    SevenBits();
    if r: Progress :| RefStep(7, ClearThenZeros(k), p) == Going(r) {
      NoThirteen(r.s.(size := p.s.size));
    }
  }

  lemma {:induction false} SevenBits()
    ensures Pow2(7) == 128
  {}

  ghost predicate Zeroed(p: Progress) {
    1 <= p.s.size <= 12 && (p.s.prev == [] <==> p.strings == 0)
  }

  /** Codes never get longer than twelve bits. */
  lemma {:induction false} NoThirteen(s: State)
    requires s.size <= 12
    ensures Grow(7, s).size <= 12
  {
    hide Low, Pow2;
    TwelveBits();
    if Avail(7, s) <= 0xfff {
      LowSmall(Avail(7, s), 12);
    }
  }

  /** More than 8063 strings without another clear code: Appendix F decodes them, the decoder fails. */
  lemma {:induction false} FullTableFails(k: nat, result: Outcome, reference: Outcome)
    requires k >= 12_098 && Decodes(7, ClearThenZeros(k), result) && RefDecodes(7, ClearThenZeros(k), reference)
    ensures result == Failed && reference.Finished?
  {
    hide RefRun, RefStep;
    var data := ClearThenZeros(k);
    ZerosGoOn(k, 8064);
    ZerosGoOn(k, 8065);
    RefNext(7, data, 8064, 8065);
    SevenBits();
    assert Refuses(7, data, RefRun(7, data, 8064).p);
    OutcomeExact(7, data, result, reference);
    var n: nat :| !RefRun(7, data, n).Going? && reference == AsOutcome(RefRun(7, data, n));
    RefFirst(7, data);
    ZerosGoOn(k, n);
  }

  lemma {:induction false} RefFirst(cs: nat, data: seq<byte>)
    ensures RefRun(cs, data, 0).Going?
  {}

  lemma {:induction false} RefNext(cs: nat, data: seq<byte>, n: nat, next: nat)
    requires RefRun(cs, data, n).Going? && next == n + 1
    ensures RefRun(cs, data, next) == RefStep(cs, data, RefRun(cs, data, n).p)
  {}
}
