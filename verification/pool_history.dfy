/** Histories of a string pool: what any sequence of adds and clears does to the offsets. */
module PoolHistory {
  import opened BitSequence

  const INVALID_OFFSET := 0xffff_ffff_ffff_ffff

  datatype Op = Add(data: seq<byte>) | Clear

  /** The strings of a pool with their offsets, and where the next one goes. */
  datatype Pool = Pool(strings: map<seq<byte>, nat>, size: nat)

  function Apply(p: Pool, op: Op): Pool {
    match op
    case Clear => Pool(map[], 0)
    case Add(data) =>
      if data == [] || data in p.strings then p else Pool(p.strings[data := p.size], p.size + |data| + 1)
  }

  /** What an add returns: the offset that the pool has for the string afterwards. */
  function Returned(p: Pool, data: seq<byte>): nat {
    if data == [] then INVALID_OFFSET else Apply(p, Add(data)).strings[data]
  }

  function Run(ops: seq<Op>): Pool {
    if ops == [] then Pool(map[], 0) else Apply(Run(ops[..|ops| - 1]), ops[|ops| - 1])
  }

  /** What operation `i` of a history returned. */
  function ReturnedAt(ops: seq<Op>, i: nat): nat
    requires i < |ops| && ops[i].Add?
  {
    Returned(Run(ops[..i]), ops[i].data)
  }

  /** The strings lie one behind the other, each with its terminator. */
  ghost predicate Disjoint(p: Pool) {
    && (forall s :: s in p.strings ==> s != [] && p.strings[s] + |s| < p.size)
    && forall s, u :: s in p.strings && u in p.strings && s != u ==>
         p.strings[s] + |s| < p.strings[u] || p.strings[u] + |u| < p.strings[s]
  }

  lemma {:induction false} RunDisjoint(ops: seq<Op>)
    ensures Disjoint(Run(ops))
  {
    if ops != [] {
      RunDisjoint(ops[..|ops| - 1]);
    }
  }

  ghost predicate NoClear(ops: seq<Op>, i: nat, j: nat) {
    forall m :: i <= m < j && m < |ops| ==> ops[m].Add?
  }

  /** Between clears a string keeps its offset. */
  lemma {:induction false} OffsetStays(ops: seq<Op>, i: nat, j: nat, s: seq<byte>)
    requires i <= j <= |ops| && NoClear(ops, i, j) && s in Run(ops[..i]).strings
    ensures s in Run(ops[..j]).strings && Run(ops[..j]).strings[s] == Run(ops[..i]).strings[s]
    decreases j - i
  {
    if i < j {
      OffsetStays(ops, i, j - 1, s);
      assert ops[..j][..j - 1] == ops[..j - 1] && ops[..j][j - 1] == ops[j - 1];
    }
  }

  lemma {:induction false} ReturnedIsKept(ops: seq<Op>, i: nat)
    requires i < |ops| && ops[i].Add? && ops[i].data != []
    ensures ops[i].data in Run(ops[..i + 1]).strings && ReturnedAt(ops, i) == Run(ops[..i + 1]).strings[ops[i].data]
  {
    assert ops[..i + 1][..i] == ops[..i];
  }

  /** In any history, two adds without a clear between them return the same offset exactly for the same string. */
  lemma {:induction false} SameOffsetIffSameString(ops: seq<Op>, i: nat, j: nat)
    requires i < j < |ops| && ops[i].Add? && ops[j].Add? && NoClear(ops, i, j + 1)
    requires ops[i].data != [] && ops[j].data != []
    ensures ReturnedAt(ops, i) == ReturnedAt(ops, j) <==> ops[i].data == ops[j].data
  {
    ReturnedIsKept(ops, i);
    ReturnedIsKept(ops, j);
    OffsetStays(ops, i + 1, j + 1, ops[i].data);
    RunDisjoint(ops[..j + 1]);
  }
}
