/** Positions in an array that wraps around, as a ring buffer and a hash table use it. */
module Ring {
  import opened Bits

  /** The slot `i` steps after slot `first`, around the end of an array of `n` slots. */
  function Slot(first: nat, i: nat, n: nat): (slot: nat)
    requires first < n && i <= n
    ensures slot < n
  {
    if first + i < n then first + i else first + i - n
  }

  /** The source computes slots with a mask, which is right because sizes are powers of two. */
  lemma {:induction false} MaskIsSlot(first: nat, i: nat, logSize: nat)
    requires first < Pow2(logSize) && i <= Pow2(logSize)
    ensures And(first + i, Pow2(logSize) - 1) == Slot(first, i, Pow2(logSize))
  {
    AndMask(first + i, logSize);
    var n := Pow2(logSize);
    if first + i < n {
      LowSmall(first + i, logSize);
    } else if first + i < 2 * n {
      ShlOne(logSize);
      Join(1, first + i - n, logSize);
    }
  }
}
