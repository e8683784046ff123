/**
 The open-addressing table of the interning string pool: linear probing from the home slot
 of a hash, in a table whose size is a power of two.
 */
module StringTable {
  import opened Bits
  import opened Ring

  datatype Bucket = Bucket(offset: nat, length: nat, hash: nat, used: bool)

  const UNUSED := Bucket(0, 0, 0, false)

  /** How many steps lead from `home` to slot `i`. */
  function Distance(home: nat, i: nat, cap: nat): (n: nat)
    requires home < cap && i < cap
    ensures n < cap && Slot(home, n, cap) == i
  {
    if i >= home then i - home else i + cap - home
  }

  /** The first `n` slots from `home` on are used. */
  predicate UsedRun(t: seq<Bucket>, home: nat, n: nat)
    requires home < |t| && n <= |t|
  {
    forall m :: 0 <= m < n ==> t[Slot(home, m, |t|)].used
  }

  /** The home slot: the low bits of the hash. */
  function Home(hash: nat, k: nat): (i: nat)
    ensures i < Pow2(k)
  {
    Split(hash, k);
    Low(hash, k)
  }

  /** Probing from its home reaches bucket `i` through used slots. */
  predicate Reachable(t: seq<Bucket>, k: nat, i: nat)
    requires |t| == Pow2(k) && i < |t|
  {
    var home := Home(t[i].hash, k);
    UsedRun(t, home, Distance(home, i, |t|))
  }

  ghost predicate WellFormed(t: seq<Bucket>, k: nat) {
    |t| == Pow2(k) && forall i :: 0 <= i < |t| && t[i].used ==> Reachable(t, k, i)
  }

  function UsedCount(t: seq<Bucket>): nat {
    if t == [] then 0 else UsedCount(t[..|t| - 1]) + if t[|t| - 1].used then 1 else 0
  }

  // ----- counting

  lemma {:induction false} CountBound(t: seq<Bucket>)
    ensures UsedCount(t) <= |t|
    ensures UsedCount(t) == |t| <==> forall i :: 0 <= i < |t| ==> t[i].used
  {
    if t != [] {
      CountBound(t[..|t| - 1]);
      assert forall i :: 0 <= i < |t| - 1 ==> t[..|t| - 1][i] == t[i];
    }
  }

  /** A table that is not full has a free slot. */
  lemma {:induction false} FreeSlot(t: seq<Bucket>) returns (e: nat)
    requires UsedCount(t) < |t|
    ensures e < |t| && !t[e].used
  {
    CountBound(t);
    e :| e < |t| && !t[e].used;
  }

  lemma {:induction false} CountUpdate(t: seq<Bucket>, i: nat, b: Bucket)
    requires i < |t| && !t[i].used && b.used
    ensures UsedCount(t[i := b]) == UsedCount(t) + 1
  {
    var n := |t| - 1;
    if i == n {
      assert t[i := b][..n] == t[..n];
    } else {
      CountUpdate(t[..n], i, b);
      assert t[i := b][..n] == t[..n][i := b];
    }
  }

  lemma {:induction false} CountNone(t: seq<Bucket>)
    requires forall i :: 0 <= i < |t| ==> !t[i].used
    ensures UsedCount(t) == 0
  {
    if t != [] {
      CountNone(t[..|t| - 1]);
    }
  }

  // ----- probing

  /** The mask takes the next slot around the end. */
  lemma {:induction false} NextSlot(home: nat, n: nat, next: nat, k: nat, cap: nat, mask: nat, idx: nat)
    requires cap == Pow2(k) && mask == cap - 1 && next == n + 1
    requires home < cap && next < cap && idx == Slot(home, n, cap)
    ensures And(idx + 1, mask) == Slot(home, next, cap)
  {
    hide And, Pow2;
    MaskIsSlot(idx, 1, k);
  }

  lemma {:induction false} HomeIsMask(hash: nat, k: nat, mask: nat, cap: nat)
    requires mask + 1 == cap == Pow2(k)
    ensures And(hash, mask) == Home(hash, k) == Slot(Home(hash, k), 0, cap)
  {
    AndMask(hash, k);
  }

  /** Filling a slot keeps every other bucket reachable. */
  lemma {:induction false} InsertKeeps(t: seq<Bucket>, k: nat, i: nat, b: Bucket)
    requires WellFormed(t, k) && i < |t| && b.used
    requires var home := Home(b.hash, k); UsedRun(t, home, Distance(home, i, |t|))
    ensures WellFormed(t[i := b], k)
  {
    hide Home, Distance, Slot, Pow2;
    var u := t[i := b];
    forall j | 0 <= j < |u| && u[j].used ensures Reachable(u, k, j) {
      if j != i {
        assert Reachable(t, k, j);
      }
    }
  }

  /** sp_table_insert_no_grow: take the first free slot from the home slot on. */
  method InsertNoGrow(table: array<Bucket>, ghost k: nat, cap_mask: nat, hash: nat, offset: nat, length: nat)
    returns (ghost at: nat)
    requires WellFormed(table[..], k) && cap_mask == Pow2(k) - 1 && UsedCount(table[..]) < table.Length
    modifies table
    ensures at < table.Length && !old(table[at]).used
    ensures table[..] == old(table[..])[at := Bucket(offset, length, hash, true)]
    ensures WellFormed(table[..], k) && UsedCount(table[..]) == old(UsedCount(table[..])) + 1
  {
    hide And, Pow2, Home, UsedCount, Reachable;
    ghost var t := table[..];
    ghost var home := Home(hash, k);
    ghost var e := FreeSlot(t);
    HomeIsMask(hash, k, cap_mask, |t|);
    var idx := And(hash, cap_mask);
    ghost var n := 0;
    while table[idx].used
      invariant table[..] == t && n <= Distance(home, e, |t|) && idx == Slot(home, n, |t|) && UsedRun(t, home, n)
      decreases |t| - n
    {
      ghost var next := n + 1;
      NextSlot(home, n, next, k, |t|, cap_mask, idx);
      idx := And(idx + 1, cap_mask);
      n := next;
    }
    assert n == Distance(home, idx, |t|);
    CountUpdate(t, idx, Bucket(offset, length, hash, true));
    InsertKeeps(t, k, idx, Bucket(offset, length, hash, true));
    table[idx] := Bucket(offset, length, hash, true);
    at := idx;
  }

  /** The buckets in use, wherever they are. */
  ghost predicate SameBuckets(t: seq<Bucket>, u: seq<Bucket>) {
    forall b: Bucket :: b.used ==> (b in t <==> b in u)
  }

  /** sp_grow: a table twice as large, or the first one, with the same buckets. */
  method Grow(table: array<Bucket>, ghost k: nat) returns (grown: array<Bucket>, ghost k': nat)
    requires table.Length == 0 || WellFormed(table[..], k)
    ensures fresh(grown) && grown.Length == (if table.Length == 0 then 64 else 2 * table.Length)
    ensures WellFormed(grown[..], k') && SameBuckets(table[..], grown[..])
    ensures UsedCount(grown[..]) == UsedCount(table[..])
  {
    var new_cap := if table.Length != 0 then table.Length * 2 else 64;
    k' := if table.Length != 0 then k + 1 else 6;
    grown := new Bucket[new_cap](_ => UNUSED);
    SixtyFour();
    CountNone(grown[..]);
    for i := 0 to table.Length
      invariant fresh(grown) && WellFormed(grown[..], k') && UsedCount(grown[..]) == UsedCount(table[..i])
      invariant SameBuckets(table[..i], grown[..])
    {
      GrowRoom(table[..], i);
      assert table[..i + 1][..i] == table[..i] && table[..i + 1] == table[..i] + [table[i]];
      if table[i].used {
        ghost var before := grown[..];
        ghost var at := InsertNoGrow(grown, k', new_cap - 1, table[i].hash, table[i].offset, table[i].length);
        BucketsAfterInsert(table[..i], before, at, table[i]);
      }
    }
    assert table[..table.Length] == table[..];
  }

  lemma {:induction false} SixtyFour()
    ensures Pow2(6) == 64
  {}

  lemma {:induction false} GrowRoom(t: seq<Bucket>, i: nat)
    requires i < |t|
    ensures UsedCount(t[..i]) < 2 * |t|
  {
    CountBound(t[..i]);
  }

  lemma {:induction false} BucketsAfterInsert(t: seq<Bucket>, u: seq<Bucket>, at: nat, b: Bucket)
    requires SameBuckets(t, u) && at < |u| && !u[at].used && b.used
    ensures SameBuckets(t + [b], u[at := b])
  {
    forall c: Bucket | c.used ensures c in t + [b] <==> c in u[at := b] {
      if c in u {
        var j :| 0 <= j < |u| && u[j] == c;
        assert u[at := b][j] == c;
      }
      assert u[at := b][at] == b;
    }
  }
}
