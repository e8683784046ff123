/**
 How high the trees of huffman_build_tree get. Long codes need many samples, at the
 Fibonacci rate that the source's header comment tabulates; and scaling all weights down
 to one gives a tree that is as flat as the number of symbols allows.
 */
module HuffmanShape {
  import opened Bits
  import opened HuffmanTree

  ghost predicate Sorted(items: seq<Tree>) {
    forall i, j :: 0 <= i < j < |items| ==> Weight(items[i]) >= Weight(items[j])
  }

  lemma {:induction false} InsertSorted(items: seq<Tree>, x: Tree)
    requires Sorted(items)
    ensures Sorted(Insert(items, x))
  {
    InsertAtPlace(items, x);
  }

  lemma {:induction false} SortSorted(items: seq<Tree>)
    ensures Sorted(Sort(items))
  {
    if items != [] {
      SortSorted(items[..|items| - 1]);
      InsertSorted(Sort(items[..|items| - 1]), items[|items| - 1]);
    }
  }

  /** Sorting only moves trees: whatever holds of every tree still does. */
  lemma {:induction false} InsertKeeps(items: seq<Tree>, x: Tree, t: Tree)
    ensures t in Insert(items, x) <==> t in items || t == x
  {
    InsertAtPlace(items, x);
    var k := Place(items, x);
    assert items == items[..k] + items[k..];
  }

  lemma {:induction false} SortKeeps(items: seq<Tree>, t: Tree)
    ensures t in Sort(items) <==> t in items
  {
    if items != [] {
      var n := |items| - 1;
      SortKeeps(items[..n], t);
      InsertKeeps(Sort(items[..n]), items[n], t);
      assert items == items[..n] + [items[n]];
    }
  }

  // ----- Fibonacci

  function Fib(n: nat): nat {
    if n < 2 then n else Fib(n - 1) + Fib(n - 2)
  }

  /** The weight of the heavier child. */
  function ChildWeight(t: Tree): nat {
    match t
    case Leaf(_, _) => 0
    case Node(_, l, r) => Max(Weight(l), Weight(r))
  }

  /** In every node, each side weighs at least as much as either child of the other side. */
  ghost predicate Balanced(t: Tree) {
    match t
    case Leaf(_, w) => w >= 1
    case Node(_, l, r) =>
      && Balanced(l) && Balanced(r)
      && ChildWeight(l) <= Weight(r) && ChildWeight(r) <= Weight(l)
  }

  lemma {:induction false} FibMono(n: nat)
    ensures Fib(n) <= Fib(n + 1)
  {
    if n >= 2 {
      FibMono(n - 1);
      FibMono(n - 2);
    }
  }

  lemma {:induction false} FibMonotone(a: nat, b: nat)
    requires a <= b
    ensures Fib(a) <= Fib(b)
    decreases b - a
  {
    if a < b {
      FibMono(a);
      FibMonotone(a + 1, b);
    }
  }

  lemma {:induction false} FibTwo()
    ensures Fib(2) == 1
  {}

  /** The higher side and its heavier child bring the Fibonacci sum. */
  lemma {:induction false} HeavySide(high: Tree, low: Tree, h: nat)
    requires Balanced(high) && Balanced(low) && ChildWeight(high) <= Weight(low)
    requires Weight(high) >= Fib(Height(high) + 2) && Weight(low) >= Fib(Height(low) + 2)
    requires high.Node? ==> ChildWeight(high) >= Fib(Height(high) + 1)
    requires h == Height(high) + 1
    ensures Weight(high) + Weight(low) >= Fib(h + 2) && Weight(high) >= Fib(h + 1)
  {
    if high.Leaf? {
      FibMonotone(2, Height(low) + 2);
    }
  }

  lemma {:induction false} BalancedIsHeavy(t: Tree)
    requires Balanced(t)
    ensures Weight(t) >= Fib(Height(t) + 2)
    ensures t.Node? ==> ChildWeight(t) >= Fib(Height(t) + 1)
  {
    hide Fib;
    if t.Node? {
      var l, r := t.left, t.right;
      BalancedIsHeavy(l);
      BalancedIsHeavy(r);
      if Height(l) >= Height(r) {
        HeavySide(l, r, Height(t));
      } else {
        HeavySide(r, l, Height(t));
      }
    } else {
      FibTwo();
    }
  }

  /** What the merge loop keeps: no tree is lighter than anything merged so far. */
  ghost predicate Growing(items: seq<Tree>, merged: nat) {
    && Sorted(items)
    && forall t :: t in items ==> Balanced(t) && ChildWeight(t) <= merged <= Weight(t)
  }

  lemma {:induction false} JoinedIsBalanced(items: seq<Tree>, next: nat)
    requires |items| >= 2 && Sorted(items)
    requires forall i :: |items| - 2 <= i < |items| ==> Balanced(items[i])
    requires ChildWeight(items[|items| - 2]) <= Weight(items[|items| - 1])
    requires ChildWeight(items[|items| - 1]) <= Weight(items[|items| - 2])
    ensures var a, b := items[|items| - 2], items[|items| - 1];
      var t := Node(next, a, b);
      Balanced(t) && ChildWeight(t) <= Weight(a) <= Weight(t) && Sorted(MergeStep(items, next))
  {
    InsertSorted(items[..|items| - 2], Node(next, items[|items| - 2], items[|items| - 1]));
  }

  lemma {:induction false} OtherIsHeavier(items: seq<Tree>, t: Tree)
    requires |items| >= 2 && Sorted(items) && t in items[..|items| - 2]
    ensures t in items && Weight(items[|items| - 2]) <= Weight(t)
  {
    var k :| 0 <= k < |items| - 2 && items[..|items| - 2][k] == t;
    assert items[k] == t;
  }

  lemma {:induction false} MergeStepGrowing(items: seq<Tree>, next: nat, merged: nat)
    requires |items| >= 2 && Growing(items, merged)
    ensures Growing(MergeStep(items, next), Weight(items[|items| - 2]))
  {
    hide Balanced, ChildWeight, Sorted, Weight, Insert;
    var n := |items|;
    var a, b := items[n - 2], items[n - 1];
    var node := Node(next, a, b);
    assert a in items && b in items;
    JoinedIsBalanced(items, next);
    forall t | t in MergeStep(items, next)
      ensures Balanced(t) && ChildWeight(t) <= Weight(a) <= Weight(t)
    {
      InsertKeeps(items[..n - 2], node, t);
      if t != node {
        OtherIsHeavier(items, t);
      }
    }
  }

  lemma {:induction false} MergeBalanced(items: seq<Tree>, next: nat, merged: nat)
    requires items != [] && Growing(items, merged)
    ensures Balanced(Merge(items, next))
    decreases |items|
  {
    if |items| == 1 {
      assert items[0] in items;
    } else {
      MergeStepGrowing(items, next, merged);
      MergeBalanced(MergeStep(items, next), next + 1, Weight(items[|items| - 2]));
    }
  }

  lemma {:induction false} LeafListGrowing(histo: seq<nat>, totaldata: nat, totalweight: nat, n: nat, t: Tree)
    requires totaldata > 0 && n <= |histo| && t in LeafList(histo, totaldata, totalweight, n)
    ensures t.Leaf? && t.weight >= 1 && t.symbol < n && t.weight == Scaled(histo[t.symbol], totaldata, totalweight)
  {
    if n > 0 && t in LeafList(histo, totaldata, totalweight, n - 1) {
      LeafListGrowing(histo, totaldata, totalweight, n - 1, t);
    }
  }

  /**
   A tree of height h weighs at least Fib(h + 2): 8-bit codes need 55 samples, 16-bit codes 2584,
   and no tree whose weights fit in 32 bits is higher than 45, so `numbits` cannot wrap.
   */
  lemma {:induction false} LongCodesNeedWeight(histo: seq<nat>, totaldata: nat, totalweight: nat)
    requires totaldata > 0 && Used(histo) > 0
    ensures var t := Build(histo, totaldata, totalweight);
      && Weight(t) >= Fib(Height(t) + 2)
      && (Weight(t) < 0x1_0000_0000 ==> Height(t) <= 45)
  {
    var items := LeafList(histo, totaldata, totalweight, |histo|);
    var t := Build(histo, totaldata, totalweight);
    UsedIsLength(histo, totaldata, totalweight, |histo|);
    SortSorted(items);
    forall x | x in Sort(items) ensures Balanced(x) && ChildWeight(x) <= 0 <= Weight(x) {
      SortKeeps(items, x);
      LeafListGrowing(histo, totaldata, totalweight, |histo|, x);
    }
    MergeBalanced(Sort(items), |histo|, 0);
    BalancedIsHeavy(t);
    if Height(t) > 45 {
      FibMonotone(48, Height(t) + 2);
      BigFib();
    }
  }

  lemma {:induction false} BigFib()
    ensures Fib(48) >= 0x1_0000_0000
  {
    assert Fib(10) == 55 && Fib(11) == 89;
    assert Fib(20) == 6765 && Fib(21) == 10946;
    assert Fib(30) == 832040 && Fib(31) == 1346269;
    assert Fib(40) == 102334155 && Fib(41) == 165580141;
  }

  // ----- total weight

  /** The number of samples counted by the first `n` entries of a histogram. */
  function Samples(histo: seq<nat>, n: nat): nat
    requires n <= |histo|
  {
    if n == 0 then 0 else Samples(histo, n - 1) + histo[n - 1]
  }

  lemma {:induction false} ScaledRaw(count: nat, totaldata: nat)
    requires totaldata > 0 && 0 < count < 0x1_0000_0000
    ensures Scaled(count, totaldata, totaldata) == count
  {
    DivModUnique(count * totaldata, totaldata, count, 0);
    SmallWord(count);
  }

  lemma {:induction false} RawWeights(histo: seq<nat>, totaldata: nat, n: nat)
    requires n <= |histo| && totaldata > 0 && Samples(histo, n) < 0x1_0000_0000
    ensures Total(LeafList(histo, totaldata, totaldata, n), Weight) == Samples(histo, n)
  {
    if n > 0 {
      RawWeights(histo, totaldata, n - 1);
      if histo[n - 1] != 0 {
        ScaledRaw(histo[n - 1], totaldata);
        TotalSnoc(LeafList(histo, totaldata, totaldata, n - 1), Leaf(n - 1, histo[n - 1]), Weight);
      }
    }
  }

  lemma {:induction false} BuildWeighsSamples(histo: seq<nat>, total: nat)
    requires Used(histo) > 0 && 0 < Samples(histo, |histo|) == total < 0x1_0000_0000
    ensures Weight(Build(histo, total, total)) == total
  {
    var items := LeafList(histo, total, total, |histo|);
    UsedIsLength(histo, total, total, |histo|);
    RawWeights(histo, total, |histo|);
    TotalSort(items, Weight);
    TotalOfMerge(Sort(items), |histo|, Weight);
  }

  lemma {:induction false} LengthBelowHeight(histo: seq<nat>, totaldata: nat, totalweight: nat, s: nat)
    requires totaldata > 0 && Used(histo) >= 2 && s < |histo|
    ensures Length(histo, totaldata, totalweight, s) <= Height(Build(histo, totaldata, totalweight))
  {
    if histo[s] != 0 {
      BuildLeaves(histo, totaldata, totalweight, s);
      BuildIsNode(histo, totaldata, totalweight);
      PartOfLeaf(Build(histo, totaldata, totalweight), s, Height(Build(histo, totaldata, totalweight)));
    }
  }

  /** With the raw weights, a code of n bits occurs only from Fib(n + 2) samples on. */
  lemma {:induction false} LongCodesNeedSamples(histo: seq<nat>, s: nat, total: nat)
    requires Used(histo) >= 2 && s < |histo| && 0 < Samples(histo, |histo|) == total < 0x1_0000_0000
    ensures total >= Fib(Lengths(histo, total, total)[s] + 2)
  {
    BuildWeighsSamples(histo, total);
    LongCodesNeedWeight(histo, total, total);
    LengthBelowHeight(histo, total, total, s);
    FibMonotone(Length(histo, total, total, s) + 2, Height(Build(histo, total, total)) + 2);
  }

  lemma {:induction false} SamplesPositive(histo: seq<nat>, n: nat)
    requires n <= |histo| && UsedBelow(histo, n) > 0
    ensures Samples(histo, n) > 0
  {
    if n > 0 && histo[n - 1] == 0 {
      SamplesPositive(histo, n - 1);
    }
  }

  // ----- equal weights

  /**
   Merging trees of similar weight goes in phases. In phase `k` the front `m` trees are new:
   height at most k + 1 and weight in (top, 2 * top]. The others are left from phase k - 1: height at
   most k, the first of weight `top`, and any last two of them outweigh it.
   */
  ghost predicate Phase(items: seq<Tree>, m: nat, top: nat, k: nat) {
    Sorted(items) && m <= |items| && Front(items, m, top, k) && Back(items, m, top, k)
  }

  ghost predicate Front(items: seq<Tree>, m: nat, top: nat, k: nat)
    requires m <= |items|
  {
    forall i :: 0 <= i < m ==> top < Weight(items[i]) <= 2 * top && Height(items[i]) <= k + 1
  }

  ghost predicate Back(items: seq<Tree>, m: nat, top: nat, k: nat)
    requires m <= |items|
  {
    && (forall i :: m <= i < |items| ==> Weight(items[i]) <= top && Height(items[i]) <= k)
    && (m < |items| ==> Weight(items[m]) == top)
    && (|items| >= m + 2 ==> Weight(items[|items| - 2]) + Weight(items[|items| - 1]) > top)
  }

  lemma {:induction false} PhaseStep(items: seq<Tree>, next: nat, m: nat, top: nat, k: nat)
    requires Phase(items, m, top, k) && |items| >= m + 2
    ensures Phase(MergeStep(items, next), m + 1, top, k)
  {
    var n := |items|;
    var rest, x := items[..n - 2], Node(next, items[n - 2], items[n - 1]);
    assert top < Weight(x) <= 2 * top && Height(x) <= k + 1;
    InsertAtPlace(rest, x);
    assert Sorted(rest);
    InsertSorted(rest, x);
    var p := Place(rest, x);
    assert m < |rest| ==> Weight(rest[m]) < Weight(x);
    assert p <= m;
    assert rest[..p] == items[..p] && rest[p..] == items[p..n - 2];
    FrontInsert(items, x, p, m, top, k);
    BackInsert(items, x, p, m, top, k);
  }

  lemma {:induction false} FrontInsert(items: seq<Tree>, x: Tree, p: nat, m: nat, top: nat, k: nat)
    requires p <= m <= |items| - 2 && Front(items, m, top, k)
    requires top < Weight(x) <= 2 * top && Height(x) <= k + 1
    ensures Front(items[..p] + [x] + items[p..|items| - 2], m + 1, top, k)
  {
    var r := items[..p] + [x] + items[p..|items| - 2];
    forall i | 0 <= i < m + 1 ensures r[i] == if i < p then items[i] else if i == p then x else items[i - 1] {}
  }

  lemma {:induction false} BackInsert(items: seq<Tree>, x: Tree, p: nat, m: nat, top: nat, k: nat)
    requires p <= m <= |items| - 2 && Back(items, m, top, k) && Sorted(items)
    ensures Back(items[..p] + [x] + items[p..|items| - 2], m + 1, top, k)
  {
    var n := |items|;
    var r := items[..p] + [x] + items[p..n - 2];
    assert forall i :: m + 1 <= i < |r| ==> r[i] == items[i - 1];
    if |r| >= m + 3 {
      assert r[|r| - 2] == items[n - 4] && r[|r| - 1] == items[n - 3];
      assert Weight(items[n - 4]) >= Weight(items[n - 2]) && Weight(items[n - 3]) >= Weight(items[n - 1]);
    }
  }

  lemma {:induction false} NextPhase(items: seq<Tree>, m: nat, top: nat, k: nat)
    requires Phase(items, m, top, k) && 2 <= |items| <= m + 1
    ensures Phase(items, 0, Weight(items[0]), k + 1)
  {}

  lemma {:induction false} PhasesStayFlat(items: seq<Tree>, next: nat, m: nat, top: nat, k: nat, limit: nat)
    requires items != [] && Phase(items, m, top, k) && k <= limit
    requires |items| + m <= Pow2(limit - k)
    ensures Height(Merge(items, next)) <= limit
    decreases |items|, m
  {
    if |items| == 1 {
      assert m == 1 ==> limit > k;
    } else if |items| >= m + 2 {
      PhaseStep(items, next, m, top, k);
      PhasesStayFlat(MergeStep(items, next), next + 1, m + 1, top, k, limit);
    } else {
      assert limit > k;
      assert Pow2(limit - k) == 2 * Pow2(limit - (k + 1));
      NextPhase(items, m, top, k);
      PhasesStayFlat(items, next, 0, Weight(items[0]), k + 1, limit);
    }
  }

  lemma {:induction false} LeafCountBound(t: Tree, d: nat)
    requires Height(t) <= d
    ensures LeafCount(t) <= Pow2(d)
  {
    match t {
      case Leaf(_, _) =>
      case Node(_, l, r) =>
        LeafCountBound(l, d - 1);
        LeafCountBound(r, d - 1);
    }
  }

  function LeafCount(t: Tree): nat {
    match t
    case Leaf(_, _) => 1
    case Node(_, l, r) => LeafCount(l) + LeafCount(r)
  }

  lemma {:induction false} LeavesOfLeaves(items: seq<Tree>)
    requires forall t :: t in items ==> t.Leaf?
    ensures Total(items, LeafCount) == |items|
  {
    if items != [] {
      LeavesOfLeaves(items[..|items| - 1]);
      assert items[|items| - 1] in items;
    }
  }

  /** Whatever the weights, a tree with more than 2^maxbits leaves is higher than maxbits. */
  lemma {:induction false} FittingNeedsRoom(histo: seq<nat>, totaldata: nat, totalweight: nat, maxbits: nat)
    requires totaldata > 0 && Used(histo) > 0 && Fits(histo, totaldata, totalweight, maxbits)
    ensures maxbits >= 1 && Used(histo) <= Pow2(maxbits)
  {
    var t := Build(histo, totaldata, totalweight);
    var items := LeafList(histo, totaldata, totalweight, |histo|);
    FitsIsHeight(histo, totaldata, totalweight, maxbits);
    UsedIsLength(histo, totaldata, totalweight, |histo|);
    forall x | x in Sort(items) ensures x.Leaf? {
      SortKeeps(items, x);
      LeafListGrowing(histo, totaldata, totalweight, |histo|, x);
    }
    LeavesOfLeaves(Sort(items));
    TotalOfMerge(Sort(items), |histo|, LeafCount);
    LeafCountBound(t, maxbits);
  }

  /** With weight zero requested, every leaf weighs one, and the tree is as flat as possible. */
  lemma {:induction false} EqualWeightsFit(histo: seq<nat>, totaldata: nat, maxbits: nat)
    requires totaldata > 0 && maxbits >= 1 && 0 < Used(histo) <= Pow2(maxbits)
    ensures Fits(histo, totaldata, 0, maxbits)
  {
    var sorted := Sort(LeafList(histo, totaldata, 0, |histo|));
    UsedIsLength(histo, totaldata, 0, |histo|);
    SortSorted(LeafList(histo, totaldata, 0, |histo|));
    forall i | 0 <= i < |sorted| ensures Weight(sorted[i]) == 1 && Height(sorted[i]) == 0 {
      EqualLeaf(histo, totaldata, sorted[i]);
    }
    PhasesStayFlat(sorted, |histo|, 0, 1, 0, maxbits);
    FitsIsHeight(histo, totaldata, 0, maxbits);
  }

  lemma {:induction false} EqualLeaf(histo: seq<nat>, totaldata: nat, t: Tree)
    requires totaldata > 0 && t in Sort(LeafList(histo, totaldata, 0, |histo|))
    ensures Weight(t) == 1 && Height(t) == 0
  {
    SortKeeps(LeafList(histo, totaldata, 0, |histo|), t);
    LeafListGrowing(histo, totaldata, 0, |histo|, t);
    ScaledToZero(histo[t.symbol], totaldata);
  }

  lemma {:induction false} ScaledToZero(count: nat, totaldata: nat)
    requires totaldata > 0
    ensures Scaled(count, totaldata, 0) == 1
  {
    DivModUnique(0, totaldata, 0, 0);
    LowOfZero(32);
  }

  /** There is room for the used symbols: a condition on the histogram alone. */
  predicate HasRoom(histo: seq<nat>, maxbits: nat) {
    Used(histo) == 0 || (maxbits >= 1 && Used(histo) <= Pow2(maxbits))
  }

  /** Some weight gives fitting lengths, exactly when there is room; and then weight zero does. */
  lemma {:induction false} SomeWeightFits(histo: seq<nat>, totaldata: nat, maxbits: nat)
    requires totaldata > 0 || forall s :: 0 <= s < |histo| ==> histo[s] == 0
    ensures HasRoom(histo, maxbits) <==> exists w: nat :: Fits(histo, totaldata, w, maxbits)
    ensures HasRoom(histo, maxbits) ==> Fits(histo, totaldata, 0, maxbits)
  {
    if Used(histo) == 0 {
      forall s | 0 <= s < |histo| ensures histo[s] == 0 {
        if histo[s] != 0 {
          UsedPositive(histo, s, |histo|);
        }
      }
      assert Fits(histo, totaldata, 0, maxbits);
    } else {
      NoneUsed(histo, |histo|);
      if HasRoom(histo, maxbits) {
        EqualWeightsFit(histo, totaldata, maxbits);
      }
      if w: nat :| Fits(histo, totaldata, w, maxbits) {
        FittingNeedsRoom(histo, totaldata, w, maxbits);
      }
    }
  }

  lemma {:induction false} NoneUsed(histo: seq<nat>, n: nat)
    requires n <= |histo|
    ensures (forall s :: 0 <= s < n ==> histo[s] == 0) ==> UsedBelow(histo, n) == 0
  {
    if n > 0 {
      NoneUsed(histo, n - 1);
    }
  }
}
