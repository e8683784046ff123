/**
 What huffman_build_tree builds: leaves sorted by weight, the two lightest trees merged
 until one is left. Proved about the result, for every histogram: the code lengths form
 a complete code; a tree of height h needs total weight Fib(h + 2), the relation tabulated
 in the source's header comment; equal weights give the flattest tree that holds the leaves.
 */
module HuffmanTree {
  import opened Bits
  import opened HuffmanCodes

  /** Internal nodes carry their index in the node pool; leaves are indexed by their symbol. */
  datatype Tree = Leaf(symbol: nat, weight: nat) | Node(id: nat, left: Tree, right: Tree)

  function Index(t: Tree): nat {
    if t.Leaf? then t.symbol else t.id
  }

  function Weight(t: Tree): nat {
    match t
    case Leaf(_, w) => w
    case Node(_, l, r) => Weight(l) + Weight(r)
  }

  function Height(t: Tree): nat {
    match t
    case Leaf(_, _) => 0
    case Node(_, l, r) => 1 + Max(Height(l), Height(r))
  }

  function Max(a: nat, b: nat): nat {
    if a < b then b else a
  }

  /** How many leaves of `t` carry symbol `s`. */
  function Occurs(t: Tree, s: nat): nat {
    match t
    case Leaf(x, _) => if x == s then 1 else 0
    case Node(_, l, r) => Occurs(l, s) + Occurs(r, s)
  }

  function Depth(t: Tree, s: nat): nat {
    match t
    case Leaf(_, _) => 0
    case Node(_, l, r) => 1 + if Occurs(l, s) > 0 then Depth(l, s) else Depth(r, s)
  }

  // ----- the algorithm on values

  /** A count scaled by totalweight / totaldata in 32 bits, but never to zero. */
  function Scaled(count: nat, totaldata: nat, totalweight: nat): (w: nat)
    requires totaldata > 0
    ensures w > 0
  {
    var w := Low(count * totalweight / totaldata, 32);
    if w == 0 then 1 else w
  }

  /** One leaf for each symbol below `n` that occurs. */
  function LeafList(histo: seq<nat>, totaldata: nat, totalweight: nat, n: nat): (items: seq<Tree>)
    requires totaldata > 0 && n <= |histo|
    ensures |items| <= n
  {
    if n == 0 then []
    else
      var rest := LeafList(histo, totaldata, totalweight, n - 1);
      if histo[n - 1] == 0 then rest
      else rest + [Leaf(n - 1, Scaled(histo[n - 1], totaldata, totalweight))]
  }

  /** Insert before the first lighter tree. */
  function Insert(items: seq<Tree>, x: Tree): (r: seq<Tree>)
    ensures |r| == |items| + 1
  {
    if items == [] then [x]
    else if Weight(x) > Weight(items[0]) then [x] + items
    else [items[0]] + Insert(items[1..], x)
  }

  /** Heaviest first; equal weights stay in symbol order. */
  function Sort(items: seq<Tree>): (r: seq<Tree>)
    ensures |r| == |items|
  {
    if items == [] then [] else Insert(Sort(items[..|items| - 1]), items[|items| - 1])
  }

  /** One round of the merge loop: the two lightest trees become one, with the next free node. */
  function MergeStep(items: seq<Tree>, next: nat): (r: seq<Tree>)
    requires |items| >= 2
    ensures |r| == |items| - 1
  {
    var n := |items|;
    Insert(items[..n - 2], Node(next, items[n - 2], items[n - 1]))
  }

  function Merge(items: seq<Tree>, next: nat): Tree
    requires items != []
    decreases |items|
  {
    if |items| == 1 then items[0] else Merge(MergeStep(items, next), next + 1)
  }

  /** Where Insert puts `x`. */
  function Place(items: seq<Tree>, x: Tree): (k: nat)
    ensures k <= |items|
  {
    if items == [] || Weight(x) > Weight(items[0]) then 0 else 1 + Place(items[1..], x)
  }

  lemma {:induction false} InsertAtPlace(items: seq<Tree>, x: Tree)
    ensures var k := Place(items, x);
      && Insert(items, x) == items[..k] + [x] + items[k..]
      && (forall i :: 0 <= i < k ==> Weight(items[i]) >= Weight(x))
      && (k < |items| ==> Weight(items[k]) < Weight(x))
  {
    if items == [] || Weight(x) > Weight(items[0]) {
      assert items[..0] + [x] + items[0..] == [x] + items;
    } else {
      InsertAtPlace(items[1..], x);
      var k := Place(items[1..], x);
      assert items[..k + 1] + [x] + items[k + 1..] == [items[0]] + (items[1..][..k] + [x] + items[1..][k..]);
      forall i | 0 <= i < k + 1 ensures Weight(items[i]) >= Weight(x) {
        if i > 0 {
          assert items[i] == items[1..][i - 1];
        }
      }
    }
  }

  /** The weight of a symbol is its share of the total weight, rounded down, but at least one. */
  lemma {:induction false} ScaledIsShare(count: nat, totaldata: nat, totalweight: nat)
    requires totaldata > 0 && count * totalweight < 0x1_0000_0000 * totaldata
    ensures var w, x := Scaled(count, totaldata, totalweight), count * totalweight;
      w * totaldata <= x < w * totaldata + totaldata || (w == 1 && x < totaldata)
  {
    ShareOf(count * totalweight, totaldata, count * totalweight / totaldata, Scaled(count, totaldata, totalweight));
  }

  lemma {:induction false} ShareOf(x: nat, d: nat, q: nat, w: nat)
    requires d > 0 && q == x / d && x < 0x1_0000_0000 * d && w == if Low(q, 32) == 0 then 1 else Low(q, 32)
    ensures w * d <= x < w * d + d || (w == 1 && x < d)
  {
    hide Low;
    QuotientIsWord(x, d, q, x % d);
    SmallWord(q);
  }

  lemma {:induction false} QuotientIsWord(x: nat, d: nat, q: nat, r: nat)
    requires x == q * d + r && r < d && x < 0x1_0000_0000 * d
    ensures q < 0x1_0000_0000
  {
    if q >= 0x1_0000_0000 {
      MulMono(0x1_0000_0000, q, d);
    }
  }

  // ----- sums over lists of trees

  function Total(items: seq<Tree>, f: Tree -> nat): nat {
    if items == [] then 0 else Total(items[..|items| - 1], f) + f(items[|items| - 1])
  }

  lemma {:induction false} EmptyTotal(f: Tree -> nat)
    ensures Total([], f) == 0
  {}

  lemma {:induction false} TotalSnoc(items: seq<Tree>, x: Tree, f: Tree -> nat)
    ensures Total(items + [x], f) == Total(items, f) + f(x)
  {
    assert (items + [x])[..|items|] == items;
  }

  lemma {:induction false} TotalConcat(a: seq<Tree>, b: seq<Tree>, f: Tree -> nat)
    ensures Total(a + b, f) == Total(a, f) + Total(b, f)
  {
    if b == [] {
      assert a + b == a;
    } else {
      var n := |b| - 1;
      TotalConcat(a, b[..n], f);
      TotalSnoc(a + b[..n], b[n], f);
      assert a + b[..n] + [b[n]] == a + b;
    }
  }

  lemma {:induction false} TotalInsert(items: seq<Tree>, x: Tree, f: Tree -> nat)
    ensures Total(Insert(items, x), f) == Total(items, f) + f(x)
  {
    hide Total, Insert, Place;
    InsertAtPlace(items, x);
    var k := Place(items, x);
    TotalSnoc(items[..k], x, f);
    TotalConcat(items[..k] + [x], items[k..], f);
    TotalConcat(items[..k], items[k..], f);
    assert items[..k] + items[k..] == items;
  }

  lemma {:induction false} TotalSort(items: seq<Tree>, f: Tree -> nat)
    ensures Total(Sort(items), f) == Total(items, f)
  {
    if items != [] {
      TotalSort(items[..|items| - 1], f);
      TotalInsert(Sort(items[..|items| - 1]), items[|items| - 1], f);
    }
  }

  /** A value that a node has from its two sides. */
  ghost predicate Additive(f: Tree -> nat) {
    forall id, l, r :: f(Node(id, l, r)) == f(l) + f(r)
  }

  /** Merging keeps every such value. */
  lemma {:induction false} TotalOfMerge(items: seq<Tree>, next: nat, f: Tree -> nat)
    requires items != [] && Additive(f)
    ensures f(Merge(items, next)) == Total(items, f)
    decreases |items|
  {
    var n := |items|;
    if n == 1 {
      assert items[..0] == [];
    } else {
      TotalInsert(items[..n - 2], Node(next, items[n - 2], items[n - 1]), f);
      assert items[..n - 1][..n - 2] == items[..n - 2];
      TotalOfMerge(MergeStep(items, next), next + 1, f);
    }
  }

  // ----- leaves are neither lost nor duplicated

  function OccursOf(s: nat): Tree -> nat {
    (t: Tree) => Occurs(t, s)
  }

  function OccursOnce(histo: seq<nat>, n: nat, s: nat): nat
    requires n <= |histo|
  {
    if s < n && histo[s] != 0 then 1 else 0
  }

  lemma {:induction false} OccursInLeafList(histo: seq<nat>, totaldata: nat, totalweight: nat, n: nat, s: nat)
    requires totaldata > 0 && n <= |histo|
    ensures Total(LeafList(histo, totaldata, totalweight, n), OccursOf(s)) == OccursOnce(histo, n, s)
  {
    if n > 0 {
      OccursInLeafList(histo, totaldata, totalweight, n - 1, s);
      if histo[n - 1] != 0 {
        TotalSnoc(LeafList(histo, totaldata, totalweight, n - 1),
                  Leaf(n - 1, Scaled(histo[n - 1], totaldata, totalweight)), OccursOf(s));
      }
    }
  }

  // ----- the result

  /** The tree for a histogram in which some symbol occurs. */
  function Build(histo: seq<nat>, totaldata: nat, totalweight: nat): Tree
    requires totaldata > 0 && Used(histo) > 0
  {
    UsedIsLength(histo, totaldata, totalweight, |histo|);
    Merge(Sort(LeafList(histo, totaldata, totalweight, |histo|)), |histo|)
  }

  /** How many symbols occur. */
  function Used(histo: seq<nat>): nat {
    UsedBelow(histo, |histo|)
  }

  function UsedBelow(histo: seq<nat>, n: nat): nat
    requires n <= |histo|
  {
    if n == 0 then 0 else UsedBelow(histo, n - 1) + if histo[n - 1] != 0 then 1 else 0
  }

  lemma {:induction false} UsedIsLength(histo: seq<nat>, totaldata: nat, totalweight: nat, n: nat)
    requires totaldata > 0 && n <= |histo|
    ensures |LeafList(histo, totaldata, totalweight, n)| == UsedBelow(histo, n)
  {
    if n > 0 {
      UsedIsLength(histo, totaldata, totalweight, n - 1);
    }
  }

  /** The code length of a symbol: its depth, but at least one bit; zero if it does not occur. */
  function Length(histo: seq<nat>, totaldata: nat, totalweight: nat, s: nat): nat
    requires s < |histo| && (histo[s] != 0 ==> totaldata > 0)
  {
    if histo[s] == 0 then 0
    else
      UsedPositive(histo, s, |histo|);
      Max(1, Depth(Build(histo, totaldata, totalweight), s))
  }

  lemma {:induction false} UsedPositive(histo: seq<nat>, s: nat, n: nat)
    requires s < n <= |histo| && histo[s] != 0
    ensures UsedBelow(histo, n) > 0
  {
    if s < n - 1 {
      UsedPositive(histo, s, n - 1);
    }
  }

  function Lengths(histo: seq<nat>, totaldata: nat, totalweight: nat): (lens: seq<nat>)
    requires totaldata > 0 || forall s :: 0 <= s < |histo| ==> histo[s] == 0
    ensures |lens| == |histo|
  {
    seq(|histo|, s requires 0 <= s < |histo| && (histo[s] != 0 ==> totaldata > 0) =>
      Length(histo, totaldata, totalweight, s))
  }

  lemma {:induction false} BuildLeaves(histo: seq<nat>, totaldata: nat, totalweight: nat, s: nat)
    requires totaldata > 0 && Used(histo) > 0
    ensures Occurs(Build(histo, totaldata, totalweight), s) == OccursOnce(histo, |histo|, s)
  {
    var items := LeafList(histo, totaldata, totalweight, |histo|);
    UsedIsLength(histo, totaldata, totalweight, |histo|);
    OccursInLeafList(histo, totaldata, totalweight, |histo|, s);
    TotalSort(items, OccursOf(s));
    TotalOfMerge(Sort(items), |histo|, OccursOf(s));
  }

  // ----- the code is complete

  /** What the leaves for symbol `s` contribute to the Kraft sum at scale 2^d. */
  function Part(t: Tree, s: nat, d: nat): nat
    requires Height(t) <= d
  {
    match t
    case Leaf(x, _) => if x == s then Pow2(d) else 0
    case Node(_, l, r) => Part(l, s, d - 1) + Part(r, s, d - 1)
  }

  function Parts(t: Tree, n: nat, d: nat): nat
    requires Height(t) <= d
  {
    if n == 0 then 0 else Parts(t, n - 1, d) + Part(t, n - 1, d)
  }

  lemma {:induction false} PartOfAbsent(t: Tree, s: nat, d: nat)
    requires Height(t) <= d && Occurs(t, s) == 0
    ensures Part(t, s, d) == 0
  {
    if t.Node? {
      PartOfAbsent(t.left, s, d - 1);
      PartOfAbsent(t.right, s, d - 1);
    }
  }

  lemma {:induction false} PartOfLeaf(t: Tree, s: nat, d: nat)
    requires Height(t) <= d && Occurs(t, s) == 1
    ensures Depth(t, s) <= Height(t) && Part(t, s, d) == Pow2(d - Depth(t, s))
  {
    if t.Node? {
      if Occurs(t.left, s) > 0 {
        PartOfLeaf(t.left, s, d - 1);
        PartOfAbsent(t.right, s, d - 1);
      } else {
        PartOfLeaf(t.right, s, d - 1);
        PartOfAbsent(t.left, s, d - 1);
      }
    }
  }

  lemma {:induction false} PartsOfNode(id: nat, l: Tree, r: Tree, n: nat, d: nat)
    requires Height(Node(id, l, r)) <= d
    ensures Parts(Node(id, l, r), n, d) == Parts(l, n, d - 1) + Parts(r, n, d - 1)
  {
    if n > 0 {
      PartsOfNode(id, l, r, n - 1, d);
    }
  }

  lemma {:induction false} PartsOfOneLeaf(x: nat, w: nat, n: nat, d: nat)
    ensures Parts(Leaf(x, w), n, d) == if x < n then Pow2(d) else 0
  {
    if n > 0 {
      PartsOfOneLeaf(x, w, n - 1, d);
    }
  }

  lemma {:induction false} PartsSumToOne(t: Tree, n: nat, d: nat)
    requires Height(t) <= d && forall s: nat :: Occurs(t, s) > 0 ==> s < n
    ensures Parts(t, n, d) == Pow2(d)
  {
    match t {
      case Leaf(x, w) =>
        assert Occurs(t, x) > 0;
        PartsOfOneLeaf(x, w, n, d);
      case Node(id, l, r) =>
        PartsOfNode(id, l, r, n, d);
        assert forall s: nat :: Occurs(t, s) == Occurs(l, s) + Occurs(r, s);
        PartsSumToOne(l, n, d - 1);
        PartsSumToOne(r, n, d - 1);
    }
  }

  /** All code lengths are at most `maxbits`. */
  ghost predicate Fits(histo: seq<nat>, totaldata: nat, totalweight: nat, maxbits: nat)
    requires totaldata > 0 || forall s :: 0 <= s < |histo| ==> histo[s] == 0
  {
    forall s :: 0 <= s < |histo| ==> Lengths(histo, totaldata, totalweight)[s] <= maxbits
  }

  lemma {:induction false} HeightIsSomeDepth(t: Tree) returns (s: nat)
    requires forall x: nat :: Occurs(t, x) <= 1
    ensures Occurs(t, s) == 1 && Depth(t, s) == Height(t)
  {
    match t {
      case Leaf(x, _) => s := x;
      case Node(_, l, r) =>
        assert forall x: nat :: Occurs(t, x) == Occurs(l, x) + Occurs(r, x);
        if Height(l) >= Height(r) {
          s := HeightIsSomeDepth(l);
        } else {
          s := HeightIsSomeDepth(r);
          assert Occurs(t, s) == Occurs(l, s) + Occurs(r, s);
        }
    }
  }

  /** The lengths fit exactly when the tree is no higher than `maxbits` (and leaves room for one bit). */
  lemma {:induction false} FitsIsHeight(histo: seq<nat>, totaldata: nat, totalweight: nat, maxbits: nat)
    requires totaldata > 0 && Used(histo) > 0
    ensures Fits(histo, totaldata, totalweight, maxbits) <==>
      maxbits >= 1 && Height(Build(histo, totaldata, totalweight)) <= maxbits
  {
    var t := Build(histo, totaldata, totalweight);
    forall x: nat { BuildLeaves(histo, totaldata, totalweight, x); }
    var s := HeightIsSomeDepth(t);
    assert Lengths(histo, totaldata, totalweight)[s] == Max(1, Height(t));
    forall x | 0 <= x < |histo| && histo[x] != 0
      ensures Lengths(histo, totaldata, totalweight)[x] <= Max(1, Height(t))
    {
      PartOfLeaf(t, x, Height(t));
    }
  }

  lemma {:induction false} SumIsParts(histo: seq<nat>, totaldata: nat, totalweight: nat, n: nat, d: nat)
    requires totaldata > 0 && Used(histo) >= 2 && n <= |histo|
    requires Height(Build(histo, totaldata, totalweight)) <= d
    ensures SymbolSum(Lengths(histo, totaldata, totalweight)[..n], d)
         == Parts(Build(histo, totaldata, totalweight), n, d)
  {
    if n > 0 {
      var lens, t := Lengths(histo, totaldata, totalweight), Build(histo, totaldata, totalweight);
      SumIsParts(histo, totaldata, totalweight, n - 1, d);
      assert lens[..n][..n - 1] == lens[..n - 1];
      BuildLeaves(histo, totaldata, totalweight, n - 1);
      if histo[n - 1] == 0 {
        PartOfAbsent(t, n - 1, d);
      } else {
        PartOfLeaf(t, n - 1, d);
        BuildIsNode(histo, totaldata, totalweight);
      }
    }
  }

  lemma {:induction false} BuildIsNode(histo: seq<nat>, totaldata: nat, totalweight: nat)
    requires totaldata > 0 && Used(histo) >= 2
    ensures Build(histo, totaldata, totalweight).Node?
  {
    UsedIsLength(histo, totaldata, totalweight, |histo|);
    var items := Sort(LeafList(histo, totaldata, totalweight, |histo|));
    MergeIsNode(items, |histo|);
  }

  lemma {:induction false} MergeIsNode(items: seq<Tree>, next: nat)
    requires |items| >= 2
    ensures Merge(items, next).Node?
    decreases |items|
  {
    if |items| == 2 {
      assert MergeStep(items, next)[0].Node?;
    } else {
      MergeIsNode(MergeStep(items, next), next + 1);
    }
  }

  /**
   For any histogram with at least two symbols, the lengths have Kraft sum exactly one; so
   with all of them at most `maxbits`, the canonical assignment cannot report an inconsistency.
   */
  lemma {:induction false} BuiltCodeIsComplete(histo: seq<nat>, totaldata: nat, totalweight: nat, maxbits: nat)
    requires totaldata > 0 && Used(histo) >= 2 && maxbits <= 32
    requires Fits(histo, totaldata, totalweight, maxbits)
    ensures Kraft(Lengths(histo, totaldata, totalweight), maxbits) == Pow2(maxbits)
    ensures Consistent(Lengths(histo, totaldata, totalweight), maxbits)
  {
    var lens, t := Lengths(histo, totaldata, totalweight), Build(histo, totaldata, totalweight);
    FitsIsHeight(histo, totaldata, totalweight, maxbits);
    SumIsParts(histo, totaldata, totalweight, |histo|, maxbits);
    assert lens[..|histo|] == lens;
    forall x: nat { BuildLeaves(histo, totaldata, totalweight, x); }
    PartsSumToOne(t, |histo|, maxbits);
    KraftIsSymbolSum(lens, maxbits);
    CompleteIsConsistent(lens, maxbits);
  }
}
