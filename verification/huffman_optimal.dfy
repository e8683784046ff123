/**
 Huffman's theorem for the trees that huffman_build_tree builds: no code whose Kraft sum is at most one
 needs fewer bits. The proof follows the merge loop: in any such code the two lightest trees can be given
 equally long codes without making it longer, and then merged.
 */
module HuffmanOptimal {
  import opened Bits
  import opened HuffmanCodes
  import opened HuffmanTree
  import opened HuffmanShape
  import HuffmanBuild

  // ----- code lengths for a list of trees

  /** What a code of length `len` takes up of the code space, in units of 2^-d. */
  function Unit(len: nat, d: nat): nat {
    if len <= d then Pow2(d - len) else 0
  }

  function Spread(ls: seq<nat>, d: nat): nat {
    if ls == [] then 0 else Spread(ls[..|ls| - 1], d) + Unit(ls[|ls| - 1], d)
  }

  /** How many bits the codes in `ls` add, each one to all the samples of its tree. */
  function Lifted(items: seq<Tree>, ls: seq<nat>): nat
    requires |items| == |ls|
  {
    if ls == [] then 0
    else
      var n := |ls| - 1;
      Lifted(items[..n], ls[..n]) + Weight(items[n]) * ls[n]
  }

  predicate Within(ls: seq<nat>, d: nat) {
    forall i :: 0 <= i < |ls| ==> ls[i] <= d
  }

  lemma {:induction false} SpreadConcat(a: seq<nat>, b: seq<nat>, d: nat)
    ensures Spread(a + b, d) == Spread(a, d) + Spread(b, d)
  {
    if b == [] {
      assert a + b == a;
    } else {
      var n := |b| - 1;
      SpreadConcat(a, b[..n], d);
      assert (a + b)[..|a| + n] == a + b[..n];
    }
  }

  lemma {:induction false} LiftedConcat(a: seq<Tree>, la: seq<nat>, b: seq<Tree>, lb: seq<nat>)
    requires |a| == |la| && |b| == |lb|
    ensures Lifted(a + b, la + lb) == Lifted(a, la) + Lifted(b, lb)
  {
    if b == [] {
      assert a + b == a && la + lb == la;
    } else {
      var n := |b| - 1;
      LiftedConcat(a, la, b[..n], lb[..n]);
      assert (a + b)[..|a| + n] == a + b[..n] && (la + lb)[..|a| + n] == la + lb[..n];
    }
  }

  lemma {:induction false} SpreadUpdate(ls: seq<nat>, i: nat, x: nat, d: nat)
    requires i < |ls|
    ensures Spread(ls[i := x], d) + Unit(ls[i], d) == Spread(ls, d) + Unit(x, d)
  {
    var n := |ls| - 1;
    if i == n {
      assert ls[i := x][..n] == ls[..n];
    } else {
      assert ls[i := x][..n] == ls[..n][i := x];
      SpreadUpdate(ls[..n], i, x, d);
    }
  }

  lemma {:induction false} LiftedUpdate(items: seq<Tree>, ls: seq<nat>, i: nat, x: nat)
    requires |items| == |ls| && i < |ls|
    ensures Lifted(items, ls[i := x]) + Weight(items[i]) * ls[i] == Lifted(items, ls) + Weight(items[i]) * x
  {
    var n := |ls| - 1;
    if i == n {
      assert ls[i := x][..n] == ls[..n];
    } else {
      assert ls[i := x][..n] == ls[..n][i := x];
      LiftedUpdate(items[..n], ls[..n], i, x);
    }
  }

  lemma {:induction false} Rearrange(a: nat, b: nat, x: nat, y: nat)
    requires a >= b && x >= y
    ensures a * y + b * x <= a * x + b * y
  {
    var u, v := a - b, x - y;
    assert u * v >= 0;
    assert a * x == b * y + b * v + u * y + u * v;
  }

  /** Giving the longer one of two codes to the lighter tree never costs bits. */
  lemma {:induction false} Swap(items: seq<Tree>, ls: seq<nat>, i: nat, j: nat, d: nat) returns (r: seq<nat>)
    requires |items| == |ls| && i < |ls| && j < |ls| && Within(ls, d)
    requires i == j || (Weight(items[i]) >= Weight(items[j]) && ls[i] >= ls[j])
    ensures r == ls[i := ls[j]][j := ls[i]] && Within(r, d)
    ensures Spread(r, d) == Spread(ls, d) && Lifted(items, r) <= Lifted(items, ls)
  {
    r := ls[i := ls[j]][j := ls[i]];
    if i == j {
      assert r == ls;
    } else {
      var once := ls[i := ls[j]];
      SpreadUpdate(ls, i, ls[j], d);
      SpreadUpdate(once, j, ls[i], d);
      LiftedUpdate(items, ls, i, ls[j]);
      LiftedUpdate(items, once, j, ls[i]);
      Rearrange(Weight(items[i]), Weight(items[j]), ls[i], ls[j]);
    }
  }

  lemma {:induction false} Longest(ls: seq<nat>) returns (p: nat)
    requires ls != []
    ensures p < |ls| && Within(ls, ls[p])
  {
    var n := |ls| - 1;
    p := n;
    if n > 0 {
      var q := Longest(ls[..n]);
      if ls[q] > ls[n] {
        p := q;
      }
      forall i | 0 <= i < |ls| ensures ls[i] <= ls[p] {
        if i < n {
          assert ls[..n][i] <= ls[..n][q];
        }
      }
    }
  }

  /** Codes of at most `m` bits take up whole multiples of what `m` bits do. */
  lemma {:induction false} SpreadScales(ls: seq<nat>, m: nat, d: nat)
    requires Within(ls, m) && m <= d
    ensures Spread(ls, d) == Shl(Spread(ls, m), d - m)
  {
    var k := d - m;
    if ls == [] {
      ShlZero(k);
    } else {
      var n := |ls| - 1;
      SpreadScales(ls[..n], m, d);
      ShlSum(Spread(ls[..n], m), Unit(ls[n], m), k);
      Pow2Split(m - ls[n], k);
    }
  }

  lemma {:induction false} SpreadPositive(ls: seq<nat>, d: nat)
    requires ls != [] && Within(ls, d)
    ensures Spread(ls, d) >= 1
  {}

  /** If all codes but one have at most `m` bits, that one needs no more than `m` either; and `m` is not zero. */
  lemma {:induction false} RoomForShorter(front: seq<nat>, len: nat, m: nat, d: nat)
    requires front != [] && Within(front, m) && m <= len <= d && Spread(front, d) + Unit(len, d) <= Pow2(d)
    ensures m >= 1 && Spread(front, d) + Unit(m, d) <= Pow2(d)
  {
    var k := d - m;
    SpreadScales(front, m, d);
    SpreadPositive(front, m);
    Pow2Split(m, k);
    if Spread(front, m) >= Pow2(m) {
      ShlMono(Pow2(m), Spread(front, m), k);
      assert false;
    }
    ShlOne(k);
    ShlSum(Spread(front, m), 1, k);
    ShlMono(Spread(front, m) + 1, Pow2(m), k);
  }

  /** The two lightest trees can have equally long codes. */
  lemma {:induction false} EqualLast(items: seq<Tree>, ls: seq<nat>, d: nat) returns (r: seq<nat>)
    requires |items| == |ls| >= 2 && Sorted(items) && Within(ls, d) && Spread(ls, d) <= Pow2(d)
    ensures |r| == |ls| && Within(r, d) && Spread(r, d) <= Pow2(d) && Lifted(items, r) <= Lifted(items, ls)
    ensures r[|r| - 1] == r[|r| - 2] >= 1
  {
    hide Spread, Lifted, Unit, Sorted, Within;
    var n := |ls|;
    var p := Longest(ls);
    LastIsLightest(items, p, n - 1);
    IsWithin(ls, ls[p], n - 1);
    var once := Swap(items, ls, p, n - 1, d);
    SwappedLast(ls, p, once);
    var short := once[..n - 1];
    var q := Longest(short);
    LastIsLightest(items, q, n - 2);
    IsWithin(short, short[q], n - 2);
    var twice := Swap(items, once, q, n - 2, d);
    SwappedBefore(once, q, twice);
    r := Shorten(items, twice, twice[n - 2], twice[n - 1], d);
  }

  lemma {:induction false} LastIsLightest(items: seq<Tree>, i: nat, j: nat)
    requires Sorted(items) && i <= j < |items|
    ensures i == j || Weight(items[i]) >= Weight(items[j])
  {}

  lemma {:induction false} IsWithin(ls: seq<nat>, d: nat, i: nat)
    requires Within(ls, d) && i < |ls|
    ensures ls[i] <= d
  {}

  /** The longest code comes last. */
  lemma {:induction false} SwappedLast(ls: seq<nat>, p: nat, r: seq<nat>)
    requires p < |ls| && Within(ls, ls[p]) && r == ls[p := ls[|ls| - 1]][|ls| - 1 := ls[p]]
    ensures Within(r, r[|ls| - 1])
  {}

  /** The longest of the others comes before it. */
  lemma {:induction false} SwappedBefore(ls: seq<nat>, q: nat, r: seq<nat>)
    requires |ls| >= 2 && q < |ls| - 1 && Within(ls[..|ls| - 1], ls[q]) && Within(ls, ls[|ls| - 1])
    requires r == ls[q := ls[|ls| - 2]][|ls| - 2 := ls[q]]
    ensures Within(r[..|ls| - 1], r[|ls| - 2]) && r[|ls| - 2] <= r[|ls| - 1]
  {
    var n := |ls| - 1;
    var short, front := ls[..n], r[..n];
    forall i | 0 <= i < n ensures front[i] <= ls[q] {
      assert short[i] <= ls[q] && short[n - 1] <= ls[q];
    }
  }

  /** The last code needs no more bits than the one before it. */
  lemma {:induction false} Shorten(items: seq<Tree>, ls: seq<nat>, m: nat, len: nat, d: nat) returns (r: seq<nat>)
    requires |items| == |ls| >= 2 && Within(ls, d) && Spread(ls, d) <= Pow2(d)
    requires m == ls[|ls| - 2] <= len == ls[|ls| - 1] && Within(ls[..|ls| - 1], m)
    ensures |r| == |ls| && Within(r, d) && Spread(r, d) <= Pow2(d) && Lifted(items, r) <= Lifted(items, ls)
    ensures r[|r| - 1] == r[|r| - 2] >= 1
  {
    var n := |ls| - 1;
    RoomForShorter(ls[..n], len, m, d);
    r := ls[n := m];
    assert r[..n] == ls[..n];
    LiftedUpdate(items, ls, n, m);
    LessTimes(Weight(items[n]), m, len);
  }

  lemma {:induction false} LessTimes(w: nat, a: nat, b: nat)
    requires a <= b
    ensures w * a <= w * b
  {}

  // ----- the merge loop

  /** The weights of all inner nodes: every sample counts once for each bit of its code. */
  function Inner(t: Tree): nat {
    match t
    case Leaf(_, _) => 0
    case Node(_, l, r) => Weight(t) + Inner(l) + Inner(r)
  }

  lemma {:induction false} InnerOfMergeStep(items: seq<Tree>, next: nat)
    requires |items| >= 2
    ensures Total(MergeStep(items, next), Inner)
         == Total(items, Inner) + Weight(items[|items| - 2]) + Weight(items[|items| - 1])
  {
    var n := |items|;
    TotalInsert(items[..n - 2], Node(next, items[n - 2], items[n - 1]), Inner);
    assert items[..n - 1][..n - 2] == items[..n - 2];
  }

  /** The code lengths after one merge: the joined tree gets one bit less than its parts had. */
  lemma {:induction false} MergeLengths(items: seq<Tree>, next: nat, ls: seq<nat>, d: nat) returns (r: seq<nat>)
    requires |items| == |ls| >= 2 && Within(ls, d) && ls[|ls| - 1] == ls[|ls| - 2] >= 1
    ensures |r| == |ls| - 1 && Within(r, d) && Spread(r, d) == Spread(ls, d)
    ensures Lifted(MergeStep(items, next), r) + Weight(items[|items| - 2]) + Weight(items[|items| - 1])
         == Lifted(items, ls)
  {
    hide Spread, Lifted, Insert, Place;
    var n, m := |items|, ls[|ls| - 1];
    var rest, x := items[..n - 2], Node(next, items[n - 2], items[n - 1]);
    var k := Place(rest, x);
    InsertAtPlace(rest, x);
    var a, b := ls[..k], ls[k..n - 2];
    r := a + [m - 1] + b;
    assert ls == a + b + [m, m];
    assert rest[..k] + rest[k..] == rest && items == rest + [items[n - 2], items[n - 1]];
    SpreadMerged(a, b, m, d);
    LiftedMerged(rest[..k], a, rest[k..], b, x, items[n - 2], items[n - 1], m);
  }

  lemma {:induction false} SpreadMerged(a: seq<nat>, b: seq<nat>, m: nat, d: nat)
    requires 1 <= m <= d
    ensures Spread(a + [m - 1] + b, d) == Spread(a + b + [m, m], d)
  {
    hide Spread, Unit;
    Halves(m, d);
    SpreadOfTwo(m, m, d);
    SpreadOfOne(m - 1, d);
    SpreadConcat(a + b, [m, m], d);
    SpreadConcat(a, b, d);
    SpreadConcat(a + [m - 1], b, d);
    SpreadConcat(a, [m - 1], d);
  }

  lemma {:induction false} LiftedMerged(p: seq<Tree>, a: seq<nat>, q: seq<Tree>, b: seq<nat>, x: Tree, l: Tree,
                                        r: Tree, m: nat)
    requires |p| == |a| && |q| == |b| && m >= 1 && Weight(x) == Weight(l) + Weight(r)
    ensures Lifted(p + [x] + q, a + [m - 1] + b) + Weight(l) + Weight(r) == Lifted(p + q + [l, r], a + b + [m, m])
  {
    hide Lifted, Weight;
    LiftedConcat(p + q, a + b, [l, r], [m, m]);
    LiftedConcat(p, a, q, b);
    LiftedConcat(p + [x], a + [m - 1], q, b);
    LiftedConcat(p, a, [x], [m - 1]);
    LiftedOfTwo(l, r, m);
    LiftedOfOne(x, m - 1);
    OneLess(Weight(l), Weight(r), m);
  }

  lemma {:induction false} Halves(m: nat, d: nat)
    requires 1 <= m <= d
    ensures Unit(m, d) + Unit(m, d) == Unit(m - 1, d)
  {}

  lemma {:induction false} SpreadOfTwo(x: nat, y: nat, d: nat)
    ensures Spread([x, y], d) == Unit(x, d) + Unit(y, d)
  {
    assert [x, y][..1] == [x];
    SpreadOfOne(x, d);
  }

  lemma {:induction false} SpreadOfOne(x: nat, d: nat)
    ensures Spread([x], d) == Unit(x, d)
  {
    assert [x][..0] == [];
  }

  lemma {:induction false} LiftedOfOne(x: Tree, m: nat)
    ensures Lifted([x], [m]) == Weight(x) * m
  {
    assert [x][..0] == [] && [m][..0] == [];
  }

  lemma {:induction false} LiftedOfTwo(x: Tree, y: Tree, m: nat)
    ensures Lifted([x, y], [m, m]) == Weight(x) * m + Weight(y) * m
  {
    LiftedOfOne(x, m);
    assert [x, y][..1] == [x] && [m, m][..1] == [m];
  }

  lemma {:induction false} OneLess(a: nat, b: nat, m: nat)
    requires m >= 1
    ensures a * m + b * m == (a + b) * (m - 1) + a + b
  {}

  /** Merging the two lightest is best: no code lengths for the trees in the list make a lighter tree. */
  lemma {:induction false} MergeIsLightest(items: seq<Tree>, next: nat, ls: seq<nat>, d: nat)
    requires items != [] && |ls| == |items| && Sorted(items) && Within(ls, d) && Spread(ls, d) <= Pow2(d)
    ensures Inner(Merge(items, next)) <= Total(items, Inner) + Lifted(items, ls)
    decreases |items|
  {
    var n := |items|;
    if n == 1 {
      assert items[..0] == [];
    } else {
      var even := EqualLast(items, ls, d);
      var merged := MergeLengths(items, next, even, d);
      InsertSorted(items[..n - 2], Node(next, items[n - 2], items[n - 1]));
      InnerOfMergeStep(items, next);
      MergeIsLightest(MergeStep(items, next), next + 1, merged, d);
    }
  }

  // ----- from trees to symbols

  /** All leaves carry the scaled counts of the histogram. */
  ghost predicate LeavesWeigh(t: Tree, histo: seq<nat>, totaldata: nat, totalweight: nat)
    requires totaldata > 0
  {
    match t
    case Leaf(s, w) => s < |histo| && w == Scaled(histo[s], totaldata, totalweight)
    case Node(_, l, r) => LeavesWeigh(l, histo, totaldata, totalweight) && LeavesWeigh(r, histo, totaldata, totalweight)
  }

  lemma {:induction false} MergeWeighs(items: seq<Tree>, next: nat, histo: seq<nat>, totaldata: nat, totalweight: nat)
    requires totaldata > 0 && items != [] && forall t :: t in items ==> LeavesWeigh(t, histo, totaldata, totalweight)
    ensures LeavesWeigh(Merge(items, next), histo, totaldata, totalweight)
    decreases |items|
  {
    var n := |items|;
    if n > 1 {
      var x := Node(next, items[n - 2], items[n - 1]);
      forall t | t in MergeStep(items, next) ensures LeavesWeigh(t, histo, totaldata, totalweight) {
        InsertKeeps(items[..n - 2], x, t);
      }
      MergeWeighs(MergeStep(items, next), next + 1, histo, totaldata, totalweight);
    }
  }

  /** What symbol `s` costs in a tree whose root is `k` bits deep. */
  function Spent(t: Tree, s: nat, k: nat): nat {
    match t
    case Leaf(x, w) => if x == s then w * k else 0
    case Node(_, l, r) => Spent(l, s, k + 1) + Spent(r, s, k + 1)
  }

  function SpentBelow(t: Tree, n: nat, k: nat): nat {
    if n == 0 then 0 else SpentBelow(t, n - 1, k) + Spent(t, n - 1, k)
  }

  lemma {:induction false} SpentOfNode(id: nat, l: Tree, r: Tree, n: nat, k: nat)
    ensures SpentBelow(Node(id, l, r), n, k) == SpentBelow(l, n, k + 1) + SpentBelow(r, n, k + 1)
  {
    if n > 0 {
      SpentOfNode(id, l, r, n - 1, k);
    }
  }

  lemma {:induction false} SpentOfOneLeaf(x: nat, w: nat, n: nat, k: nat)
    ensures SpentBelow(Leaf(x, w), n, k) == if x < n then w * k else 0
  {
    if n > 0 {
      SpentOfOneLeaf(x, w, n - 1, k);
    }
  }

  /** All symbols together cost what the inner nodes weigh, and the depth of the root for every sample. */
  lemma {:induction false} SpentIsInner(t: Tree, n: nat, k: nat)
    requires forall s: nat :: Occurs(t, s) > 0 ==> s < n
    ensures SpentBelow(t, n, k) == Inner(t) + Weight(t) * k
  {
    match t {
      case Leaf(x, w) =>
        assert Occurs(t, x) > 0;
        SpentOfOneLeaf(x, w, n, k);
      case Node(id, l, r) =>
        hide SpentBelow;
        SpentOfNode(id, l, r, n, k);
        assert forall s: nat :: Occurs(t, s) == Occurs(l, s) + Occurs(r, s);
        SpentIsInner(l, n, k + 1);
        SpentIsInner(r, n, k + 1);
        OneDeeper(Weight(l), Weight(r), k);
    }
  }

  lemma {:induction false} OneDeeper(a: nat, b: nat, k: nat)
    ensures a * (k + 1) + b * (k + 1) == (a + b) * k + a + b
  {}

  lemma {:induction false} SpentOfAbsent(t: Tree, s: nat, k: nat)
    requires Occurs(t, s) == 0
    ensures Spent(t, s, k) == 0
  {
    if t.Node? {
      SpentOfAbsent(t.left, s, k + 1);
      SpentOfAbsent(t.right, s, k + 1);
    }
  }

  lemma {:induction false} SpentOfLeaf(t: Tree, s: nat, k: nat, histo: seq<nat>, totaldata: nat, totalweight: nat)
    requires totaldata > 0 && s < |histo| && LeavesWeigh(t, histo, totaldata, totalweight) && Occurs(t, s) == 1
    ensures Spent(t, s, k) == Scaled(histo[s], totaldata, totalweight) * (k + Depth(t, s))
  {
    if t.Node? {
      if Occurs(t.left, s) > 0 {
        SpentOfLeaf(t.left, s, k + 1, histo, totaldata, totalweight);
        SpentOfAbsent(t.right, s, k + 1);
      } else {
        SpentOfLeaf(t.right, s, k + 1, histo, totaldata, totalweight);
        SpentOfAbsent(t.left, s, k + 1);
      }
    }
  }

  // ----- the result

  /** How long the first `n` symbols come out in a code, counted with their scaled weights. */
  function CodeSize(histo: seq<nat>, totaldata: nat, totalweight: nat, lens: seq<nat>, n: nat): nat
    requires totaldata > 0 && n <= |histo| == |lens|
  {
    if n == 0 then 0
    else
      CodeSize(histo, totaldata, totalweight, lens, n - 1)
      + if histo[n - 1] == 0 then 0 else Scaled(histo[n - 1], totaldata, totalweight) * lens[n - 1]
  }

  /** The size of the built code is the weight of the inner nodes. */
  lemma {:induction false} BuiltSize(histo: seq<nat>, totaldata: nat, totalweight: nat, n: nat)
    requires totaldata > 0 && Used(histo) >= 2 && n <= |histo|
    requires LeavesWeigh(Build(histo, totaldata, totalweight), histo, totaldata, totalweight)
    ensures CodeSize(histo, totaldata, totalweight, Lengths(histo, totaldata, totalweight), n)
         == SpentBelow(Build(histo, totaldata, totalweight), n, 0)
  {
    if n > 0 {
      var t, s := Build(histo, totaldata, totalweight), n - 1;
      BuiltSize(histo, totaldata, totalweight, s);
      BuildLeaves(histo, totaldata, totalweight, s);
      if histo[s] == 0 {
        SpentOfAbsent(t, s, 0);
      } else {
        SpentOfLeaf(t, s, 0, histo, totaldata, totalweight);
        BuildIsNode(histo, totaldata, totalweight);
      }
    }
  }

  /** The code length of a leaf's symbol, and what it takes up and costs. */
  function LeafLength(lens: seq<nat>, t: Tree): nat {
    if t.Leaf? && t.symbol < |lens| then lens[t.symbol] else 0
  }

  function LeafUnit(lens: seq<nat>, d: nat): Tree -> nat {
    (t: Tree) => Unit(LeafLength(lens, t), d)
  }

  function LeafCost(lens: seq<nat>): Tree -> nat {
    (t: Tree) => Weight(t) * LeafLength(lens, t)
  }

  function LeafLengths(lens: seq<nat>, items: seq<Tree>): (ls: seq<nat>)
    ensures |ls| == |items|
  {
    seq(|items|, i requires 0 <= i < |items| => LeafLength(lens, items[i]))
  }

  lemma {:induction false} SpreadOfLeaves(items: seq<Tree>, lens: seq<nat>, d: nat)
    ensures Spread(LeafLengths(lens, items), d) == Total(items, LeafUnit(lens, d))
    ensures Lifted(items, LeafLengths(lens, items)) == Total(items, LeafCost(lens))
  {
    if items != [] {
      var n := |items| - 1;
      SpreadOfLeaves(items[..n], lens, d);
      assert LeafLengths(lens, items)[..n] == LeafLengths(lens, items[..n]);
    }
  }

  /** In symbol order, the leaves cost what the code does, and take up no more than it. */
  lemma {:induction false} LeafListSums(histo: seq<nat>, totaldata: nat, totalweight: nat, lens: seq<nat>, d: nat,
                                        n: nat)
    requires totaldata > 0 && n <= |histo| == |lens|
    requires forall s :: 0 <= s < |histo| && histo[s] != 0 ==> 0 < lens[s] <= d
    ensures var items := LeafList(histo, totaldata, totalweight, n);
      && Total(items, LeafCost(lens)) == CodeSize(histo, totaldata, totalweight, lens, n)
      && Total(items, LeafUnit(lens, d)) <= SymbolSum(lens[..n], d)
  {
    if n > 0 {
      hide Scaled, Total;
      var rest := LeafList(histo, totaldata, totalweight, n - 1);
      LeafListSums(histo, totaldata, totalweight, lens, d, n - 1);
      assert lens[..n][..n - 1] == lens[..n - 1];
      if histo[n - 1] != 0 {
        OneMoreLeaf(rest, n - 1, Scaled(histo[n - 1], totaldata, totalweight), lens, d);
      }
    } else {
      assert LeafList(histo, totaldata, totalweight, n) == [];
    }
  }

  lemma {:induction false} OneMoreLeaf(rest: seq<Tree>, s: nat, w: nat, lens: seq<nat>, d: nat)
    requires s < |lens| && 0 < lens[s] <= d
    ensures Total(rest + [Leaf(s, w)], LeafCost(lens)) == Total(rest, LeafCost(lens)) + w * lens[s]
    ensures Total(rest + [Leaf(s, w)], LeafUnit(lens, d)) == Total(rest, LeafUnit(lens, d)) + Share(lens[s], d)
  {
    TotalSnoc(rest, Leaf(s, w), LeafCost(lens));
    TotalSnoc(rest, Leaf(s, w), LeafUnit(lens, d));
  }

  /** A tree of leaves has no inner nodes yet. */
  lemma {:induction false} NoInner(items: seq<Tree>)
    requires forall t :: t in items ==> t.Leaf?
    ensures Total(items, Inner) == 0
  {
    if items != [] {
      NoInner(items[..|items| - 1]);
    }
  }

  lemma {:induction false} ShorterIsSmaller(histo: seq<nat>, totaldata: nat, totalweight: nat, short: seq<nat>,
                                            long: seq<nat>, n: nat)
    requires totaldata > 0 && n <= |histo| == |short| == |long|
    requires forall s :: 0 <= s < |histo| && histo[s] != 0 ==> short[s] <= long[s]
    ensures CodeSize(histo, totaldata, totalweight, short, n) <= CodeSize(histo, totaldata, totalweight, long, n)
  {
    if n > 0 {
      ShorterIsSmaller(histo, totaldata, totalweight, short, long, n - 1);
      if histo[n - 1] != 0 {
        LessTimes(Scaled(histo[n - 1], totaldata, totalweight), short[n - 1], long[n - 1]);
      }
    }
  }

  /** The leaves with the lengths of a code meet what the merge loop's theorem asks. */
  lemma {:induction false} CodedLeaves(histo: seq<nat>, totaldata: nat, totalweight: nat, lens: seq<nat>, d: nat)
    requires totaldata > 0 && |lens| == |histo| && Kraft(lens, d) <= Pow2(d)
    requires forall s :: 0 <= s < |histo| && histo[s] != 0 ==> 0 < lens[s] <= d
    ensures var items := Sort(LeafList(histo, totaldata, totalweight, |histo|));
      var ls := LeafLengths(lens, items);
      && Sorted(items) && Within(ls, d) && Spread(ls, d) <= Pow2(d) && Total(items, Inner) == 0
      && Lifted(items, ls) == CodeSize(histo, totaldata, totalweight, lens, |histo|)
      && forall t :: t in items ==> LeavesWeigh(t, histo, totaldata, totalweight)
  {
    var leaves := LeafList(histo, totaldata, totalweight, |histo|);
    var items := Sort(leaves);
    var ls := LeafLengths(lens, items);
    SortSorted(leaves);
    forall t | t in items ensures t.Leaf? && LeavesWeigh(t, histo, totaldata, totalweight) && LeafLength(lens, t) <= d {
      SortKeeps(leaves, t);
      LeafListGrowing(histo, totaldata, totalweight, |histo|, t);
      LeafIsUsed(histo, totaldata, totalweight, |histo|, t);
    }
    forall i | 0 <= i < |ls| ensures ls[i] <= d {
      assert items[i] in items;
    }
    NoInner(items);
    KraftIsSymbolSum(lens, d);
    assert lens[..|histo|] == lens;
    LeafListSums(histo, totaldata, totalweight, lens, d, |histo|);
    TotalSort(leaves, LeafCost(lens));
    TotalSort(leaves, LeafUnit(lens, d));
    SpreadOfLeaves(items, lens, d);
  }

  lemma {:induction false} LeafIsUsed(histo: seq<nat>, totaldata: nat, totalweight: nat, n: nat, t: Tree)
    requires totaldata > 0 && n <= |histo| && t in LeafList(histo, totaldata, totalweight, n)
    ensures t.Leaf? && t.symbol < n && histo[t.symbol] != 0
  {
    if t !in LeafList(histo, totaldata, totalweight, n - 1) {
      assert t.symbol == n - 1;
    } else {
      LeafIsUsed(histo, totaldata, totalweight, n - 1, t);
    }
  }

  lemma {:induction false} MergedIsOptimal(histo: seq<nat>, totaldata: nat, totalweight: nat, lens: seq<nat>, d: nat)
    requires totaldata > 0 && Used(histo) >= 2 && |lens| == |histo|
    requires forall s :: 0 <= s < |histo| && histo[s] != 0 ==> 0 < lens[s] <= d
    requires Kraft(lens, d) <= Pow2(d)
    ensures CodeSize(histo, totaldata, totalweight, Lengths(histo, totaldata, totalweight), |histo|)
         <= CodeSize(histo, totaldata, totalweight, lens, |histo|)
  {
    hide Sorted, Within, Spread, Lifted, Total, CodeSize, LeafList, Merge, Sort, Lengths, Kraft, Spent, SpentBelow;
    hide LeavesWeigh;
    var items, t := Sort(LeafList(histo, totaldata, totalweight, |histo|)), Build(histo, totaldata, totalweight);
    UsedIsLength(histo, totaldata, totalweight, |histo|);
    CodedLeaves(histo, totaldata, totalweight, lens, d);
    MergeIsLightest(items, |histo|, LeafLengths(lens, items), d);
    MergeWeighs(items, |histo|, histo, totaldata, totalweight);
    BuiltSize(histo, totaldata, totalweight, |histo|);
    forall x: nat ensures Occurs(t, x) > 0 ==> x < |histo| {
      BuildLeaves(histo, totaldata, totalweight, x);
    }
    SpentIsInner(t, |histo|, 0);
  }

  /**
   Huffman's theorem. Whatever code one chooses for the used symbols, with a Kraft sum of at most one,
   the lengths of huffman_build_tree do not make the weighted data longer.
   */
  lemma {:induction false} BuiltCodeIsOptimal(histo: seq<nat>, totaldata: nat, totalweight: nat, lens: seq<nat>, d: nat)
    requires totaldata > 0 && |lens| == |histo|
    requires forall s :: 0 <= s < |histo| && histo[s] != 0 ==> 0 < lens[s] <= d
    requires Kraft(lens, d) <= Pow2(d)
    ensures CodeSize(histo, totaldata, totalweight, Lengths(histo, totaldata, totalweight), |histo|)
         <= CodeSize(histo, totaldata, totalweight, lens, |histo|)
  {
    if Used(histo) <= 1 {
      HuffmanBuild.DataForUsed(histo, totaldata);
      forall s | 0 <= s < |histo| && histo[s] != 0 ensures Lengths(histo, totaldata, totalweight)[s] <= lens[s] {
        HuffmanBuild.LonelyLength(histo, totaldata, totalweight, s);
      }
      ShorterIsSmaller(histo, totaldata, totalweight, Lengths(histo, totaldata, totalweight), lens, |histo|);
    } else {
      MergedIsOptimal(histo, totaldata, totalweight, lens, d);
    }
  }

  /** The length of the data in bits: every sample costs its code. */
  function EncodedBits(histo: seq<nat>, lens: seq<nat>, n: nat): nat
    requires n <= |histo| == |lens|
  {
    if n == 0 then 0 else EncodedBits(histo, lens, n - 1) + histo[n - 1] * lens[n - 1]
  }

  lemma {:induction false} RawSize(histo: seq<nat>, total: nat, lens: seq<nat>, n: nat)
    requires n <= |histo| == |lens| && 0 < total && Samples(histo, n) < 0x1_0000_0000
    ensures CodeSize(histo, total, total, lens, n) == EncodedBits(histo, lens, n)
  {
    if n > 0 {
      RawSize(histo, total, lens, n - 1);
      if histo[n - 1] != 0 {
        ScaledRaw(histo[n - 1], total);
      }
    }
  }

  /** With the raw weights, no other prefix code encodes the samples of the histogram in fewer bits. */
  lemma {:induction false} RawWeightsAreOptimal(histo: seq<nat>, total: nat, lens: seq<nat>, d: nat)
    requires 0 < Samples(histo, |histo|) == total < 0x1_0000_0000 && |lens| == |histo|
    requires forall s :: 0 <= s < |histo| && histo[s] != 0 ==> 0 < lens[s] <= d
    requires Kraft(lens, d) <= Pow2(d)
    ensures EncodedBits(histo, Lengths(histo, total, total), |histo|) <= EncodedBits(histo, lens, |histo|)
  {
    BuiltCodeIsOptimal(histo, total, total, lens, d);
    RawSize(histo, total, lens, |histo|);
    RawSize(histo, total, Lengths(histo, total, total), |histo|);
  }
}
