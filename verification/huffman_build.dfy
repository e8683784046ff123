/**
 huffman_build_tree and huffman_compute_tree_from_histo as they run: node arrays with
 parent pointers, a work list of node indices, and the binary search over weights.
 */
module HuffmanBuild {
  import opened Bits
  import opened HuffmanCodes
  import opened HuffmanTree
  import opened HuffmanShape
  import opened HuffmanDecoder

  /** A null parent pointer. */
  const NO_PARENT: int := -1

  // ----- sorting the work list

  function InsertIndex(list: seq<nat>, x: nat, weight: seq<nat>): (r: seq<nat>)
    requires x < |weight| && forall k :: 0 <= k < |list| ==> list[k] < |weight|
    ensures |r| == |list| + 1 && forall k :: 0 <= k < |r| ==> r[k] < |weight|
  {
    if list == [] then [x]
    else if weight[x] > weight[list[0]] then [x] + list
    else [list[0]] + InsertIndex(list[1..], x, weight)
  }

  /** The library sort under huffman_tree_node_compare: heavier first, then by symbol. */
  function SortIndices(list: seq<nat>, weight: seq<nat>): (r: seq<nat>)
    requires forall k :: 0 <= k < |list| ==> list[k] < |weight|
    ensures |r| == |list| && forall k :: 0 <= k < |r| ==> r[k] < |weight|
  {
    if list == [] then []
    else InsertIndex(SortIndices(list[..|list| - 1], weight), list[|list| - 1], weight)
  }

  /** The list holds the root indices of the trees, and the weight array their weights. */
  ghost predicate Names(list: seq<nat>, items: seq<Tree>, weight: seq<nat>) {
    && |list| == |items|
    && forall k :: 0 <= k < |list| ==> list[k] == Index(items[k]) < |weight| && weight[list[k]] == Weight(items[k])
  }

  // ----- trees in the node array

  /** The parent pointers below the root of `t` are those of `t`, in nodes below `next`. */
  ghost predicate Linked(t: Tree, parent: seq<int>, next: nat)
    requires next <= |parent|
  {
    match t
    case Leaf(s, _) => s < next
    case Node(id, l, r) =>
      && Index(l) < id && Index(r) < id < next
      && parent[Index(l)] == id && parent[Index(r)] == id
      && Linked(l, parent, next) && Linked(r, parent, next)
  }

  /** Parents come after their children. */
  ghost predicate Upward(parent: seq<int>, next: nat)
    requires next <= |parent|
  {
    forall x :: 0 <= x < next ==> parent[x] == NO_PARENT || x < parent[x] < next
  }

  /** How many steps lead from `x` to its root. */
  ghost function Steps(parent: seq<int>, next: nat, x: nat): nat
    requires next <= |parent| && Upward(parent, next) && x < next
    decreases next - x
  {
    if parent[x] == NO_PARENT then 0 else 1 + Steps(parent, next, parent[x])
  }

  lemma {:induction false} LinkedFrame(t: Tree, p: seq<int>, p': seq<int>, next: nat, next': nat)
    requires next <= |p| && next <= next' <= |p'| && Linked(t, p, next)
    requires forall x :: 0 <= x < next && p[x] != NO_PARENT ==> p'[x] == p[x]
    ensures Linked(t, p', next')
  {
    if t.Node? {
      LinkedFrame(t.left, p, p', next, next');
      LinkedFrame(t.right, p, p', next, next');
    }
  }

  lemma {:induction false} StepsAreDepth(t: Tree, parent: seq<int>, next: nat, s: nat)
    requires next <= |parent| && Upward(parent, next) && Linked(t, parent, next) && Occurs(t, s) > 0
    ensures s < next && Index(t) < next
    ensures Steps(parent, next, s) == Depth(t, s) + Steps(parent, next, Index(t))
  {
    if t.Node? {
      if Occurs(t.left, s) > 0 {
        StepsAreDepth(t.left, parent, next, s);
      } else {
        StepsAreDepth(t.right, parent, next, s);
      }
    }
  }

  /** The state of the merge loop. */
  ghost predicate Merging(list: seq<nat>, items: seq<Tree>, weight: seq<nat>, parent: seq<int>, next: nat) {
    && next <= |parent| && Names(list, items, weight)
    && Upward(parent, next)
    && (forall i, j :: 0 <= i < j < |list| ==> list[i] != list[j])
    && (forall k :: 0 <= k < |list| ==>
          list[k] < next && parent[list[k]] == NO_PARENT && Linked(items[k], parent, next))
  }

  /** The arrays after the assignments in the loop body, for the roots `a` and `b`. */
  ghost predicate Joined(weight: seq<nat>, parent: seq<int>, next: nat, a: nat, b: nat, weight': seq<nat>,
                         parent': seq<int>)
  {
    && a < next && b < next && next < |weight| && next < |parent|
    && parent' == parent[next := NO_PARENT][a := next][b := next]
    && weight' == weight[next := weight[a] + weight[b]]
  }

  /** Trees other than the two that were joined are still there. */
  lemma {:induction false} OthersKept(list: seq<nat>, items: seq<Tree>, weight: seq<nat>, parent: seq<int>, next: nat,
                                      weight': seq<nat>, parent': seq<int>)
    requires Merging(list, items, weight, parent, next) && |list| >= 2
    requires Joined(weight, parent, next, list[|list| - 2], list[|list| - 1], weight', parent')
    ensures Merging(list[..|list| - 2], items[..|list| - 2], weight', parent', next + 1)
  {
    forall k | 0 <= k < |list| - 2 ensures Linked(items[k], parent', next + 1) {
      LinkedFrame(items[k], parent, parent', next, next + 1);
    }
  }

  /** The new node is the root of the joined tree. */
  lemma {:induction false} JoinedIsLinked(list: seq<nat>, items: seq<Tree>, weight: seq<nat>, parent: seq<int>,
                                          next: nat,
                                          weight': seq<nat>, parent': seq<int>)
    requires Merging(list, items, weight, parent, next) && |list| >= 2
    requires Joined(weight, parent, next, list[|list| - 2], list[|list| - 1], weight', parent')
    ensures var t := Node(next, items[|list| - 2], items[|list| - 1]);
      Linked(t, parent', next + 1) && weight'[next] == Weight(t) && parent'[next] == NO_PARENT
  {
    LinkedFrame(items[|list| - 2], parent, parent', next, next + 1);
    LinkedFrame(items[|list| - 1], parent, parent', next, next + 1);
  }

  lemma {:induction false} MergingInsert(list: seq<nat>, items: seq<Tree>, x: nat, t: Tree, p: nat,
                                         weight: seq<nat>, parent: seq<int>, next: nat)
    requires Merging(list, items, weight, parent, next) && p <= |list|
    requires x == Index(t) < next && x < |weight| && weight[x] == Weight(t) && parent[x] == NO_PARENT
    requires Linked(t, parent, next) && forall k :: 0 <= k < |list| ==> list[k] != x
    ensures Merging(list[..p] + [x] + list[p..], items[..p] + [t] + items[p..], weight, parent, next)
  {
    hide Linked, Upward;
  }

  /** The insertion loop puts a new root in its place. */
  lemma {:induction false} InsertRoot(list: seq<nat>, items: seq<Tree>, x: nat, t: Tree, weight: seq<nat>,
                                      parent: seq<int>, next: nat)
    requires Merging(list, items, weight, parent, next) && x == Index(t) < next && x < |weight|
    requires weight[x] == Weight(t) && parent[x] == NO_PARENT && Linked(t, parent, next)
    requires forall k :: 0 <= k < |list| ==> list[k] != x
    ensures Merging(InsertIndex(list, x, weight), Insert(items, t), weight, parent, next)
  {
    hide Linked, Upward, Insert, InsertIndex, Place, PlaceIndex;
    InsertIndexAt(list, x, weight);
    InsertAtPlace(items, t);
    SamePlace(list, items, x, t, weight);
    MergingInsert(list, items, x, t, Place(items, t), weight, parent, next);
  }

  lemma {:induction false} MergeArrays(list: seq<nat>, items: seq<Tree>, weight: seq<nat>, parent: seq<int>, next: nat,
                                       weight': seq<nat>, parent': seq<int>)
    requires Merging(list, items, weight, parent, next) && |list| >= 2
    requires Joined(weight, parent, next, list[|list| - 2], list[|list| - 1], weight', parent')
    ensures Merging(InsertIndex(list[..|list| - 2], next, weight'), MergeStep(items, next), weight', parent', next + 1)
  {
    var n, following := |list|, next + 1;
    var node := Node(next, items[n - 2], items[n - 1]);
    OthersKept(list, items, weight, parent, next, weight', parent');
    JoinedIsLinked(list, items, weight, parent, next, weight', parent');
    InsertRoot(list[..n - 2], items[..n - 2], next, node, weight', parent', following);
  }

  function PlaceIndex(list: seq<nat>, x: nat, weight: seq<nat>): (k: nat)
    requires x < |weight| && forall k :: 0 <= k < |list| ==> list[k] < |weight|
    ensures k <= |list|
  {
    if list == [] || weight[x] > weight[list[0]] then 0 else 1 + PlaceIndex(list[1..], x, weight)
  }

  lemma {:induction false} InsertIndexAt(list: seq<nat>, x: nat, weight: seq<nat>)
    requires x < |weight| && forall k :: 0 <= k < |list| ==> list[k] < |weight|
    ensures var k := PlaceIndex(list, x, weight); InsertIndex(list, x, weight) == list[..k] + [x] + list[k..]
  {
    if list == [] || weight[x] > weight[list[0]] {
      assert list[..0] + [x] + list[0..] == [x] + list;
    } else {
      InsertIndexAt(list[1..], x, weight);
      var k := PlaceIndex(list[1..], x, weight);
      assert list[..k + 1] + [x] + list[k + 1..] == [list[0]] + (list[1..][..k] + [x] + list[1..][k..]);
    }
  }

  lemma {:induction false} SamePlace(list: seq<nat>, items: seq<Tree>, x: nat, t: Tree, weight: seq<nat>)
    requires Names(list, items, weight) && x == Index(t) < |weight| && weight[x] == Weight(t)
    ensures PlaceIndex(list, x, weight) == Place(items, t)
  {
    if list != [] && weight[x] <= weight[list[0]] {
      SamePlace(list[1..], items[1..], x, t, weight);
    }
  }

  // ----- the code

  /** The sum of all scaled weights; the source keeps it in 32 bits. */
  function TotalWeight(histo: seq<nat>, totaldata: nat, totalweight: nat): nat {
    if totaldata == 0 then 0 else Total(LeafList(histo, totaldata, totalweight, |histo|), Weight)
  }

  /** First part of huffman_build_tree: clear the nodes, list the used symbols with their weights. */
  method CollectLeaves(datahisto: array<nat>, parent: array<int>, weight: array<nat>, totaldata: nat, totalweight: nat)
    returns (list: seq<nat>)
    requires parent.Length == weight.Length >= datahisto.Length && datahisto != weight
    requires totaldata > 0 || Used(datahisto[..]) == 0
    modifies parent, weight
    ensures datahisto[..] == old(datahisto[..])
    ensures |list| == Used(datahisto[..])
    ensures totaldata > 0 ==>
      Merging(list, LeafList(datahisto[..], totaldata, totalweight, datahisto.Length),
              weight[..], parent[..], datahisto.Length)
    ensures forall s :: 0 <= s < datahisto.Length ==> (weight[s] > 0 <==> datahisto[s] != 0)
  {
    hide Collected, Merging, LeafList, UsedBelow;
    ghost var histo := datahisto[..];
    list := [];
    CollectStart(histo, totaldata, totalweight, weight[..], parent[..]);
    for curcode := 0 to datahisto.Length
      invariant histo == datahisto[..]
      invariant Collected(list, histo, totaldata, totalweight, curcode, weight[..], parent[..])
    {
      ghost var list0, weight0, parent0 := list, weight[..], parent[..];
      parent[curcode], weight[curcode] := NO_PARENT, 0;
      if datahisto[curcode] != 0 {
        UsedPositive(histo, curcode, |histo|);
        list := list + [curcode];
        weight[curcode] := Low(datahisto[curcode] * totalweight / totaldata, 32);
        if weight[curcode] == 0 {
          weight[curcode] := 1;
        }
      }
      CollectStep(list0, histo, totaldata, totalweight, curcode, curcode + 1, weight0, parent0,
                  list, weight[..], parent[..]);
    }
    CollectEnd(list, histo, totaldata, totalweight, weight[..], parent[..]);
  }

  /** The used symbols below `n` are listed, with their weights and without parents. */
  ghost predicate Collected(list: seq<nat>, histo: seq<nat>, totaldata: nat, totalweight: nat, n: nat,
                            weight: seq<nat>, parent: seq<int>)
    requires n <= |histo| <= |weight| == |parent|
  {
    && |list| == UsedBelow(histo, n)
    && (totaldata > 0 ==> Names(list, LeafList(histo, totaldata, totalweight, n), weight))
    && (totaldata > 0 ==> forall t :: t in LeafList(histo, totaldata, totalweight, n) ==> t.Leaf?)
    && (forall s :: 0 <= s < n ==> parent[s] == NO_PARENT)
    && (forall k :: 0 <= k < |list| ==> list[k] < n)
    && (forall i, j :: 0 <= i < j < |list| ==> list[i] != list[j])
    && (forall s :: 0 <= s < n ==> (weight[s] > 0 <==> histo[s] != 0))
  }

  lemma {:induction false} ListGrows(list: seq<nat>, list': seq<nat>, n: nat, next: nat)
    requires next == n + 1 && (list' == list || list' == list + [n])
    requires forall k :: 0 <= k < |list| ==> list[k] < n
    requires forall i, j :: 0 <= i < j < |list| ==> list[i] != list[j]
    ensures forall k :: 0 <= k < |list'| ==> list'[k] < next
    ensures forall i, j :: 0 <= i < j < |list'| ==> list'[i] != list'[j]
  {}

  lemma {:induction false} ArraysGrow(histo: seq<nat>, n: nat, next: nat, weight: seq<nat>, parent: seq<int>,
                                      weight': seq<nat>, parent': seq<int>)
    requires n < |histo| <= |weight| == |parent| == |weight'| == |parent'| && next == n + 1
    requires forall s :: 0 <= s < n ==> parent[s] == NO_PARENT && (weight[s] > 0 <==> histo[s] != 0)
    requires parent' == parent[n := NO_PARENT] && weight' == weight[n := weight'[n]]
    requires weight'[n] > 0 <==> histo[n] != 0
    ensures forall s :: 0 <= s < next ==> parent'[s] == NO_PARENT && (weight'[s] > 0 <==> histo[s] != 0)
  {}

  lemma {:induction false} OneMoreUsed(histo: seq<nat>, n: nat, next: nat)
    requires n < |histo| && next == n + 1
    ensures UsedBelow(histo, next) == UsedBelow(histo, n) + if histo[n] == 0 then 0 else 1
  {}

  lemma {:induction false} MoreLeaves(items: seq<Tree>, x: Tree)
    requires x.Leaf? && forall t :: t in items ==> t.Leaf?
    ensures forall t :: t in items + [x] ==> t.Leaf?
  {}

  lemma {:induction false} CollectStep(list: seq<nat>, histo: seq<nat>, totaldata: nat, totalweight: nat, n: nat,
                                       next: nat,
                                       weight: seq<nat>, parent: seq<int>,
                                       list': seq<nat>, weight': seq<nat>, parent': seq<int>)
    requires n < |histo| <= |weight| == |parent| && next == n + 1 && (histo[n] != 0 ==> totaldata > 0)
    requires Collected(list, histo, totaldata, totalweight, n, weight, parent)
    requires list' == if histo[n] == 0 then list else list + [n]
    requires weight' == weight[n := if histo[n] == 0 then 0 else Scaled(histo[n], totaldata, totalweight)]
    requires parent' == parent[n := NO_PARENT]
    ensures Collected(list', histo, totaldata, totalweight, next, weight', parent')
  {
    hide Scaled, Names, LeafList, UsedBelow;
    ListGrows(list, list', n, next);
    ArraysGrow(histo, n, next, weight, parent, weight', parent');
    OneMoreUsed(histo, n, next);
    if totaldata > 0 {
      var items := LeafList(histo, totaldata, totalweight, n);
      LeafListStep(histo, totaldata, totalweight, n, next);
      NamesSnoc(list, items, weight, n, weight'[n]);
      MoreLeaves(items, Leaf(n, weight'[n]));
      assert items + [] == items;
    }
  }

  lemma {:induction false} CollectStart(histo: seq<nat>, totaldata: nat, totalweight: nat, weight: seq<nat>,
                                        parent: seq<int>)
    requires |histo| <= |weight| == |parent|
    ensures Collected([], histo, totaldata, totalweight, 0, weight, parent)
  {}

  lemma {:induction false} CollectEnd(list: seq<nat>, histo: seq<nat>, totaldata: nat, totalweight: nat,
                                      weight: seq<nat>, parent: seq<int>)
    requires |histo| <= |weight| == |parent| && Collected(list, histo, totaldata, totalweight, |histo|, weight, parent)
    ensures |list| == Used(histo) && forall s :: 0 <= s < |histo| ==> (weight[s] > 0 <==> histo[s] != 0)
    ensures totaldata > 0 ==> Merging(list, LeafList(histo, totaldata, totalweight, |histo|), weight, parent, |histo|)
  {}

  lemma {:induction false} LeafListStep(histo: seq<nat>, totaldata: nat, totalweight: nat, n: nat, next: nat)
    requires totaldata > 0 && n < |histo| && next == n + 1
    ensures LeafList(histo, totaldata, totalweight, next) == LeafList(histo, totaldata, totalweight, n)
      + if histo[n] == 0 then [] else [Leaf(n, Scaled(histo[n], totaldata, totalweight))]
  {}

  lemma {:induction false} NamesSnoc(list: seq<nat>, items: seq<Tree>, weight: seq<nat>, n: nat, w: nat)
    requires Names(list, items, weight) && n < |weight| && forall k :: 0 <= k < |list| ==> list[k] < n
    ensures Names(list, items, weight[n := w])
    ensures Names(list + [n], items + [Leaf(n, w)], weight[n := w])
  {}

  /** One round of the merge loop of huffman_build_tree. */
  method MergeOnce(work: seq<nat>, ghost trees: seq<Tree>, parent: array<int>, weight: array<nat>, nextalloc: nat,
                   ghost following: nat)
    returns (list: seq<nat>)
    requires following == nextalloc + 1 && |work| >= 2 && nextalloc < parent.Length == weight.Length
    requires Merging(work, trees, weight[..], parent[..], nextalloc)
    modifies parent, weight
    ensures |list| == |work| - 1
    ensures Merging(list, MergeStep(trees, nextalloc), weight[..], parent[..], following)
    ensures forall s :: 0 <= s < nextalloc ==> weight[s] == old(weight[s])
    ensures forall s :: following <= s < parent.Length ==> weight[s] == old(weight[s]) && parent[s] == old(parent[s])
  {
    ghost var weight0, parent0 := weight[..], parent[..];
    var node1, node0 := work[|work| - 1], work[|work| - 2];
    parent[nextalloc] := NO_PARENT;
    parent[node0] := nextalloc;
    parent[node1] := nextalloc;
    weight[nextalloc] := weight[node0] + weight[node1];
    MergeArrays(work, trees, weight0, parent0, nextalloc, weight[..], parent[..]);
    list := InsertIndex(work[..|work| - 2], nextalloc, weight[..]);
  }

  lemma {:induction false} NamesCount(list: seq<nat>, trees: seq<Tree>, weight: seq<nat>, parent: seq<int>, next: nat)
    requires Merging(list, trees, weight, parent, next)
    ensures |list| == |trees|
  {}

  lemma {:induction false} MergeUnfold(trees: seq<Tree>, next: nat, following: nat)
    requires |trees| >= 2 && following == next + 1
    ensures Merge(trees, next) == Merge(MergeStep(trees, next), following)
  {}

  /** When one tree is left, it is the result, and its root has no parent. */
  lemma {:induction false} MergingDone(list: seq<nat>, trees: seq<Tree>, weight: seq<nat>, parent: seq<int>, next: nat)
    requires |list| == 1 && Merging(list, trees, weight, parent, next)
    ensures |trees| == 1 && Upward(parent, next) && Linked(Merge(trees, next), parent, next)
    ensures list[0] == Index(Merge(trees, next)) < next <= |parent| && parent[list[0]] == NO_PARENT
  {}

  /** The merge loop. */
  method MergeAll(work: seq<nat>, ghost items: seq<Tree>, parent: array<int>, weight: array<nat>, numcodes: nat)
    returns (root: nat, ghost next: nat)
    requires work != [] && parent.Length == weight.Length >= numcodes + |work| - 1
    requires Merging(work, items, weight[..], parent[..], numcodes)
    modifies parent, weight
    ensures next == numcodes + |work| - 1 && Upward(parent[..], next)
    ensures Linked(Merge(items, numcodes), parent[..], next)
    ensures root == Index(Merge(items, numcodes)) < next && parent[root] == NO_PARENT
    ensures forall s :: 0 <= s < numcodes ==> weight[s] == old(weight[s])
    ensures forall s :: next <= s < parent.Length ==> weight[s] == old(weight[s]) && parent[s] == old(parent[s])
  {
    var list := work;
    ghost var trees := items;
    var nextalloc := numcodes;
    NamesCount(list, trees, weight[..], parent[..], nextalloc);
    hide Merging, Merge, MergeStep, Linked, Upward, Names;
    while |list| > 1
      invariant list != [] && |list| == |trees| && numcodes <= nextalloc && nextalloc + |list| == numcodes + |work|
      invariant Merging(list, trees, weight[..], parent[..], nextalloc)
      invariant Merge(trees, nextalloc) == Merge(items, numcodes)
      invariant forall s :: 0 <= s < numcodes ==> weight[s] == old(weight[s])
      invariant forall s :: nextalloc <= s < parent.Length ==>
        weight[s] == old(weight[s]) && parent[s] == old(parent[s])
      decreases |list|
    {
      var following := nextalloc + 1;
      MergeUnfold(trees, nextalloc, following);
      list := MergeOnce(list, trees, parent, weight, nextalloc, following);
      trees := MergeStep(trees, nextalloc);
      nextalloc := following;
    }
    MergingDone(list, trees, weight[..], parent[..], nextalloc);
    root, next := list[0], nextalloc;
  }

  /** The inner loop of the last part: count the steps to the root, in eight bits. */
  method CountSteps(parent: array<int>, ghost next: nat, s: nat) returns (numbits: nat)
    requires next <= parent.Length && Upward(parent[..], next) && s < next && Steps(parent[..], next, s) < 256
    ensures numbits == Steps(parent[..], next, s)
  {
    numbits := 0;
    var curnode := s;
    while parent[curnode] != NO_PARENT
      invariant curnode < next && numbits + Steps(parent[..], next, curnode) == Steps(parent[..], next, s)
      decreases next - curnode
    {
      SmallByte(numbits + 1);
      numbits := Low(numbits + 1, 8);
      curnode := parent[curnode];
    }
  }

  lemma {:induction false} SmallByte(x: nat)
    requires x < 256
    ensures Low(x, 8) == x
  {
    assert Pow2(8) == 256;
    LowSmall(x, 8);
  }

  /** The histogram's tree sits in the node array, and its weight in 32 bits. */
  ghost predicate TreeIn(histo: seq<nat>, totaldata: nat, totalweight: nat, parent: seq<int>, next: nat)
    requires Used(histo) > 0
  {
    && totaldata > 0 && next <= |parent| && Upward(parent, next)
    && TotalWeight(histo, totaldata, totalweight) < 0x1_0000_0000
    && var t := Build(histo, totaldata, totalweight);
       Linked(t, parent, next) && Index(t) < next && parent[Index(t)] == NO_PARENT
  }

  ghost predicate HistogramHasData(histo: seq<nat>, totaldata: nat) {
    totaldata > 0 || forall s :: 0 <= s < |histo| ==> histo[s] == 0
  }

  lemma {:induction false} DataForUsed(histo: seq<nat>, totaldata: nat)
    requires totaldata > 0 || Used(histo) == 0
    ensures HistogramHasData(histo, totaldata)
  {
    forall s | 0 <= s < |histo| && histo[s] != 0 ensures totaldata > 0 {
      UsedPositive(histo, s, |histo|);
    }
  }

  /** In a histogram's tree the steps to the root are the depth, and fit in a byte. */
  lemma {:induction false} StepsOfSymbol(histo: seq<nat>, totaldata: nat, totalweight: nat, parent: seq<int>,
                                         next: nat, s: nat)
    requires Used(histo) > 0 && s < |histo| && histo[s] != 0 && TreeIn(histo, totaldata, totalweight, parent, next)
    ensures s < next && Steps(parent, next, s) == Depth(Build(histo, totaldata, totalweight), s) <= 45
  {
    var t := Build(histo, totaldata, totalweight);
    BuildLeaves(histo, totaldata, totalweight, s);
    StepsAreDepth(t, parent, next, s);
    PartOfLeaf(t, s, Height(t));
    WeightOfBuild(histo, totaldata, totalweight);
    LongCodesNeedWeight(histo, totaldata, totalweight);
  }

  lemma {:induction false} WeightOfBuild(histo: seq<nat>, totaldata: nat, totalweight: nat)
    requires totaldata > 0 && Used(histo) > 0
    ensures Weight(Build(histo, totaldata, totalweight)) == TotalWeight(histo, totaldata, totalweight)
  {
    var items := LeafList(histo, totaldata, totalweight, |histo|);
    UsedIsLength(histo, totaldata, totalweight, |histo|);
    TotalSort(items, Weight);
    TotalOfMerge(Sort(items), |histo|, Weight);
  }

  /** Last part of huffman_build_tree: code lengths from depths, and their maximum. */
  method MeasureCodes(datahisto: array<nat>, parent: array<int>, weight: array<nat>, numbits: array<nat>,
                      ghost next: nat, totaldata: nat, totalweight: nat)
    returns (maxbits: nat)
    requires numbits.Length == datahisto.Length <= parent.Length == weight.Length
    requires numbits != datahisto && numbits != weight
    requires totaldata > 0 || Used(datahisto[..]) == 0
    requires Used(datahisto[..]) > 0 ==> TreeIn(datahisto[..], totaldata, totalweight, parent[..], next)
    requires forall s :: 0 <= s < datahisto.Length ==> (weight[s] > 0 <==> datahisto[s] != 0)
    modifies numbits
    ensures datahisto[..] == old(datahisto[..])
    ensures HistogramHasData(datahisto[..], totaldata) && numbits[..] == Lengths(datahisto[..], totaldata, totalweight)
    ensures (forall s :: 0 <= s < numbits.Length ==> numbits[s] <= maxbits)
    ensures maxbits == 0 || exists s :: 0 <= s < numbits.Length && numbits[s] == maxbits
  {
    ghost var histo, parents := datahisto[..], parent[..];
    DataForUsed(histo, totaldata);
    maxbits := 0;
    for curcode := 0 to datahisto.Length
      invariant datahisto[..] == histo && parent[..] == parents
      invariant forall s :: 0 <= s < datahisto.Length ==> (weight[s] > 0 <==> histo[s] != 0)
      invariant forall s :: 0 <= s < curcode ==> numbits[s] == Length(histo, totaldata, totalweight, s) <= maxbits
      invariant maxbits == 0 || exists s :: 0 <= s < curcode && numbits[s] == maxbits
    {
      numbits[curcode] := 0;
      if weight[curcode] > 0 {
        UsedPositive(histo, curcode, |histo|);
        StepsOfSymbol(histo, totaldata, totalweight, parents, next, curcode);
        var steps := CountSteps(parent, next, curcode);
        numbits[curcode] := if steps == 0 then 1 else steps;
        maxbits := Max(maxbits, numbits[curcode]);
      }
    }
  }

  /** One node per code, and one for each merge. */
  function NodesNeeded(histo: seq<nat>): nat {
    |histo| + if Used(histo) > 1 then Used(histo) - 1 else 0
  }

  /** The two scaled weights of any used symbols differ by less than 2^31. */
  ghost predicate Comparable(histo: seq<nat>, totaldata: nat, totalweight: nat) {
    forall s, u :: 0 <= s < |histo| && 0 <= u < |histo| && histo[s] != 0 && histo[u] != 0 && totaldata > 0 ==>
      Scaled(histo[s], totaldata, totalweight) < Scaled(histo[u], totaldata, totalweight) + 0x8000_0000
  }

  /**
   huffman_build_tree: the code lengths of the histogram's tree, and the longest of them. The node
   arrays must have room for the inner nodes, the weights must add up in 32 bits, and no two of them may be so
   far apart that the comparison function of the sort gets them wrong (CompareExact).
   */
  method BuildTree(datahisto: array<nat>, parent: array<int>, weight: array<nat>, numbits: array<nat>,
                   totaldata: nat, totalweight: nat)
    returns (maxbits: nat)
    requires numbits.Length == datahisto.Length && parent.Length == weight.Length >= NodesNeeded(datahisto[..])
    requires numbits != datahisto && numbits != weight && datahisto != weight
    requires totaldata > 0 || Used(datahisto[..]) == 0
    requires TotalWeight(datahisto[..], totaldata, totalweight) < 0x1_0000_0000
    requires Comparable(datahisto[..], totaldata, totalweight)
    modifies parent, weight, numbits
    ensures datahisto[..] == old(datahisto[..])
    ensures HistogramHasData(datahisto[..], totaldata) && numbits[..] == Lengths(datahisto[..], totaldata, totalweight)
    ensures (forall s :: 0 <= s < numbits.Length ==> numbits[s] <= maxbits)
    ensures maxbits == 0 || exists s :: 0 <= s < numbits.Length && numbits[s] == maxbits
  {
    ghost var histo := datahisto[..];
    ghost var next := 0;
    var list := CollectLeaves(datahisto, parent, weight, totaldata, totalweight);
    if list != [] {
      ghost var items := LeafList(histo, totaldata, totalweight, |histo|);
      UsedIsLength(histo, totaldata, totalweight, |histo|);
      SortMerging(list, items, weight[..], parent[..], |histo|);
      list := SortIndices(list, weight[..]);
      var root;
      root, next := MergeAll(list, Sort(items), parent, weight, datahisto.Length);
    }
    maxbits := MeasureCodes(datahisto, parent, weight, numbits, next, totaldata, totalweight);
  }

  // ----- the size of the node pool

  /** Whether inner node `i` of the pool is part of the tree. */
  predicate HasNode(t: Tree, i: nat) {
    t.Node? && (t.id == i || HasNode(t.left, i) || HasNode(t.right, i))
  }

  predicate AnyHasNode(items: seq<Tree>, i: nat) {
    exists t :: t in items && HasNode(t, i)
  }

  lemma {:induction false} MergeStepNodes(items: seq<Tree>, next: nat, i: nat)
    requires |items| >= 2
    ensures AnyHasNode(MergeStep(items, next), i) <==> i == next || AnyHasNode(items, i)
  {
    var n := |items|;
    var rest, x := items[..n - 2], Node(next, items[n - 2], items[n - 1]);
    assert items == rest + [items[n - 2], items[n - 1]];
    forall t ensures t in MergeStep(items, next) <==> t in rest || t == x {
      InsertKeeps(rest, x, t);
    }
    if i == next {
      assert HasNode(x, i) && x in MergeStep(items, next);
    }
    if t :| t in items && HasNode(t, i) {
      assert if t in rest then t in MergeStep(items, next) else x in MergeStep(items, next) && HasNode(x, i);
    }
    if t :| t in MergeStep(items, next) && HasNode(t, i) {
      assert t == x || t in items;
      assert items[n - 2] in items && items[n - 1] in items;
    }
  }

  /** Merging takes one new node for each round, and the next free one each time. */
  lemma {:induction false} MergeTakesNodes(items: seq<Tree>, next: nat, i: nat)
    requires items != []
    ensures HasNode(Merge(items, next), i) <==> next <= i < next + |items| - 1 || AnyHasNode(items, i)
    decreases |items|
  {
    if |items| == 1 {
      assert items == [items[0]];
    } else {
      hide HasNode, AnyHasNode, MergeStep;
      MergeTakesNodes(MergeStep(items, next), next + 1, i);
      MergeStepNodes(items, next, i);
    }
  }

  /** The tree of a histogram uses the inner nodes from `|histo|` up to the number that is needed, and no others. */
  lemma {:induction false} NodesOfBuild(histo: seq<nat>, totaldata: nat, totalweight: nat, i: nat)
    requires totaldata > 0 && Used(histo) > 0
    ensures HasNode(Build(histo, totaldata, totalweight), i) <==> |histo| <= i < NodesNeeded(histo)
  {
    var items := LeafList(histo, totaldata, totalweight, |histo|);
    UsedIsLength(histo, totaldata, totalweight, |histo|);
    forall t | t in Sort(items) ensures t.Leaf? {
      SortKeeps(items, t);
      LeafListGrowing(histo, totaldata, totalweight, |histo|, t);
    }
    assert !AnyHasNode(Sort(items), i);
    hide HasNode, AnyHasNode, Sort, LeafList, Merge;
    MergeTakesNodes(Sort(items), |histo|, i);
  }

  /**
   A pool of `size` nodes holds the tree exactly if it has the needed number; one node per code is enough for one
   symbol.
   */
  lemma {:induction false} PoolSuffices(histo: seq<nat>, totaldata: nat, totalweight: nat, size: nat)
    requires totaldata > 0 && Used(histo) > 0 && size >= |histo|
    ensures (forall i: nat :: HasNode(Build(histo, totaldata, totalweight), i) ==>
      i < size) <==> size >= NodesNeeded(histo)
    ensures |histo| >= NodesNeeded(histo) <==> Used(histo) <= 1
  {
    hide Build, HasNode;
    var t := Build(histo, totaldata, totalweight);
    if size < NodesNeeded(histo) {
      NodesOfBuild(histo, totaldata, totalweight, size);
      assert HasNode(t, size);
    } else {
      forall i: nat | HasNode(t, i) ensures i < size {
        NodesOfBuild(histo, totaldata, totalweight, i);
      }
    }
  }

  // ----- the comparison function of the sort

  /** huffman_tree_node_compare: the difference of two unsigned words, taken as a signed one. */
  function NodeCompare(w1: nat, bits1: nat, w2: nat, bits2: nat): int
    requires w1 < 0x1_0000_0000 && w2 < 0x1_0000_0000
  {
    if w2 != w1 then
      var d := (w2 - w1) % 0x1_0000_0000;
      if d < 0x8000_0000 then d else d - 0x1_0000_0000
    else bits1 - bits2
  }

  /**
   It puts two nodes in the order of SortIndices, whichever comes first, exactly if their weights are less than 2^31
   apart.
   */
  lemma {:induction false} CompareExact(w1: nat, bits1: nat, w2: nat, bits2: nat)
    requires w1 < 0x1_0000_0000 && w2 < 0x1_0000_0000
    ensures
      && (NodeCompare(w1, bits1, w2, bits2) < 0 <==> w1 > w2 || (w1 == w2 && bits1 < bits2))
      && (NodeCompare(w2, bits2, w1, bits1) < 0 <==> w2 > w1 || (w1 == w2 && bits2 < bits1))
      <==> w1 < w2 + 0x8000_0000 && w2 < w1 + 0x8000_0000
    ensures w1 == w2 + 0x8000_0000 ==> NodeCompare(w1, bits1, w2, bits2) < 0 && NodeCompare(w2, bits2, w1, bits1) < 0
  {
    if w1 < w2 {
      WrapDown(w2, w1);
    } else if w2 < w1 {
      WrapDown(w1, w2);
    }
  }

  lemma {:induction false} WrapDown(a: nat, b: nat)
    requires b < a < 0x1_0000_0000
    ensures (a - b) % 0x1_0000_0000 == a - b && (b - a) % 0x1_0000_0000 == b - a + 0x1_0000_0000
  {}

  /** Sorting the list keeps the state of the merge loop. */
  lemma {:induction false} SortMerging(list: seq<nat>, items: seq<Tree>, weight: seq<nat>, parent: seq<int>, next: nat)
    requires Merging(list, items, weight, parent, next)
    ensures Merging(SortIndices(list, weight), Sort(items), weight, parent, next)
  {
    if list != [] {
      var n := |list| - 1;
      SortMerging(list[..n], items[..n], weight, parent, next);
      var sorted, trees := SortIndices(list[..n], weight), Sort(items[..n]);
      SortIndicesKeeps(list[..n], weight, list[n]);
      assert list[n] !in list[..n];
      InsertIndexAt(sorted, list[n], weight);
      InsertAtPlace(trees, items[n]);
      SamePlace(sorted, trees, list[n], items[n], weight);
      MergingInsert(sorted, trees, list[n], items[n], Place(trees, items[n]), weight, parent, next);
    }
  }

  lemma {:induction false} InsertIndexKeeps(list: seq<nat>, y: nat, weight: seq<nat>, x: nat)
    requires y < |weight| && forall k :: 0 <= k < |list| ==> list[k] < |weight|
    ensures x in InsertIndex(list, y, weight) <==> x in list || x == y
  {
    if list != [] {
      InsertIndexKeeps(list[1..], y, weight, x);
      assert list == [list[0]] + list[1..];
    }
  }

  lemma {:induction false} SortIndicesKeeps(list: seq<nat>, weight: seq<nat>, x: nat)
    requires forall k :: 0 <= k < |list| ==> list[k] < |weight|
    ensures x in SortIndices(list, weight) <==> x in list
  {
    if list != [] {
      var n := |list| - 1;
      hide InsertIndex;
      SortIndicesKeeps(list[..n], weight, x);
      InsertIndexKeeps(SortIndices(list[..n], weight), list[n], weight, x);
      assert list == list[..n] + [list[n]];
    }
  }

  /** The order of the comparison function: heavier nodes first, and equally heavy ones by symbol. */
  ghost predicate InCompareOrder(list: seq<nat>, weight: seq<nat>) {
    && (forall k :: 0 <= k < |list| ==> list[k] < |weight|)
    && forall i, j :: 0 <= i < j < |list| ==>
         weight[list[i]] > weight[list[j]] || (weight[list[i]] == weight[list[j]] && list[i] < list[j])
  }

  /** Nodes that come by symbol are sorted into that order. */
  lemma {:induction false} SortIsByCompare(list: seq<nat>, weight: seq<nat>)
    requires forall k :: 0 <= k < |list| ==> list[k] < |weight|
    requires forall i, j :: 0 <= i < j < |list| ==> list[i] < list[j]
    ensures InCompareOrder(SortIndices(list, weight), weight)
  {
    if list != [] {
      var n := |list| - 1;
      SortIsByCompare(list[..n], weight);
      forall x ensures x in SortIndices(list[..n], weight) ==> x < list[n] {
        SortIndicesKeeps(list[..n], weight, x);
      }
      InsertInOrder(SortIndices(list[..n], weight), list[n], weight);
    }
  }

  lemma {:induction false} InsertInOrder(list: seq<nat>, x: nat, weight: seq<nat>)
    requires InCompareOrder(list, weight) && x < |weight| && forall y :: y in list ==> y < x
    ensures InCompareOrder(InsertIndex(list, x, weight), weight)
  {
    var k := PlaceIndex(list, x, weight);
    InsertIndexAt(list, x, weight);
    PlaceIndexIs(list, x, weight);
    var r := list[..k] + [x] + list[k..];
    forall i, j | 0 <= i < j < |r|
      ensures weight[r[i]] > weight[r[j]] || (weight[r[i]] == weight[r[j]] && r[i] < r[j])
    {
      assert i < k ==> r[i] == list[i] && list[i] in list;
      assert i > k ==> r[i] == list[i - 1];
      assert j < k ==> r[j] == list[j];
      assert j > k ==> r[j] == list[j - 1];
      if i == k {
        assert j - 1 == k || weight[list[k]] >= weight[list[j - 1]];
      }
    }
  }

  lemma {:induction false} PlaceIndexIs(list: seq<nat>, x: nat, weight: seq<nat>)
    requires x < |weight| && forall k :: 0 <= k < |list| ==> list[k] < |weight|
    ensures var k := PlaceIndex(list, x, weight);
      && (forall i :: 0 <= i < k ==> weight[list[i]] >= weight[x]) && (k < |list| ==> weight[list[k]] < weight[x])
  {
    if list != [] && weight[x] <= weight[list[0]] {
      PlaceIndexIs(list[1..], x, weight);
      assert forall i :: 0 < i < |list| ==> list[i] == list[1..][i - 1];
    }
  }

  // ----- the binary search over weights

  lemma {:induction false} ScaledBound(count: nat, totaldata: nat, totalweight: nat)
    requires totaldata > 0 && count > 0 && totalweight <= totaldata
    ensures Scaled(count, totaldata, totalweight) <= count
  {
    var x := count * totalweight;
    assert x <= count * totaldata by {
      MulMono(totalweight, totaldata, count);
    }
    QuotientBound(x, count, totaldata);
    LowAtMost(x / totaldata, 32);
  }

  lemma {:induction false} QuotientBound(x: nat, n: nat, d: nat)
    requires d > 0 && x <= n * d
    ensures 0 <= x / d <= n
  {
    if x / d > n {
      MulStrict(n, x / d, d);
    }
  }

  lemma {:induction false} LowAtMost(x: nat, k: nat)
    ensures Low(x, k) <= x
  {
    if k > 0 {
      LowAtMost(x / 2, k - 1);
    }
  }

  lemma {:induction false} TotalWeightBound(histo: seq<nat>, totaldata: nat, totalweight: nat, n: nat)
    requires totaldata > 0 && totalweight <= totaldata && n <= |histo|
    ensures Total(LeafList(histo, totaldata, totalweight, n), Weight) <= Samples(histo, n)
    ensures forall s :: 0 <= s < n && histo[s] != 0 ==> Scaled(histo[s], totaldata, totalweight) <= Samples(histo, n)
  {
    hide Scaled, Total, Low;
    if n == 0 {
      assert Total([], Weight) == 0 by { EmptyTotal(Weight); }
    } else {
      TotalWeightBound(histo, totaldata, totalweight, n - 1);
      if histo[n - 1] != 0 {
        var w := Scaled(histo[n - 1], totaldata, totalweight);
        ScaledBound(histo[n - 1], totaldata, totalweight);
        TotalSnoc(LeafList(histo, totaldata, totalweight, n - 1), Leaf(n - 1, w), Weight);
      }
    }
  }

  /** The lengths of a tree that fits are accepted by the code assignment, whatever the number of symbols. */
  lemma {:induction false} FittingIsConsistent(histo: seq<nat>, totaldata: nat, totalweight: nat, maxbits: nat)
    requires HistogramHasData(histo, totaldata) && maxbits <= 24 && Fits(histo, totaldata, totalweight, maxbits)
    ensures Consistent(Lengths(histo, totaldata, totalweight), maxbits)
    ensures Kraft(Lengths(histo, totaldata, totalweight), maxbits) <= Pow2(maxbits)
  {
    var lens := Lengths(histo, totaldata, totalweight);
    if Used(histo) >= 2 {
      NoDataNotUsed(histo, totaldata);
      BuiltCodeIsComplete(histo, totaldata, totalweight, maxbits);
    } else {
      forall s | 0 <= s < |histo| ensures lens[s] <= 1 {
        LonelyLength(histo, totaldata, totalweight, s);
      }
      ShortIsConsistent(lens, maxbits);
      LonelySum(histo, totaldata, totalweight, |histo|, maxbits);
      assert lens[..|histo|] == lens;
      KraftIsSymbolSum(lens, maxbits);
    }
  }

  lemma {:induction false} NoDataNotUsed(histo: seq<nat>, totaldata: nat)
    requires HistogramHasData(histo, totaldata) && Used(histo) > 0
    ensures totaldata > 0
  {
    NoneUsed(histo, |histo|);
  }

  /** A single used symbol gets one bit. */
  lemma {:induction false} LonelyLength(histo: seq<nat>, totaldata: nat, totalweight: nat, s: nat)
    requires HistogramHasData(histo, totaldata) && Used(histo) <= 1 && s < |histo|
    ensures Length(histo, totaldata, totalweight, s) == if histo[s] == 0 then 0 else 1
  {
    if histo[s] != 0 {
      UsedPositive(histo, s, |histo|);
      UsedIsLength(histo, totaldata, totalweight, |histo|);
      var t := Build(histo, totaldata, totalweight);
      SortKeeps(LeafList(histo, totaldata, totalweight, |histo|), t);
      LeafListGrowing(histo, totaldata, totalweight, |histo|, t);
    }
  }

  lemma {:induction false} ShortIsConsistent(lens: seq<nat>, maxbits: nat)
    requires forall i :: 0 <= i < |lens| ==> lens[i] <= maxbits && lens[i] <= 1
    ensures Consistent(lens, maxbits)
  {
    forall len | 2 <= len <= 32 ensures EvenUpTo(lens, len) {
      NoneLonger(lens, len, 1);
      CountZero(lens, len);
    }
  }

  /** One more symbol of length at most one. */
  lemma {:induction false} SumSnoc(lens: seq<nat>, n: nat, next: nat, maxbits: nat)
    requires next == n + 1 && n < |lens| && lens[n] <= 1
    ensures lens[n] == 0 ==> SymbolSum(lens[..next], maxbits) == SymbolSum(lens[..n], maxbits)
    ensures SymbolSum(lens[..next], maxbits) <= SymbolSum(lens[..n], maxbits) + Pow2(maxbits)
  {
    assert lens[..next][..n] == lens[..n];
    Pow2Mono(if maxbits == 0 then 0 else maxbits - 1, maxbits);
  }

  lemma {:induction false} LonelySum(histo: seq<nat>, totaldata: nat, totalweight: nat, n: nat, maxbits: nat)
    requires HistogramHasData(histo, totaldata) && Used(histo) <= 1 && n <= |histo|
    ensures var lens := Lengths(histo, totaldata, totalweight)[..n];
      UsedBelow(histo, n) <= 1 ==> SymbolSum(lens, maxbits) <= if UsedBelow(histo, n) == 0 then 0 else Pow2(maxbits)
  {
    if n > 0 {
      hide Lengths, Pow2, SymbolSum;
      var lens := Lengths(histo, totaldata, totalweight);
      LonelySum(histo, totaldata, totalweight, n - 1, maxbits);
      LonelyLength(histo, totaldata, totalweight, n - 1);
      SumSnoc(lens, n - 1, n, maxbits);
    }
  }

  /** The sum of the histogram. */
  method CountSamples(datahisto: array<nat>) returns (sdatacount: nat)
    ensures sdatacount == Samples(datahisto[..], datahisto.Length)
  {
    sdatacount := 0;
    for i := 0 to datahisto.Length
      invariant sdatacount == Samples(datahisto[..], i)
    {
      sdatacount := sdatacount + datahisto[i];
    }
  }

  /** Twice the number of samples, in 32 bits: where the search starts from above. */
  function Top(total: nat): nat {
    2 * total % 0x1_0000_0000
  }

  /**
   The doubled number wraps from 2^31 samples on; up to 3 * 2^30 it then stays at most 2^31, and below the raw weight.
   */
  lemma {:induction false} TopBound(total: nat)
    requires total <= 0xC000_0000
    ensures Top(total) == if total < 0x8000_0000 then 2 * total else 2 * total - 0x1_0000_0000
    ensures total >= 0x8000_0000 ==> Top(total) <= 0x8000_0000 && Top(total) < total
  {
    if total < 0x8000_0000 {
      DivModUnique(2 * total, 0x1_0000_0000, 0, 2 * total);
    } else {
      DivModUnique(2 * total, 0x1_0000_0000, 1, 2 * total - 0x1_0000_0000);
    }
  }

  /** The state of the search: the lower weight fits; once the upper one has moved, it and the raw weight do not. */
  ghost predicate Searching(histo: seq<nat>, total: nat, lower: nat, upper: nat, maxbits: nat)
    requires HistogramHasData(histo, total)
  {
    && lower <= upper <= Top(total) && lower < 0x8000_0000 && Fits(histo, total, lower, maxbits)
    && (upper == Top(total) || !Fits(histo, total, upper, maxbits))
    && (total < 0x8000_0000 ==>
          if upper == Top(total) then lower == 0 else upper <= total && !Fits(histo, total, total, maxbits))
  }

  lemma {:induction false} MiddleBound(lower: nat, upper: nat, cur: nat)
    requires lower <= upper && cur == (upper + lower) / 2
    ensures lower <= cur <= upper && (lower < upper ==> cur < upper) && (upper - lower > 1 ==> lower < cur)
  {}

  /** One round that goes on, and the round that ends the search. */
  lemma {:induction false} SearchRound(histo: seq<nat>, total: nat, lower: nat, upper: nat, cur: nat, maxbits: nat)
    requires HistogramHasData(histo, total) && Searching(histo, total, lower, upper, maxbits)
    requires cur == (upper + lower) / 2 && total <= 0xC000_0000
    ensures !Fits(histo, total, cur, maxbits) ==> cur < upper && Searching(histo, total, lower, cur, maxbits)
    ensures Fits(histo, total, cur, maxbits) && cur != total ==>
      Searching(histo, total, cur, upper, maxbits) && (cur == lower ==> upper - cur <= 1)
    ensures Fits(histo, total, cur, maxbits) && (cur == total || upper - cur <= 1) ==>
      IsAnswer(histo, total, cur, maxbits)
    ensures cur <= total && cur < 0x8000_0000 && upper + lower < 0x1_0000_0000
  {
    TopBound(total);
    MiddleBound(lower, upper, cur);
    hide Fits, Top;
  }

  /**
   Below 2^31 samples: the raw weight if it fits, and otherwise one whose successor does not. From there on the raw
   weight is never tried; the answer is a weight up to where the search started, or next to one that does not fit.
   */
  ghost predicate IsAnswer(histo: seq<nat>, total: nat, totalweight: nat, maxbits: nat)
    requires HistogramHasData(histo, total)
  {
    && Fits(histo, total, totalweight, maxbits)
    && if total < 0x8000_0000 then
         if Fits(histo, total, total, maxbits) then totalweight == total
         else totalweight < total && !Fits(histo, total, totalweight + 1, maxbits)
       else
         totalweight <= Top(total) < total
         && (totalweight + 1 >= Top(total) || !Fits(histo, total, totalweight + 1, maxbits))
  }

  /**
   huffman_compute_tree_from_histo, for up to 3 * 2^30 samples (see WrappedSearchGoesOn for more). When there is room
   for the used symbols, the search ends, the lengths are those of some weight's tree and at most maxbits, and the
   code assignment succeeds. Without room no weight fits (SomeWeightFits), so no iteration could leave the loop.
   */
  method ComputeTreeFromHisto(decoder: HuffmanDecoder, datahisto: array<nat>, parent: array<int>, weight: array<nat>)
    returns (error: Error, ghost totaldata: nat, ghost totalweight: nat)
    requires decoder.Valid() && datahisto.Length == decoder.numcodes
    requires parent.Length == weight.Length >= NodesNeeded(datahisto[..])
    requires decoder.numbits != datahisto && decoder.numbits != weight && datahisto != weight
    requires decoder.bits != datahisto && decoder.bits != weight
    requires Samples(datahisto[..], datahisto.Length) <= 0xC000_0000
    requires HasRoom(datahisto[..], decoder.maxbits)
    modifies parent, weight, decoder.numbits, decoder.bits
    ensures datahisto[..] == old(datahisto[..])
    ensures totaldata == Samples(datahisto[..], datahisto.Length) && HistogramHasData(datahisto[..], totaldata)
    ensures decoder.Lens() == Lengths(datahisto[..], totaldata, totalweight)
    ensures IsAnswer(datahisto[..], totaldata, totalweight, decoder.maxbits)
    ensures error == Error.None && decoder.Assigned() && Kraft(decoder.Lens(), decoder.maxbits) <= Pow2(decoder.maxbits)
  {
    hide Fits, Lengths, IsAnswer, Searching, HasRoom, Samples;
    ghost var histo := datahisto[..];
    var sdatacount := CountSamples(datahisto);
    totaldata := sdatacount;
    SamplesOfUsed(histo);
    DataForUsed(histo, sdatacount);
    SearchStart(histo, sdatacount, decoder.maxbits);

    var lowerweight, upperweight := 0, sdatacount * 2 % 0x1_0000_0000;
    while true
      invariant datahisto[..] == histo && lowerweight <= upperweight
      invariant Searching(histo, sdatacount, lowerweight, upperweight, decoder.maxbits)
      decreases upperweight - lowerweight
    {
      var curweight := (upperweight + lowerweight) % 0x1_0000_0000 / 2;
      NoWrapOfSum(histo, sdatacount, lowerweight, upperweight, decoder.maxbits);
      SearchRound(histo, sdatacount, lowerweight, upperweight, curweight, decoder.maxbits);
      var curmaxbits := BuildFor(decoder, datahisto, parent, weight, sdatacount, curweight);
      if curmaxbits <= decoder.maxbits {
        lowerweight := curweight;
        if curweight == sdatacount || upperweight - lowerweight <= 1 {
          break;
        }
      } else {
        upperweight := curweight;
      }
    }
    totalweight := lowerweight;
    AnswerFits(histo, sdatacount, lowerweight, decoder.maxbits);
    FittingIsConsistent(histo, sdatacount, lowerweight, decoder.maxbits);
    error := decoder.AssignCanonicalCodes();
  }

  /** In the middle of the search nothing wraps. */
  lemma {:induction false} NoWrapOfSum(histo: seq<nat>, total: nat, lower: nat, upper: nat, maxbits: nat)
    requires HistogramHasData(histo, total) && Searching(histo, total, lower, upper, maxbits) && total <= 0xC000_0000
    ensures (upper + lower) % 0x1_0000_0000 == upper + lower
  {
    TopBound(total);
    assert upper + lower < 0x1_0000_0000;
    DivModUnique(upper + lower, 0x1_0000_0000, 0, upper + lower);
  }

  /**
   Beyond 3 * 2^30 samples the sum of the two weights wraps as well. As long as every weight that is tried fits, no
   round of the search ends it, whatever the lower weight: with a single used symbol it goes on for ever.
   */
  lemma {:induction false} WrappedSearchGoesOn(total: nat, lower: nat)
    requires 0xC000_0000 < total < 0x1_0000_0000
    ensures var cur := (Top(total) + lower) % 0x1_0000_0000 / 2;
      cur != total && cur < Top(total) && Top(total) - cur > 1
  {
    DivModUnique(2 * total, 0x1_0000_0000, 1, 2 * total - 0x1_0000_0000);
  }

  /** One call of huffman_build_tree in the search; its result tells whether the weight fits. */
  method BuildFor(decoder: HuffmanDecoder, datahisto: array<nat>, parent: array<int>, weight: array<nat>,
                  totaldata: nat, totalweight: nat)
    returns (maxbits: nat)
    requires decoder.Valid() && datahisto.Length == decoder.numcodes
    requires parent.Length == weight.Length >= NodesNeeded(datahisto[..])
    requires decoder.numbits != datahisto && decoder.numbits != weight && datahisto != weight
    requires totaldata == Samples(datahisto[..], datahisto.Length) && totaldata <= 0xC000_0000
    requires totalweight <= totaldata && totalweight < 0x8000_0000
    modifies parent, weight, decoder.numbits
    ensures decoder.Valid() && datahisto[..] == old(datahisto[..]) && HistogramHasData(datahisto[..], totaldata)
    ensures decoder.Lens() == Lengths(datahisto[..], totaldata, totalweight)
    ensures maxbits <= decoder.maxbits <==> Fits(datahisto[..], totaldata, totalweight, decoder.maxbits)
  {
    hide Lengths, Samples;
    SamplesOfUsed(datahisto[..]);
    if totaldata > 0 {
      TotalWeightBound(datahisto[..], totaldata, totalweight, datahisto.Length);
    }
    WeightsComparable(datahisto[..], totaldata, totalweight);
    maxbits := BuildTree(datahisto, parent, weight, decoder.numbits, totaldata, totalweight);
  }

  /** No scaled weight exceeds the total weight asked for, or one. */
  lemma {:induction false} WeightsComparable(histo: seq<nat>, totaldata: nat, totalweight: nat)
    requires totaldata == Samples(histo, |histo|) && totalweight < 0x8000_0000
    ensures Comparable(histo, totaldata, totalweight)
  {
    hide Scaled;
    forall s | 0 <= s < |histo| && histo[s] != 0 && totaldata > 0
      ensures 0 < Scaled(histo[s], totaldata, totalweight) < 0x8000_0000
    {
      CountAtMost(histo, |histo|, s);
      ScaledAtMost(histo[s], totaldata, totalweight);
    }
  }

  lemma {:induction false} CountAtMost(histo: seq<nat>, n: nat, s: nat)
    requires s < n <= |histo|
    ensures histo[s] <= Samples(histo, n)
  {
    if s < n - 1 {
      CountAtMost(histo, n - 1, s);
    }
  }

  lemma {:induction false} ScaledAtMost(count: nat, totaldata: nat, totalweight: nat)
    requires totaldata > 0 && count <= totaldata
    ensures 0 < Scaled(count, totaldata, totalweight) <= if totalweight == 0 then 1 else totalweight
  {
    var x := count * totalweight;
    assert x <= totalweight * totaldata by {
      MulMono(count, totaldata, totalweight);
    }
    QuotientBound(x, totalweight, totaldata);
    LowAtMost(x / totaldata, 32);
  }

  lemma {:induction false} SearchStart(histo: seq<nat>, total: nat, maxbits: nat)
    requires HistogramHasData(histo, total) && HasRoom(histo, maxbits)
    ensures Searching(histo, total, 0, Top(total), maxbits)
  {
    SomeWeightFits(histo, total, maxbits);
  }

  lemma {:induction false} AnswerFits(histo: seq<nat>, total: nat, totalweight: nat, maxbits: nat)
    requires HistogramHasData(histo, total) && IsAnswer(histo, total, totalweight, maxbits)
    ensures Fits(histo, total, totalweight, maxbits)
  {}

  lemma {:induction false} SamplesOfUsed(histo: seq<nat>)
    ensures Used(histo) > 0 ==> Samples(histo, |histo|) > 0
  {
    if Used(histo) > 0 {
      SamplesPositive(histo, |histo|);
    }
  }
}
