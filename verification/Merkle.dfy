/** The Merkle tree of a block, kept in one flat sequence (src/core.cpp). The hash of a pair is any
    function h. */
module Merkle {
  import opened Arithmetic

  // ----- specification -----

  /** The number of nodes at a level above n leaves. */
  function Width(n: nat, level: nat): nat {
    if level == 0 then n else (Width(n, level - 1) + 1) / 2
  }

  /** The number of levels above the leaves. */
  function Depth(n: nat): nat
    decreases n
  {
    if n <= 1 then 0 else 1 + Depth((n + 1) / 2)
  }

  /** Node i of a level: the hash of its two children, the last one taken twice where there is no other. */
  function Node<T>(h: (T, T) -> T, leaves: seq<T>, level: nat, i: nat): T
    requires i < Width(|leaves|, level)
    decreases level
  {
    if level == 0 then leaves[i]
    else
      var w := Width(|leaves|, level - 1);
      h(Node(h, leaves, level - 1, 2 * i), Node(h, leaves, level - 1, Min(2 * i + 1, w - 1)))
  }

  function Root<T>(h: (T, T) -> T, leaves: seq<T>): T
    requires |leaves| > 0
  {
    OneRoot(|leaves|);
    Node(h, leaves, Depth(|leaves|), 0)
  }

  /** The first `count` nodes of a level. */
  function Nodes<T>(h: (T, T) -> T, leaves: seq<T>, level: nat, count: nat): (s: seq<T>)
    requires count <= Width(|leaves|, level)
    ensures |s| == count
  {
    seq(count, i requires 0 <= i < count => Node(h, leaves, level, i))
  }

  /** Where a level begins in the flat sequence. */
  function Offset(n: nat, level: nat): nat {
    if level == 0 then 0 else Offset(n, level - 1) + Width(n, level - 1)
  }

  /** The levels below this one, one after the other. */
  function Flat<T>(h: (T, T) -> T, leaves: seq<T>, level: nat): (s: seq<T>)
    ensures |s| == Offset(|leaves|, level)
  {
    if level == 0 then []
    else Flat(h, leaves, level - 1) + Nodes(h, leaves, level - 1, Width(|leaves|, level - 1))
  }

  function Tree<T>(h: (T, T) -> T, leaves: seq<T>): seq<T> {
    Flat(h, leaves, Depth(|leaves|) + 1)
  }

  /** The node beside node i of a level; the node itself where there is none. */
  function Beside(i: nat, w: nat): nat
    requires w > 0
  {
    Min(if i % 2 == 0 then i + 1 else i - 1, w - 1)
  }

  /** The nodes beside the way from leaf i to the root, from a level on. */
  function BranchFrom<T>(h: (T, T) -> T, leaves: seq<T>, level: nat, i: nat): (b: seq<T>)
    requires |leaves| > 0
    ensures |b| == Depth(Width(|leaves|, level))
    decreases Width(|leaves|, level)
  {
    var w := Width(|leaves|, level);
    if w <= 1 then []
    else [Node(h, leaves, level, Beside(i, w))] + BranchFrom(h, leaves, level + 1, i / 2)
  }

  function Branch<T>(h: (T, T) -> T, leaves: seq<T>, i: nat): seq<T> {
    if |leaves| == 0 then [] else BranchFrom(h, leaves, 0, i)
  }

  /** Hashes x with the nodes of a branch, each on the side that the index tells. */
  function Fold<T>(h: (T, T) -> T, x: T, branch: seq<T>, i: int): T
    decreases |branch|
  {
    if |branch| == 0 then x
    else Fold(h, if i % 2 == 1 then h(branch[0], x) else h(x, branch[0]), branch[1..], i / 2)
  }

  // ----- widths -----

  lemma {:induction false} WidthSteps(n: nat, level: nat)
    ensures Width((n + 1) / 2, level) == Width(n, level + 1)
  {
    if level > 0 { WidthSteps(n, level - 1); }
  }

  lemma {:induction false} OneRoot(n: nat)
    requires n > 0
    ensures Width(n, Depth(n)) == 1
    decreases n
  {
    if n > 1 {
      OneRoot((n + 1) / 2);
      WidthSteps(n, Depth((n + 1) / 2));
    }
  }

  /** At every level the way up has as many steps left as the loop has rounds left. */
  lemma {:induction false} DepthOfWidth(n: nat, level: nat)
    requires level <= Depth(n)
    ensures Depth(Width(n, level)) == Depth(n) - level
    ensures level < Depth(n) <==> Width(n, level) > 1
    decreases level
  {
    if level > 0 { DepthOfWidth(n, level - 1); }
  }

  // ----- the code -----

  class Block<T(==)> {
    var vtx: seq<T>
    var tree: seq<T>

    /** The cached tree is missing or belongs to the transactions. */
    ghost predicate Fresh(h: (T, T) -> T)
      reads this
    {
      tree == [] || tree == Tree(h, vtx)
    }

    method BuildMerkleTree(h: (T, T) -> T, zero: T) returns (root: T)
      modifies this`tree
      ensures tree == Tree(h, vtx)
      ensures root == if vtx == [] then zero else Root(h, vtx)
    {
      tree := vtx;
      var j := 0;
      var size := |vtx|;
      ghost var level := 0;
      FirstLevel(h, vtx);
      DepthOfWidth(|vtx|, 0);
      while size > 1
        invariant level <= Depth(|vtx|) && size == Width(|vtx|, level) && j == Offset(|vtx|, level)
        invariant tree == Flat(h, vtx, level + 1)
        invariant size > 1 <==> level < Depth(|vtx|)
        decreases Depth(|vtx|) - level
      {
        BuildLevel(h, j, size, level);
        j := j + size;
        size := (size + 1) / 2;
        level := level + 1;
        DepthOfWidth(|vtx|, level);
      }
      if |tree| == 0 { EmptyTree(h, vtx); return zero; }
      LastIsRoot(h, vtx);
      root := tree[|tree| - 1];
    }

    /** The parent of nodes i and i + 1 of a level. */
    method Parent(h: (T, T) -> T, j: nat, size: nat, i: nat, ghost k: nat, ghost level: nat, ghost below: seq<T>)
      returns (x: T)
      requires size == Width(|vtx|, level) && i == 2 * k < size && j == Offset(|vtx|, level)
      requires below == Flat(h, vtx, level + 1) && below <= tree
      ensures k < Width(|vtx|, level + 1) && x == Node(h, vtx, level + 1, k)
    {
      var i2 := Min(i + 1, size - 1);
      InPrefix(h, vtx, level, i, tree);
      InPrefix(h, vtx, level, i2, tree);
      x := h(tree[j + i], tree[j + i2]);
    }

    /** The inner loop: appends the parents of one level. */
    method BuildLevel(h: (T, T) -> T, j: nat, size: nat, ghost level: nat)
      requires size == Width(|vtx|, level) > 1 && j == Offset(|vtx|, level) && tree == Flat(h, vtx, level + 1)
      modifies this`tree
      ensures tree == Flat(h, vtx, level + 2)
    {
      ghost var below := tree;
      var i := 0;
      assert Nodes(h, vtx, level + 1, 0) == [];
      while i < size
        invariant i <= size + 1 && i % 2 == 0
        invariant tree == below + Nodes(h, vtx, level + 1, i / 2)
      {
        ghost var k := i / 2;
        var parent := Parent(h, j, size, i, k, level, below);
        NextParent(h, vtx, level, k, below);
        tree := tree + [parent];
        i := i + 2;
      }
    }

    /** Reads the branch out of the cached tree, whatever transactions that belongs to. */
    method GetMerkleBranch(h: (T, T) -> T, zero: T, index: int) returns (branch: seq<T>)
      requires tree == [] || Holds(tree, 0, |vtx|)
      requires index >= 0 || |vtx| <= 1
      modifies this`tree
      ensures tree == if old(tree) == [] then Tree(h, vtx) else old(tree)
      ensures Holds(tree, 0, |vtx|) && branch == BranchIn(tree, 0, |vtx|, index)
      ensures Fresh(h) && index >= 0 ==> branch == Branch(h, vtx, index)
    {
      if |tree| == 0 { var root := BuildMerkleTree(h, zero); }
      TreeHolds(h, vtx);
      branch := ReadBranch(index);
      if Fresh(h) && index >= 0 && |vtx| > 0 { BranchInTree(h, vtx, 0, index); }
    }

    /** The loop of GetMerkleBranch. */
    method ReadBranch(index: int) returns (branch: seq<T>)
      requires Holds(tree, 0, |vtx|) && (|vtx| > 1 ==> index >= 0)
      ensures branch == BranchIn(tree, 0, |vtx|, index)
    {
      branch := [];
      var j := 0;
      var at := index;
      var size := |vtx|;
      while size > 1
        invariant j >= 0 && size >= 0 && (size > 1 ==> at >= 0)
        invariant Holds(tree, j, size) && branch + BranchIn(tree, j, size, at) == BranchIn(tree, 0, |vtx|, index)
        decreases size
      {
        var i := Min(if at % 2 == 0 then at + 1 else at - 1, size - 1);
        RegroupBranch(branch, tree[j + i], BranchIn(tree, j + size, (size + 1) / 2, at / 2));
        branch := branch + [tree[j + i]];
        at := at / 2;
        j := j + size;
        size := (size + 1) / 2;
      }
    }
  }

  // ----- branches in a flat sequence -----

  lemma RegroupBranch<T>(a: seq<T>, x: T, b: seq<T>)
    ensures a + ([x] + b) == a + [x] + b
  {
  }

  /** The sequence holds all levels from one of `size` nodes at place j up to the root. */
  predicate Holds<T>(tree: seq<T>, j: nat, size: nat)
    decreases size
  {
    size > 1 ==> j + size <= |tree| && Holds(tree, j + size, (size + 1) / 2)
  }

  /** What stands beside the way up from node `at` of a level of `size` nodes at place j. */
  function BranchIn<T>(tree: seq<T>, j: nat, size: nat, at: int): seq<T>
    requires Holds(tree, j, size) && (size > 1 ==> at >= 0)
    decreases size
  {
    if size <= 1 then []
    else [tree[j + Beside(at, size)]] + BranchIn(tree, j + size, (size + 1) / 2, at / 2)
  }

  lemma TreeHolds<T>(h: (T, T) -> T, leaves: seq<T>)
    ensures Holds(Tree(h, leaves), 0, |leaves|)
  {
    if |leaves| > 0 { LevelsHold(h, leaves, 0); }
  }

  lemma {:induction false} LevelsHold<T>(h: (T, T) -> T, leaves: seq<T>, level: nat)
    requires |leaves| > 0 && level <= Depth(|leaves|)
    ensures Holds(Tree(h, leaves), Offset(|leaves|, level), Width(|leaves|, level))
    decreases Depth(|leaves|) - level
  {
    DepthOfWidth(|leaves|, level);
    if level < Depth(|leaves|) {
      InTree(h, leaves, level, Width(|leaves|, level) - 1);
      LevelsHold(h, leaves, level + 1);
    }
  }

  /** Every node stands at its place. */
  ghost predicate HasNodes<T>(h: (T, T) -> T, leaves: seq<T>, tree: seq<T>) {
    forall level: nat, i: nat :: level <= Depth(|leaves|) && i < Width(|leaves|, level) ==>
      HasNode(h, leaves, tree, level, i)
  }

  ghost predicate HasNode<T>(h: (T, T) -> T, leaves: seq<T>, tree: seq<T>, level: nat, i: nat)
    requires i < Width(|leaves|, level)
  {
    Offset(|leaves|, level) + i < |tree| && tree[Offset(|leaves|, level) + i] == Node(h, leaves, level, i)
  }

  lemma {:induction false} BranchFound<T>(h: (T, T) -> T, leaves: seq<T>, tree: seq<T>, level: nat, at: nat,
                                          j: nat, w: nat)
    requires |leaves| > 0 && level <= Depth(|leaves|) && HasNodes(h, leaves, tree)
    requires j == Offset(|leaves|, level) && w == Width(|leaves|, level) && Holds(tree, j, w)
    ensures BranchIn(tree, j, w, at) == BranchFrom(h, leaves, level, at)
    decreases Depth(|leaves|) - level
  {
    DepthOfWidth(|leaves|, level);
    if level == Depth(|leaves|) {
      NoBranch(h, leaves, tree, level, at, j, w);
    } else {
      assert HasNode(h, leaves, tree, level, Beside(at, w));
      NextLevel(|leaves|, level);
      NextHolds(tree, j, w);
      BranchFound(h, leaves, tree, level + 1, at / 2, j + w, (w + 1) / 2);
      BranchInStep(h, leaves, tree, level, at, j, w);
    }
  }

  lemma NoBranch<T>(h: (T, T) -> T, leaves: seq<T>, tree: seq<T>, level: nat, at: nat, j: nat, w: nat)
    requires |leaves| > 0 && w == Width(|leaves|, level) <= 1 && Holds(tree, j, w)
    ensures BranchIn(tree, j, w, at) == BranchFrom(h, leaves, level, at) == []
  {
  }

  lemma NextHolds<T>(tree: seq<T>, j: nat, w: nat)
    requires w > 1 && Holds(tree, j, w)
    ensures Holds(tree, j + w, (w + 1) / 2)
  {
  }

  /** In the flat tree the branch is the one of the tree. */
  lemma BranchInTree<T>(h: (T, T) -> T, leaves: seq<T>, level: nat, at: nat)
    requires |leaves| > 0 && level <= Depth(|leaves|)
    ensures Holds(Tree(h, leaves), Offset(|leaves|, level), Width(|leaves|, level))
    ensures BranchIn(Tree(h, leaves), Offset(|leaves|, level), Width(|leaves|, level), at) ==
      BranchFrom(h, leaves, level, at)
  {
    var tree := Tree(h, leaves);
    LevelsHold(h, leaves, level);
    forall l: nat, i: nat | l <= Depth(|leaves|) && i < Width(|leaves|, l) ensures HasNode(h, leaves, tree, l, i) {
      InTree(h, leaves, l, i);
    }
    BranchFound(h, leaves, tree, level, at, Offset(|leaves|, level), Width(|leaves|, level));
  }

  lemma BranchInStep<T>(h: (T, T) -> T, leaves: seq<T>, tree: seq<T>, level: nat, at: nat, j: nat, w: nat)
    requires |leaves| > 0 && 1 < w == Width(|leaves|, level) && Holds(tree, j, w)
    requires j + Beside(at, w) < |tree| && tree[j + Beside(at, w)] == Node(h, leaves, level, Beside(at, w))
    requires Holds(tree, j + w, (w + 1) / 2)
    requires BranchIn(tree, j + w, (w + 1) / 2, at / 2) == BranchFrom(h, leaves, level + 1, at / 2)
    ensures BranchIn(tree, j, w, at) == BranchFrom(h, leaves, level, at)
  {
    BranchInSteps(tree, j, w, at);
    BranchSteps(h, leaves, level, at);
  }

  lemma BranchSteps<T>(h: (T, T) -> T, leaves: seq<T>, level: nat, at: nat)
    requires |leaves| > 0 && Width(|leaves|, level) > 1
    ensures BranchFrom(h, leaves, level, at) ==
      [Node(h, leaves, level, Beside(at, Width(|leaves|, level)))] + BranchFrom(h, leaves, level + 1, at / 2)
  {
  }

  lemma NextLevel(n: nat, level: nat)
    ensures Offset(n, level + 1) == Offset(n, level) + Width(n, level)
    ensures Width(n, level + 1) == (Width(n, level) + 1) / 2
  {
  }

  lemma BranchInSteps<T>(tree: seq<T>, offset: nat, w: nat, at: nat)
    requires w > 1 && Holds(tree, offset, w)
    ensures Holds(tree, offset + w, (w + 1) / 2) && offset + Beside(at, w) < |tree|
    ensures BranchIn(tree, offset, w, at) ==
      [tree[offset + Beside(at, w)]] + BranchIn(tree, offset + w, (w + 1) / 2, at / 2)
  {
  }

  method CheckMerkleBranch<T>(h: (T, T) -> T, zero: T, hash: T, branch: seq<T>, index: int) returns (r: T)
    ensures r == if index == -1 then zero else Fold(h, hash, branch, index)
  {
    if index == -1 { return zero; }
    r := hash;
    var at := index;
    var k := 0;
    while k < |branch|
      invariant k <= |branch| && Fold(h, r, branch[k..], at) == Fold(h, hash, branch, index)
    {
      var otherSide := branch[k];
      assert branch[k..][1..] == branch[k + 1..];
      if at % 2 == 1 { r := h(otherSide, r); } else { r := h(r, otherSide); }
      at := at / 2;
      k := k + 1;
    }
  }

  // ----- places in the flat sequence -----

  lemma NextParent<T>(h: (T, T) -> T, leaves: seq<T>, level: nat, k: nat, below: seq<T>)
    requires 2 * k < Width(|leaves|, level)
    ensures k < Width(|leaves|, level + 1)
    ensures Node(h, leaves, level + 1, k) ==
      h(Node(h, leaves, level, 2 * k), Node(h, leaves, level, Min(2 * k + 1, Width(|leaves|, level) - 1)))
    ensures below + Nodes(h, leaves, level + 1, k) + [Node(h, leaves, level + 1, k)] ==
      below + Nodes(h, leaves, level + 1, k + 1)
  {
    assert Nodes(h, leaves, level + 1, k + 1) == Nodes(h, leaves, level + 1, k) + [Node(h, leaves, level + 1, k)];
  }

  lemma FirstLevel<T>(h: (T, T) -> T, leaves: seq<T>)
    ensures Flat(h, leaves, 1) == leaves
  {
    assert Flat(h, leaves, 1) == Flat(h, leaves, 0) + Nodes(h, leaves, 0, |leaves|);
  }

  lemma InLevel<T>(h: (T, T) -> T, leaves: seq<T>, level: nat, i: nat)
    requires i < Width(|leaves|, level)
    ensures Offset(|leaves|, level) + i < |Flat(h, leaves, level + 1)|
    ensures Flat(h, leaves, level + 1)[Offset(|leaves|, level) + i] == Node(h, leaves, level, i)
  {
  }

  lemma InPrefix<T>(h: (T, T) -> T, leaves: seq<T>, level: nat, i: nat, tree: seq<T>)
    requires i < Width(|leaves|, level) && Flat(h, leaves, level + 1) <= tree
    ensures Offset(|leaves|, level) + i < |tree|
    ensures tree[Offset(|leaves|, level) + i] == Node(h, leaves, level, i)
  {
    InLevel(h, leaves, level, i);
    PrefixAt(Flat(h, leaves, level + 1), tree, Offset(|leaves|, level) + i);
  }

  lemma {:induction false} FlatIsPrefix<T>(h: (T, T) -> T, leaves: seq<T>, a: nat, b: nat)
    requires a <= b
    ensures Flat(h, leaves, a) <= Flat(h, leaves, b)
    decreases b
  {
    if a < b { FlatIsPrefix(h, leaves, a, b - 1); }
  }

  lemma InFlat<T>(h: (T, T) -> T, leaves: seq<T>, level: nat, i: nat, top: nat)
    requires level < top && i < Width(|leaves|, level)
    ensures Offset(|leaves|, level) + i < |Flat(h, leaves, top)|
    ensures Flat(h, leaves, top)[Offset(|leaves|, level) + i] == Node(h, leaves, level, i)
  {
    FlatIsPrefix(h, leaves, level + 1, top);
    InPrefix(h, leaves, level, i, Flat(h, leaves, top));
  }

  lemma InTree<T>(h: (T, T) -> T, leaves: seq<T>, level: nat, i: nat)
    requires level <= Depth(|leaves|) && i < Width(|leaves|, level)
    ensures Offset(|leaves|, level) + i < |Tree(h, leaves)|
    ensures Tree(h, leaves)[Offset(|leaves|, level) + i] == Node(h, leaves, level, i)
  {
    InFlat(h, leaves, level, i, Depth(|leaves|) + 1);
  }

  lemma PrefixAt<T>(a: seq<T>, b: seq<T>, k: nat)
    requires a <= b && k < |a|
    ensures k < |b| && b[k] == a[k]
  {
  }

  lemma EmptyTree<T>(h: (T, T) -> T, leaves: seq<T>)
    requires Tree(h, leaves) == []
    ensures leaves == []
  {
    FirstLevel(h, leaves);
    FlatIsPrefix(h, leaves, 1, Depth(|leaves|) + 1);
  }

  lemma LastIsRoot<T>(h: (T, T) -> T, leaves: seq<T>)
    requires |Tree(h, leaves)| > 0
    ensures |leaves| > 0 && Tree(h, leaves)[|Tree(h, leaves)| - 1] == Root(h, leaves)
  {
    if |leaves| == 0 {
      FirstLevel(h, leaves);
    } else {
      OneRoot(|leaves|);
      InTree(h, leaves, Depth(|leaves|), 0);
    }
  }

  // ----- branches prove membership -----

  /** The children of node k of the next level. */
  function Children<T>(h: (T, T) -> T, leaves: seq<T>, level: nat, k: nat): (T, T)
    requires k < Width(|leaves|, level + 1)
  {
    var w := Width(|leaves|, level);
    (Node(h, leaves, level, 2 * k), Node(h, leaves, level, Min(2 * k + 1, w - 1)))
  }

  /** The node of a level of w nodes that an index leads to: where the way down finds no right child, it takes
      the left one again. */
  function Place(w: nat, i: int): (j: nat)
    requires w > 0
    ensures j < w
    decreases w
  {
    if w == 1 then 0 else Min(2 * Place((w + 1) / 2, i / 2) + i % 2, w - 1)
  }

  /** The index of a node leads to that node. */
  lemma {:induction false} PlaceOfNode(w: nat, i: nat)
    requires i < w
    ensures Place(w, i) == i
    decreases w
  {
    if w > 1 { PlaceOfNode((w + 1) / 2, i / 2); }
  }

  /** The pair on the way up from there is the one that the tree hashes. */
  lemma PairOfChildren<T>(h: (T, T) -> T, leaves: seq<T>, level: nat, i: int)
    requires Width(|leaves|, level) > 1
    ensures var w := Width(|leaves|, level);
      var j, k := Place(w, i), Place(Width(|leaves|, level + 1), i / 2);
      var x, y := Node(h, leaves, level, j), Node(h, leaves, level, Beside(j, w));
      j / 2 == k && (if i % 2 == 1 then (y, x) else (x, y)) == Children(h, leaves, level, k)
  {
  }

  lemma {:induction false} PlacesLeadUp<T>(h: (T, T) -> T, leaves: seq<T>, level: nat, i: int)
    requires |leaves| > 0 && level <= Depth(|leaves|) && Width(|leaves|, level) > 0
    ensures var j := Place(Width(|leaves|, level), i);
      Fold(h, Node(h, leaves, level, j), BranchFrom(h, leaves, level, j), i) == Root(h, leaves)
    decreases Depth(|leaves|) - level
  {
    DepthOfWidth(|leaves|, level);
    OneRoot(|leaves|);
    if level < Depth(|leaves|) {
      var j := Place(Width(|leaves|, level), i);
      PairOfChildren(h, leaves, level, i);
      PlacesLeadUp(h, leaves, level + 1, i / 2);
      assert BranchFrom(h, leaves, level, j)[1..] == BranchFrom(h, leaves, level + 1, j / 2);
    }
  }

  lemma BranchLeadsUp<T>(h: (T, T) -> T, leaves: seq<T>, level: nat, i: nat)
    requires |leaves| > 0 && level <= Depth(|leaves|) && i < Width(|leaves|, level)
    ensures Fold(h, Node(h, leaves, level, i), BranchFrom(h, leaves, level, i), i) == Root(h, leaves)
  {
    PlaceOfNode(Width(|leaves|, level), i);
    PlacesLeadUp(h, leaves, level, i);
  }

  /** Every leaf checks against the root with its own branch, at its own index and at all that lead to it. */
  lemma LeafChecks<T>(h: (T, T) -> T, leaves: seq<T>, i: int)
    requires |leaves| > 0
    ensures var j := Place(|leaves|, i); Fold(h, leaves[j], Branch(h, leaves, j), i) == Root(h, leaves)
    ensures 0 <= i < |leaves| ==> Place(|leaves|, i) == i
  {
    PlacesLeadUp(h, leaves, 0, i);
    if 0 <= i < |leaves| { PlaceOfNode(|leaves|, i); }
  }

  // ----- only leaves check -----

  /** The pair that is hashed at a level of the way up from x. */
  function PairAt<T>(h: (T, T) -> T, x: T, branch: seq<T>, i: int, level: nat): (T, T)
    requires level < |branch|
    decreases level
  {
    var p := if i % 2 == 1 then (branch[0], x) else (x, branch[0]);
    if level == 0 then p else PairAt(h, h(p.0, p.1), branch[1..], i / 2, level - 1)
  }

  /** The node `levels` above node i. */
  function Above(i: nat, levels: nat): nat {
    if levels == 0 then i else Above(i / 2, levels - 1)
  }

  /** Two ways up that meet, but do not begin alike, hash different pairs to the same value somewhere. */
  lemma {:induction false} MeetingWays<T>(h: (T, T) -> T, x: T, y: T, b: seq<T>, c: seq<T>, i: int) returns (level: nat)
    requires |b| == |c| && Fold(h, x, b, i) == Fold(h, y, c, i) && (x != y || b != c)
    ensures level < |b|
    ensures var p, q := PairAt(h, x, b, i, level), PairAt(h, y, c, i, level);
      p != q && h(p.0, p.1) == h(q.0, q.1)
    decreases |b|
  {
    var p := if i % 2 == 1 then (b[0], x) else (x, b[0]);
    var q := if i % 2 == 1 then (c[0], y) else (y, c[0]);
    if p != q && h(p.0, p.1) == h(q.0, q.1) {
      level := 0;
    } else {
      if p == q { assert b == [b[0]] + b[1..] && c == [c[0]] + c[1..]; }
      var above := MeetingWays(h, h(p.0, p.1), h(q.0, q.1), b[1..], c[1..], i / 2);
      level := above + 1;
    }
  }

  /** The way up with the branch of node j hashes, at this level above it, the children in the tree. */
  ghost predicate OwnPair<T>(h: (T, T) -> T, leaves: seq<T>, from: nat, j: nat, i: int, level: nat)
    requires |leaves| > 0 && j < Width(|leaves|, from)
  {
    && Above(j, level + 1) < Width(|leaves|, from + level + 1)
    && level < |BranchFrom(h, leaves, from, j)|
    && PairAt(h, Node(h, leaves, from, j), BranchFrom(h, leaves, from, j), i, level) ==
       Children(h, leaves, from + level, Above(j, level + 1))
  }

  lemma {:induction false} OwnPairs<T>(h: (T, T) -> T, leaves: seq<T>, from: nat, j: nat, i: int, level: nat)
    requires |leaves| > 0 && from + level < Depth(|leaves|) && Width(|leaves|, from) > 0
    requires j == Place(Width(|leaves|, from), i)
    ensures OwnPair(h, leaves, from, j, i, level)
    decreases level
  {
    FirstOwnPair(h, leaves, from, j, i);
    if level > 0 {
      OwnPairs(h, leaves, from + 1, j / 2, i / 2, level - 1);
      OwnPairAbove(h, leaves, from, j, i, level);
    }
  }

  lemma OwnPairAbove<T>(h: (T, T) -> T, leaves: seq<T>, from: nat, j: nat, i: int, level: nat)
    requires |leaves| > 0 && level > 0 && j < Width(|leaves|, from) && NextPair(h, leaves, from, j, i)
    requires OwnPair(h, leaves, from + 1, j / 2, i / 2, level - 1)
    ensures OwnPair(h, leaves, from, j, i, level)
  {
    PairAbove(h, Node(h, leaves, from, j), BranchFrom(h, leaves, from, j), i, level,
              Node(h, leaves, from + 1, j / 2), BranchFrom(h, leaves, from + 1, j / 2), j);
  }

  /** Hashing the first pair leads to the parent and the rest of the branch. */
  ghost predicate NextPair<T>(h: (T, T) -> T, leaves: seq<T>, from: nat, j: nat, i: int)
    requires |leaves| > 0 && j < Width(|leaves|, from)
  {
    var b := BranchFrom(h, leaves, from, j);
    && |b| > 0 && j / 2 < Width(|leaves|, from + 1) && b[1..] == BranchFrom(h, leaves, from + 1, j / 2)
    && var p := PairAt(h, Node(h, leaves, from, j), b, i, 0); h(p.0, p.1) == Node(h, leaves, from + 1, j / 2)
  }

  lemma PairAbove<T>(h: (T, T) -> T, x: T, b: seq<T>, i: int, level: nat, y: T, c: seq<T>, j: nat)
    requires 0 < level < |b| && b[1..] == c && y == h(PairAt(h, x, b, i, 0).0, PairAt(h, x, b, i, 0).1)
    ensures PairAt(h, x, b, i, level) == PairAt(h, y, c, i / 2, level - 1)
    ensures Above(j, level + 1) == Above(j / 2, level)
  {
  }

  lemma FirstOwnPair<T>(h: (T, T) -> T, leaves: seq<T>, from: nat, j: nat, i: int)
    requires |leaves| > 0 && from < Depth(|leaves|) && Width(|leaves|, from) > 0
    requires j == Place(Width(|leaves|, from), i)
    ensures j / 2 == Place(Width(|leaves|, from + 1), i / 2)
    ensures NextPair(h, leaves, from, j, i) && OwnPair(h, leaves, from, j, i, 0)
  {
    DepthOfWidth(|leaves|, from);
    assert BranchFrom(h, leaves, from, j) ==
      [Node(h, leaves, from, Beside(j, Width(|leaves|, from)))] + BranchFrom(h, leaves, from + 1, j / 2);
    PairOfChildren(h, leaves, from, i);
    assert Above(j, 1) == j / 2;
  }

  /** What checks at an index, whether or not there is such a leaf, is the leaf that it leads to with its branch, or
      shows where the hash takes two pairs to one value. */
  lemma OnlyLeafChecks<T>(h: (T, T) -> T, leaves: seq<T>, i: int, x: T, branch: seq<T>) returns (level: nat)
    requires |leaves| > 0 && |branch| == Depth(|leaves|) && Fold(h, x, branch, i) == Root(h, leaves)
    ensures var j := Place(|leaves|, i);
      || (x == leaves[j] && branch == Branch(h, leaves, j))
      || (&& level < |branch| && Above(j, level + 1) < Width(|leaves|, level + 1)
          && var p, q := PairAt(h, x, branch, i, level), Children(h, leaves, level, Above(j, level + 1));
             p != q && h(p.0, p.1) == h(q.0, q.1))
  {
    level := 0;
    var j := Place(|leaves|, i);
    LeafChecks(h, leaves, i);
    if x != leaves[j] || branch != Branch(h, leaves, j) {
      level := MeetingWays(h, x, leaves[j], branch, Branch(h, leaves, j), i);
      OwnPairs(h, leaves, 0, j, i, level);
    }
  }
}
