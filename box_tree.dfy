/**
 * The integer layout of BoxTree (geode/geometry/BoxTree.cpp): a complete binary tree stored in
 * heap order over 2L - 1 nodes, each node owning a range of the primitive permutation p.
 */
module BoxTree {

  datatype Range = Range(lo: int, hi: int)

  datatype Option<T> = None | Some(value: T)

  function Min(a: int, b: int): int
  {
    if a <= b then a else b
  }

  // ---------------------------------------------------------------------------------------
  // Shape of the heap-ordered tree with n nodes: node k has children 2k+1 and 2k+2.

  /** A node is a leaf when its first child would fall outside the array (ranges.valid fails). */
  predicate IsLeaf(k: int, n: int)
  {
    2 * k + 1 >= n
  }

  /** Number of nodes in the subtree rooted at k. */
  function Size(k: nat, n: int): nat
    decreases n - k
  {
    if k >= n then 0 else 1 + Size(2 * k + 1, n) + Size(2 * k + 2, n)
  }

  /** Number of leaves in the subtree rooted at k. */
  function Leaves(k: nat, n: int): nat
    decreases n - k
  {
    if k >= n then 0
    else if IsLeaf(k, n) then 1
    else Leaves(2 * k + 1, n) + Leaves(2 * k + 2, n)
  }

  /** Total size of the subtrees rooted at the w consecutive nodes a, a+1, ... */
  function RowSum(a: nat, w: nat, n: int): nat
    decreases w
  {
    if w == 0 then 0 else Size(a, n) + RowSum(a + 1, w - 1, n)
  }

  /** Nodes of [a, a+w) that exist. */
  function Existing(a: nat, w: nat, n: int): nat
  {
    if n <= a then 0 else if a + w <= n then w else n - a
  }

  /** The subtrees of a row are the row itself plus the subtrees of its children, which form the row below. */
  lemma {:induction false} RowSplit(a: nat, w: nat, n: int)
    ensures RowSum(a, w, n) == Existing(a, w, n) + RowSum(2 * a + 1, 2 * w, n)
    decreases w
  {
    if w > 0 {
      RowSplit(a + 1, w - 1, n);
      assert RowSum(2 * a + 1, 2 * w, n) == Size(2 * a + 1, n) + Size(2 * a + 2, n) + RowSum(2 * a + 3, 2 * w - 2, n);
    }
  }

  lemma {:induction false} RowSumBeyond(a: nat, w: nat, n: int)
    requires n <= a
    ensures RowSum(a, w, n) == 0
    decreases w
  {
    if w > 0 {
      RowSumBeyond(a + 1, w - 1, n);
    }
  }

  /** The levels from row [a, 2a+1) downwards hold every node from a on. */
  lemma {:induction false} RowsBelow(a: nat, n: int)
    ensures RowSum(a, a + 1, n) == if a < n then n - a else 0
    decreases n - a
  {
    if a >= n {
      RowSumBeyond(a, a + 1, n);
    } else {
      RowSplit(a, a + 1, n);
      RowsBelow(2 * a + 1, n);
    }
  }

  /** The tree rooted at node 0 holds all n nodes. */
  lemma SizeOfRoot(n: nat)
    ensures Size(0, n) == n
  {
    RowsBelow(0, n);
  }

  /** With an odd node count every internal node has two children, so leaves outnumber internal nodes by one. */
  lemma {:induction false} FullTree(k: nat, n: int)
    requires n % 2 == 1 && k < n
    ensures 2 * Leaves(k, n) == Size(k, n) + 1
    decreases n - k
  {
    if !IsLeaf(k, n) {
      FullTree(2 * k + 1, n);
      FullTree(2 * k + 2, n);
    }
  }

  /** A tree of 2L - 1 nodes has L leaves. */
  lemma LeavesOfRoot(leaves: int)
    requires leaves >= 1
    ensures Leaves(0, 2 * leaves - 1) == leaves
  {
    var n := 2 * leaves - 1;
    assert n % 2 == 1;
    SizeOfRoot(n);
    FullTree(0, n);
  }

  /** k lies in the subtree rooted at node. */
  predicate Descendant(k: int, node: int)
    decreases k
  {
    0 <= node <= k && (k == node || Descendant((k - 1) / 2, node))
  }

  lemma {:induction false} ChildrenAreDescendants(k: int, node: int)
    requires Descendant(k, node)
    ensures Descendant(2 * k + 1, node) && Descendant(2 * k + 2, node)
  {
    assert (2 * k + 1 - 1) / 2 == k && (2 * k + 2 - 1) / 2 == k;
  }

  /** The two subtrees of a node are disjoint and lie inside the node's subtree. */
  lemma {:induction false} ChildSubtrees(k: int, node: int)
    requires node >= 0
    ensures Descendant(k, 2 * node + 1) ==> Descendant(k, node) && !Descendant(k, 2 * node + 2)
    ensures Descendant(k, 2 * node + 2) ==> Descendant(k, node) && !Descendant(k, 2 * node + 1)
    ensures Descendant(k, node) && k != node ==> Descendant(k, 2 * node + 1) || Descendant(k, 2 * node + 2)
    decreases k
  {
    if k > 0 {
      ChildSubtrees((k - 1) / 2, node);
      if k == 2 * node + 1 || k == 2 * node + 2 {
        assert (k - 1) / 2 == node;
        assert !Descendant(node, 2 * node + 1) && !Descendant(node, 2 * node + 2);
      }
    }
  }

  // ---------------------------------------------------------------------------------------
  // ranges

  /**
   * The layout ranges_helper produces at node k: every range lies in [0, prims); an internal
   * node's range is its first child's lo up to its second child's hi, the children meeting
   * in the middle; a leaf holds leaf_size primitives unless it ends at prims.
   */
  ghost predicate NodeOk(rs: seq<Range>, k: int, leafSize: int, prims: int)
    requires 0 <= k < |rs|
  {
    && 0 <= rs[k].lo <= rs[k].hi <= prims
    && (IsLeaf(k, |rs|) ==> rs[k].hi == Min(rs[k].lo + leafSize, prims))
    && (!IsLeaf(k, |rs|) ==>
          && 2 * k + 2 < |rs|
          && rs[k].lo == rs[2 * k + 1].lo
          && rs[2 * k + 1].hi == rs[2 * k + 2].lo
          && rs[2 * k + 2].hi == rs[k].hi)
  }

  /** The node count ranges allocates: 2L - 1 for L = ceil(prims / leaf_size) leaves, or none. */
  function NodeCount(prims: nat, leafSize: int): nat
    requires leafSize > 0
  {
    var leaves := (prims + leafSize - 1) / leafSize;
    if leaves > 0 then 2 * leaves - 1 else 0
  }

  /** Every entry outside the subtree at node is the same in before and after. */
  ghost predicate Kept(before: seq<Range>, after: seq<Range>, node: int)
  {
    |before| == |after| && forall k :: 0 <= k < |after| && !Descendant(k, node) ==> after[k] == before[k]
  }

  /** Every node of the subtree at node is laid out as NodeOk says. */
  ghost predicate SubtreeOk(rs: seq<Range>, node: int, leafSize: int, prims: int)
  {
    forall k :: 0 <= k < |rs| && Descendant(k, node) ==> NodeOk(rs, k, leafSize, prims)
  }

  /**
   * ranges_helper(ranges, count, leaf_size, prims, node): lays out the subtree at node in DFS
   * order starting at count, and returns the count after it.
   */
  method RangesHelper(ranges: array<Range>, count: int, leafSize: int, prims: int, node: int) returns (c: int)
    requires ranges.Length % 2 == 1 && 0 <= node < ranges.Length
    requires leafSize > 0 && 0 <= count <= prims
    modifies ranges
    ensures c == Min(count + Leaves(node, ranges.Length) * leafSize, prims)
    ensures ranges[node] == Range(count, c)
    ensures Kept(old(ranges[..]), ranges[..], node)
    ensures SubtreeOk(ranges[..], node, leafSize, prims)
    decreases ranges.Length - node
  {
    var n := ranges.Length;
    ghost var start := ranges[..];
    ranges[node] := ranges[node].(lo := count);
    if 2 * node + 1 >= n {
      c := Min(count + leafSize, prims);
      ranges[node] := ranges[node].(hi := c);
      LeafSubtree(node, n);
    } else {
      ghost var before := ranges[..];
      var c1 := RangesHelper(ranges, count, leafSize, prims, 2 * node + 1);
      ghost var mid := ranges[..];
      c := RangesHelper(ranges, c1, leafSize, prims, 2 * node + 2);
      ghost var post := ranges[..];
      ranges[node] := ranges[node].(hi := c);
      SubtreeLayout(before, mid, post, ranges[..], node, count, c1, c, leafSize, prims);
      KeptOwnWrite(start, before, ranges[..], node);
      CountGlue(count, c1, c, node, n, leafSize, prims);
    }
  }

  /** A write to the node itself changes nothing outside its subtree. */
  lemma KeptOwnWrite(start: seq<Range>, before: seq<Range>, after: seq<Range>, node: int)
    requires 0 <= node < |start| && |before| == |start|
    requires forall k :: 0 <= k < |start| && k != node ==> before[k] == start[k]
    requires Kept(before, after, node)
    ensures Kept(start, after, node)
  {
  }

  /** A leaf's subtree, among the n nodes, is the leaf alone. */
  lemma LeafSubtree(node: int, n: int)
    requires 0 <= node && 2 * node + 1 >= n
    ensures forall k | 0 <= k < n && Descendant(k, node) :: k == node
  {
    forall k | 0 <= k < n && Descendant(k, node)
      ensures k == node
    {
      if k != node {
        ChildSubtrees(k, node);
        ChildrenAreDescendants(2 * node + 1, 2 * node + 1);
      }
    }
  }

  /** NodeOk at k reads only the entries of k and of its children. */
  lemma NodeOkLocal(rs: seq<Range>, rs': seq<Range>, k: int, leafSize: int, prims: int)
    requires |rs| == |rs'| && 0 <= k < |rs| && rs[k] == rs'[k]
    requires 2 * k + 1 < |rs| ==> rs[2 * k + 1] == rs'[2 * k + 1]
    requires 2 * k + 2 < |rs| ==> rs[2 * k + 2] == rs'[2 * k + 2]
    requires NodeOk(rs, k, leafSize, prims)
    ensures NodeOk(rs', k, leafSize, prims)
  {
  }

  /**
   * Gluing the two child layouts and the node's own range into the layout of the node's
   * subtree: `before` is the array once ranges[node].lo is written, `mid` after the first
   * child, `post` after the second child, and `after` once ranges[node].hi is written.
   */
  lemma SubtreeLayout(before: seq<Range>, mid: seq<Range>, post: seq<Range>, after: seq<Range>, node: int,
                      count: int, c1: int, c: int, leafSize: int, prims: int)
    requires |before| == |mid| == |post| == |after|
    requires 0 <= node && 2 * node + 2 < |after|
    requires before[node].lo == count
    requires mid[2 * node + 1] == Range(count, c1)
    requires Kept(before, mid, 2 * node + 1)
    requires SubtreeOk(mid, 2 * node + 1, leafSize, prims)
    requires post[2 * node + 2] == Range(c1, c)
    requires Kept(mid, post, 2 * node + 2)
    requires SubtreeOk(post, 2 * node + 2, leafSize, prims)
    requires after == post[node := post[node].(hi := c)]
    ensures after[node] == Range(count, c)
    ensures Kept(before, after, node)
    ensures SubtreeOk(after, node, leafSize, prims)
  {
    var left, right := 2 * node + 1, 2 * node + 2;
    NotInChildSubtrees(node);
    LayoutFrame(before, mid, post, after, node, c);
    LeftKept(mid, post, after, node, c);
    assert NodeOk(mid, left, leafSize, prims);
    assert NodeOk(post, right, leafSize, prims);
    assert after[left] == Range(count, c1);
    assert NodeOk(after, node, leafSize, prims);
    SubtreeGlue(mid, post, after, node, c, leafSize, prims);
  }

  /** The count after an internal node is the count after its first child's leaves and then its second's. */
  lemma CountGlue(count: int, c1: int, c: int, node: nat, n: int, leafSize: int, prims: int)
    requires 2 * node + 2 < n && count <= prims && leafSize > 0
    requires c1 == Min(count + Leaves(2 * node + 1, n) * leafSize, prims)
    requires c == Min(c1 + Leaves(2 * node + 2, n) * leafSize, prims)
    ensures c == Min(count + Leaves(node, n) * leafSize, prims)
  {
    LayoutCount(count, c1, c, Leaves(2 * node + 1, n), Leaves(2 * node + 2, n), leafSize, prims);
  }

  /** The node's own layout and both child subtrees' layouts make the node's subtree's layout. */
  lemma SubtreeGlue(mid: seq<Range>, post: seq<Range>, after: seq<Range>, node: int, c: int, leafSize: int, prims: int)
    requires |mid| == |post| == |after| && 0 <= node && 2 * node + 2 < |after|
    requires SubtreeOk(mid, 2 * node + 1, leafSize, prims)
    requires SubtreeOk(post, 2 * node + 2, leafSize, prims)
    requires forall k :: 0 <= k < |mid| && Descendant(k, 2 * node + 1) ==> after[k] == mid[k]
    requires after == post[node := post[node].(hi := c)]
    requires NodeOk(after, node, leafSize, prims)
    ensures SubtreeOk(after, node, leafSize, prims)
  {
    var left, right := 2 * node + 1, 2 * node + 2;
    NotInChildSubtrees(node);
    forall k | 0 <= k < |after| && Descendant(k, node)
      ensures NodeOk(after, k, leafSize, prims)
    {
      ChildSubtrees(k, node);
      if k == node {
      } else if Descendant(k, left) {
        LayoutInside(mid, after, k, left, node, leafSize, prims);
      } else {
        RightKept(post, after, node, c);
        LayoutInside(post, after, k, right, node, leafSize, prims);
      }
    }
  }

  /** The final write leaves the second child's subtree alone. */
  lemma RightKept(post: seq<Range>, after: seq<Range>, node: int, c: int)
    requires |post| == |after| && 0 <= node < |after|
    requires after == post[node := post[node].(hi := c)]
    ensures forall k :: 0 <= k < |post| && Descendant(k, 2 * node + 2) ==> after[k] == post[k]
  {
    NotInChildSubtrees(node);
  }

  /** Outside the node's subtree nothing changes. */
  lemma LayoutFrame(before: seq<Range>, mid: seq<Range>, post: seq<Range>, after: seq<Range>, node: int, c: int)
    requires |before| == |mid| == |post| == |after| && 0 <= node < |after|
    requires Kept(before, mid, 2 * node + 1)
    requires Kept(mid, post, 2 * node + 2)
    requires after == post[node := post[node].(hi := c)]
    ensures Kept(before, after, node)
  {
    forall k | 0 <= k < |after| && !Descendant(k, node)
      ensures after[k] == before[k]
    {
      ChildSubtrees(k, node);
    }
  }

  /** The second child's layout and the final write leave the first child's subtree alone. */
  lemma LeftKept(mid: seq<Range>, post: seq<Range>, after: seq<Range>, node: int, c: int)
    requires |mid| == |post| == |after| && 0 <= node < |after|
    requires Kept(mid, post, 2 * node + 2)
    requires after == post[node := post[node].(hi := c)]
    ensures forall k :: 0 <= k < |mid| && Descendant(k, 2 * node + 1) ==> after[k] == mid[k]
  {
    forall k | 0 <= k < |mid| && Descendant(k, 2 * node + 1)
      ensures after[k] == mid[k]
    {
      ChildSubtrees(k, node);
    }
  }

  lemma LayoutCount(count: int, c1: int, c: int, l1: nat, l2: nat, leafSize: int, prims: int)
    requires count <= prims && leafSize > 0
    requires c1 == Min(count + l1 * leafSize, prims)
    requires c == Min(c1 + l2 * leafSize, prims)
    ensures c == Min(count + (l1 + l2) * leafSize, prims)
  {
    assert (l1 + l2) * leafSize == l1 * leafSize + l2 * leafSize;
  }

  lemma NotInChildSubtrees(node: int)
    requires node >= 0
    ensures !Descendant(node, 2 * node + 1) && !Descendant(node, 2 * node + 2)
  {
  }

  /**
   * A node of the subtree at child, laid out in `rs`, keeps its layout in `after` when
   * `after` changes nothing in that subtree.
   */
  lemma LayoutInside(rs: seq<Range>, after: seq<Range>, k: int, child: int, node: int, leafSize: int, prims: int)
    requires |rs| == |after| && 0 <= k < |rs| && 0 <= node && (child == 2 * node + 1 || child == 2 * node + 2)
    requires Descendant(k, child)
    requires forall k' :: 0 <= k' < |rs| && Descendant(k', child) ==> NodeOk(rs, k', leafSize, prims)
    requires forall k' :: 0 <= k' < |rs| && Descendant(k', child) ==> after[k'] == rs[k']
    ensures NodeOk(after, k, leafSize, prims)
  {
    ChildrenAreDescendants(k, child);
    NodeOkLocal(rs, after, k, leafSize, prims);
  }

  lemma {:induction false} DescendsFromRoot(k: nat)
    ensures Descendant(k, 0)
  {
    if k > 0 {
      DescendsFromRoot((k - 1) / 2);
    }
  }

  /** ceil(prims / leaf_size) leaves of leaf_size primitives cover all prims primitives. */
  lemma LeavesCoverPrims(prims: nat, leafSize: int)
    requires leafSize > 0
    ensures ((prims + leafSize - 1) / leafSize) * leafSize >= prims
  {
    var q, r := (prims + leafSize - 1) / leafSize, (prims + leafSize - 1) % leafSize;
    assert prims + leafSize - 1 == q * leafSize + r;
  }

  /**
   * ranges(prims, leaf_size): 2L - 1 nodes for L = ceil(prims / leaf_size) (none for no
   * primitives), the root owning [0, prims) and every node laid out as NodeOk says.
   */
  method Ranges(prims: int, leafSize: int) returns (rs: seq<Range>)
    requires prims >= 0 && leafSize > 0
    ensures |rs| == NodeCount(prims, leafSize)
    ensures prims == 0 ==> rs == []
    ensures |rs| > 0 ==> rs[0] == Range(0, prims)
    ensures forall k :: 0 <= k < |rs| ==> NodeOk(rs, k, leafSize, prims)
  {
    var leaves := (prims + leafSize - 1) / leafSize;
    LeafCount(prims, leafSize, leaves);
    var ranges := new Range[if leaves > 0 then 2 * leaves - 1 else 0](_ => Range(0, 0));
    if ranges.Length > 0 {
      var count := RangesHelper(ranges, 0, leafSize, prims, 0);
      RootCoversAll(leaves, prims, leafSize);
      AllNodesOk(ranges[..], leafSize, prims);
    }
    rs := ranges[..];
  }

  /** No primitives make no leaves; otherwise the node count 2L - 1 is odd. */
  lemma LeafCount(prims: nat, leafSize: int, leaves: int)
    requires leafSize > 0 && leaves == (prims + leafSize - 1) / leafSize
    ensures leaves >= 0 && (prims == 0 <==> leaves == 0)
    ensures NodeCount(prims, leafSize) == if leaves > 0 then 2 * leaves - 1 else 0
    ensures leaves > 0 ==> (2 * leaves - 1) % 2 == 1
  {
    if prims > 0 {
      LeavesCoverPrims(prims, leafSize);
    }
  }

  /** The root's count after all L leaves is prims. */
  lemma RootCoversAll(leaves: int, prims: nat, leafSize: int)
    requires leafSize > 0 && leaves == (prims + leafSize - 1) / leafSize && leaves >= 1
    ensures Min(0 + Leaves(0, 2 * leaves - 1) * leafSize, prims) == prims
  {
    LeavesOfRoot(leaves);
    LeavesCoverPrims(prims, leafSize);
  }

  /** Every node lies below the root, so a layout of the root's subtree is a layout of every node. */
  lemma AllNodesOk(rs: seq<Range>, leafSize: int, prims: int)
    requires forall k :: 0 <= k < |rs| && Descendant(k, 0) ==> NodeOk(rs, k, leafSize, prims)
    ensures forall k :: 0 <= k < |rs| ==> NodeOk(rs, k, leafSize, prims)
  {
    forall k | 0 <= k < |rs|
      ensures NodeOk(rs, k, leafSize, prims)
    {
      DescendsFromRoot(k);
    }
  }

  /** A descendant's range lies inside its ancestor's range. */
  lemma {:induction false} RangeWithin(rs: seq<Range>, k: int, a: int, leafSize: int, prims: int)
    requires forall k' :: 0 <= k' < |rs| ==> NodeOk(rs, k', leafSize, prims)
    requires 0 <= a && k < |rs| && Descendant(k, a)
    ensures rs[a].lo <= rs[k].lo && rs[k].hi <= rs[a].hi
    decreases k
  {
    if k != a {
      var parent := (k - 1) / 2;
      RangeWithin(rs, parent, a, leafSize, prims);
      assert k == 2 * parent + 1 || k == 2 * parent + 2;
      assert NodeOk(rs, parent, leafSize, prims);
      assert NodeOk(rs, 2 * parent + 1, leafSize, prims);
      if 2 * parent + 2 < |rs| {
        assert NodeOk(rs, 2 * parent + 2, leafSize, prims);
      }
    }
  }

  /** Every position of a node's range lies in the range of some leaf below it. */
  lemma {:induction false} LeafCovers(rs: seq<Range>, a: int, x: int, leafSize: int, prims: int) returns (leaf: int)
    requires forall k' :: 0 <= k' < |rs| ==> NodeOk(rs, k', leafSize, prims)
    requires 0 <= a < |rs| && rs[a].lo <= x < rs[a].hi
    ensures 0 <= leaf < |rs| && IsLeaf(leaf, |rs|) && Descendant(leaf, a)
    ensures rs[leaf].lo <= x < rs[leaf].hi
    decreases |rs| - a
  {
    assert NodeOk(rs, a, leafSize, prims);
    if IsLeaf(a, |rs|) {
      leaf := a;
    } else {
      var child := if x < rs[2 * a + 1].hi then 2 * a + 1 else 2 * a + 2;
      leaf := LeafCovers(rs, child, x, leafSize, prims);
      ChildSubtrees(leaf, a);
    }
  }

  /** Two different leaves below a node have disjoint ranges. */
  lemma {:induction false} LeavesDisjoint(rs: seq<Range>, a: int, l1: int, l2: int, leafSize: int, prims: int)
    requires forall k' :: 0 <= k' < |rs| ==> NodeOk(rs, k', leafSize, prims)
    requires 0 <= a < |rs| && 0 <= l1 < |rs| && 0 <= l2 < |rs| && l1 != l2
    requires Descendant(l1, a) && Descendant(l2, a) && IsLeaf(l1, |rs|) && IsLeaf(l2, |rs|)
    ensures rs[l1].hi <= rs[l2].lo || rs[l2].hi <= rs[l1].lo
    decreases |rs| - a
  {
    ChildSubtrees(l1, a);
    ChildSubtrees(l2, a);
    var left, right := 2 * a + 1, 2 * a + 2;
    assert NodeOk(rs, a, leafSize, prims);
    assert l1 != a ==> l1 >= left;
    assert l2 != a ==> l2 >= left;
    if Descendant(l1, left) && Descendant(l2, left) {
      LeavesDisjoint(rs, left, l1, l2, leafSize, prims);
    } else if Descendant(l1, right) && Descendant(l2, right) {
      LeavesDisjoint(rs, right, l1, l2, leafSize, prims);
    } else if Descendant(l1, left) {
      RangeWithin(rs, l1, left, leafSize, prims);
      RangeWithin(rs, l2, right, leafSize, prims);
    } else {
      RangeWithin(rs, l2, left, leafSize, prims);
      RangeWithin(rs, l1, right, leafSize, prims);
    }
  }

  /** In the layout ranges produces, each primitive in [0, prims) belongs to exactly one leaf. */
  lemma LeavesPartition(prims: int, leafSize: int, rs: seq<Range>, x: int) returns (leaf: int)
    requires prims >= 0 && leafSize > 0 && |rs| > 0 && rs[0] == Range(0, prims)
    requires forall k :: 0 <= k < |rs| ==> NodeOk(rs, k, leafSize, prims)
    requires 0 <= x < prims
    ensures 0 <= leaf < |rs| && IsLeaf(leaf, |rs|) && rs[leaf].lo <= x < rs[leaf].hi
    ensures forall l :: 0 <= l < |rs| && IsLeaf(l, |rs|) && rs[l].lo <= x < rs[l].hi ==> l == leaf
  {
    leaf := LeafCovers(rs, 0, x, leafSize, prims);
    forall l | 0 <= l < |rs| && IsLeaf(l, |rs|) && rs[l].lo <= x < rs[l].hi
      ensures l == leaf
    {
      if l != leaf {
        DescendsFromRoot(l);
        DescendsFromRoot(leaf);
        LeavesDisjoint(rs, 0, l, leaf, leafSize, prims);
      }
    }
  }

  // ---------------------------------------------------------------------------------------
  // leaf_range, depth, check_leaf_size

  /** leaf_range(prims, leaf_size): the leaves are the last L nodes, [L - 1, 2L - 1); empty for no primitives. */
  function LeafRange(prims: nat, leafSize: int): (r: Range)
    requires leafSize > 0
    ensures prims == 0 ==> r == Range(0, 0)
    ensures r.hi == NodeCount(prims, leafSize)
    ensures prims > 0 ==> r.hi - r.lo == Leaves(0, r.hi)
    ensures forall k :: 0 <= k < r.hi ==> (IsLeaf(k, r.hi) <==> r.lo <= k)
  {
    if prims == 0 then Range(0, 0)
    else
      var leaves := (prims + leafSize - 1) / leafSize;
      LeavesOfRoot(leaves);
      Range(leaves - 1, 2 * leaves - 1)
  }

  function Pow2(e: nat): nat
  {
    if e == 0 then 1 else 2 * Pow2(e - 1)
  }

  /** integer_log(x): the floor of log2 x, for x >= 1. */
  function IntegerLog(x: int): (e: nat)
    requires x >= 1
    ensures Pow2(e) <= x < Pow2(e + 1)
  {
    if x == 1 then 0 else 1 + IntegerLog(x / 2)
  }

  /** depth(leaves): 0 for no leaves, otherwise the depth whose bounds the source asserts. */
  function Depth(leaves: int): (d: nat)
    requires leaves >= 0
    ensures leaves == 0 ==> d == 0
    ensures leaves > 0 ==> d >= 1 && 2 * leaves - 1 <= Pow2(d) - 1 && Pow2(d - 1) - 1 <= 2 * leaves - 1
  {
    if leaves == 0 then 0 else 1 + IntegerLog(2 * leaves - 1)
  }

  /** check_leaf_size(leaf_size): rejects a leaf size that is not positive. */
  function CheckLeafSize(leafSize: int): (r: Option<int>)
    ensures r.Some? <==> leafSize > 0
    ensures r.Some? ==> r.value == leafSize
  {
    if leafSize > 0 then Some(leafSize) else None
  }

  // ---------------------------------------------------------------------------------------
  // The permutation p

  /** Every entry indexes the array and every index appears exactly once. */
  ghost predicate IsPermutation(p: seq<int>)
  {
    && (forall i :: 0 <= i < |p| ==> 0 <= p[i] < |p|)
    && (forall v :: 0 <= v < |p| ==> multiset(p)[v] == 1)
  }

  /** The permutation part of check(X): count how often each index occurs, then demand 1 everywhere. */
  method CheckPermutation(p: seq<int>) returns (ok: bool)
    ensures ok <==> IsPermutation(p)
  {
    var n := |p|;
    var count := new int[n](_ => 0);
    for i := 0 to n
      invariant forall j :: 0 <= j < i ==> 0 <= p[j] < n
      invariant forall v :: 0 <= v < n ==> count[v] == multiset(p[..i])[v]
    {
      if !(0 <= p[i] < n) {
        // An index outside the array fails the subset access.
        return false;
      }
      assert p[..i + 1] == p[..i] + [p[i]];
      count[p[i]] := count[p[i]] + 1;
    }
    assert p[..n] == p;
    for v := 0 to n
      invariant forall u :: 0 <= u < v ==> count[u] == 1
    {
      if count[v] != 1 {
        return false;
      }
    }
    return true;
  }

  /** arange(n), the initial p, is a permutation. */
  lemma {:induction false} IdentityIsPermutation(n: nat)
    ensures IsPermutation(seq(n, i => i))
  {
    if n > 0 {
      IdentityIsPermutation(n - 1);
      var s := seq(n, i => i);
      assert s == seq(n - 1, i => i) + [n - 1];
      forall v | 0 <= v < n
        ensures multiset(s)[v] == 1
      {
        if v < n - 1 {
          assert multiset(seq(n - 1, i => i))[v] == 1;
        } else {
          assert n - 1 !in multiset(seq(n - 1, i => i));
        }
      }
    }
  }

  /** A permutation never repeats an index. */
  lemma PermutationIsInjective(p: seq<int>, i: int, j: int)
    requires IsPermutation(p) && 0 <= i < j < |p|
    ensures p[i] != p[j]
  {
    RepeatCountsTwice(p, i, j);
  }

  /** A value at two positions occurs at least twice. */
  lemma RepeatCountsTwice(p: seq<int>, i: int, j: int)
    requires 0 <= i < j < |p|
    ensures p[i] == p[j] ==> multiset(p)[p[i]] >= 2
  {
    assert p == p[..j] + p[j..];
    assert p[..j][i] == p[i] && p[j..][0] == p[j];
    assert multiset(p)[p[j]] == multiset(p[..j])[p[j]] + multiset(p[j..])[p[j]];
  }

  // ---------------------------------------------------------------------------------------
  // Construction

  /** The integer state of a BoxTree; the boxes are not part of this model. */
  datatype Tree = Tree(leafSize: int, leaves: Range, depth: int, p: seq<int>, ranges: seq<Range>)

  /** BoxTree(geo, leaf_size) for prims = geo.size(), up to the geometric build. */
  method Build(prims: int, leafSize: int) returns (r: Option<Tree>)
    requires prims >= 0
    ensures r.Some? <==> leafSize > 0
    ensures r.Some? ==> r.value.leafSize == leafSize && r.value.leaves == LeafRange(prims, leafSize)
    ensures r.Some? ==> r.value.depth == Depth(r.value.leaves.hi - r.value.leaves.lo)
    ensures r.Some? ==> r.value.p == seq(prims, i => i) && IsPermutation(r.value.p)
    ensures r.Some? ==> |r.value.ranges| == r.value.leaves.hi
    ensures r.Some? ==> forall k :: 0 <= k < |r.value.ranges| ==> NodeOk(r.value.ranges, k, leafSize, prims)
  {
    var checked := CheckLeafSize(leafSize);
    if checked.None? {
      return None;
    }
    var leaves := LeafRange(prims, leafSize);
    var depth := Depth(leaves.hi - leaves.lo);
    var p := seq(prims, i => i);
    IdentityIsPermutation(prims);
    var ranges := Ranges(prims, leafSize);
    r := Some(Tree(leafSize, leaves, depth, p, ranges));
  }
}
