/**
 * The free list of boundary records across the mutations of the corner mesh
 * (mesh/CornerMesh.cpp). Deleted boundary records are chained through their next
 * fields from deleted_boundaries_; assert_consistent checks that the chain ends within
 * |boundaries_| steps and that n_boundary_edges plus its length is |boundaries_|.
 *
 * Each mutation rewrites the next fields of some records. The chain survives exactly
 * when none of those records is on it. That a record is off the chain is shown from
 * its being live (its src is not the deleted marker), so the lemmas here carry one
 * more invariant, FreeMarked: every record on the chain carries the deleted marker.
 */
module CornerMeshFreeList {
  import opened CornerMesh
  import opened CornerMeshLemmas

  // ---------------------------------------------------------------------------
  // Records

  /** The records on the free list (empty when the walk fails). */
  function Chain(m: Mesh): seq<int>
  {
    var c := FreeChain(m, m.deletedBoundaries, |m.boundaries|);
    if c.Some? then c.value else []
  }

  /** b is an existing boundary record marked deleted. */
  predicate FreeRecord(m: Mesh, b: int)
  {
    BoundarySlot(m, b) && m.boundaries[-1 - b].src == DeletedId
  }

  /** b is an existing boundary record that is not deleted: a live boundary halfedge. */
  predicate LiveRecord(m: Mesh, b: int)
  {
    BoundarySlot(m, b) && m.boundaries[-1 - b].src != DeletedId
  }

  /** The free list is consistent, and every record on it is marked deleted. */
  ghost predicate FreeMarked(m: Mesh)
  {
    FreeListProps(m) && forall b :: b in Chain(m) ==> FreeRecord(m, b)
  }

  /** The prev and next of a live boundary halfedge are live boundary halfedges. */
  ghost predicate LiveLinks(m: Mesh)
  {
    forall x :: LiveRecord(m, x) ==> LiveRecord(m, Prev(m, x)) && LiveRecord(m, Next(m, x))
  }

  /** The reverse of a valid halfedge is valid. */
  ghost predicate ReverseLive(m: Mesh)
  {
    forall e :: ValidHalfedge(m, e) ==> ValidHalfedge(m, Reverse(m, e))
  }

  /** The same records, with the same sources. */
  ghost predicate SameSrcs(a: Mesh, b: Mesh)
  {
    |b.boundaries| == |a.boundaries|
    && forall i :: 0 <= i < |a.boundaries| ==> b.boundaries[i].src == a.boundaries[i].src
  }

  /** b has a's free list and counters, and the same live and deleted records. */
  ghost predicate Steady(a: Mesh, b: Mesh)
  {
    FreeMarked(b) && Chain(b) == Chain(a) && SameSrcs(a, b)
    && b.deletedBoundaries == a.deletedBoundaries && b.nBoundaryEdges == a.nBoundaryEdges
  }

  // ---------------------------------------------------------------------------
  // The chain

  predicate Distinct(s: seq<int>)
  {
    forall i, j :: 0 <= i < j < |s| ==> s[i] != s[j]
  }

  lemma {:induction false} FreeChainSlots(m: Mesh, x: int, limit: nat)
    requires FreeChain(m, x, limit).Some?
    ensures forall b :: b in FreeChain(m, x, limit).value ==> BoundarySlot(m, b)
    decreases limit
  {
    if x != InvalidId {
      FreeChainSlots(m, Next(m, x), limit - 1);
    }
  }

  /** The walk from a record on the chain is the rest of the chain. */
  lemma {:induction false} FreeChainSuffix(m: Mesh, x: int, limit: nat, y: int)
    requires FreeChain(m, x, limit).Some? && y in FreeChain(m, x, limit).value
    ensures FreeChain(m, y, limit).Some? && |FreeChain(m, y, limit).value| <= |FreeChain(m, x, limit).value|
    decreases limit
  {
    if y != x {
      var rest := FreeChain(m, Next(m, x), limit - 1);
      FreeChainSuffix(m, Next(m, x), limit - 1, y);
      FreeChainLength(m, y, limit - 1);
      FreeChainLimit(m, y, limit - 1, limit);
    }
  }

  /** The head of the chain does not come back. */
  lemma FreeChainHead(m: Mesh, x: int, limit: nat)
    requires FreeChain(m, x, limit).Some? && x != InvalidId
    ensures x !in FreeChain(m, Next(m, x), limit - 1).value
  {
    var rest := FreeChain(m, Next(m, x), limit - 1);
    if x in rest.value {
      FreeChainSuffix(m, Next(m, x), limit - 1, x);
      FreeChainLength(m, x, limit - 1);
      FreeChainLimit(m, x, limit - 1, limit);
      assert false;
    }
  }

  lemma {:induction false} FreeChainDistinct(m: Mesh, x: int, limit: nat)
    requires FreeChain(m, x, limit).Some?
    ensures Distinct(FreeChain(m, x, limit).value)
    decreases limit
  {
    if x != InvalidId {
      FreeChainDistinct(m, Next(m, x), limit - 1);
      FreeChainHead(m, x, limit);
    }
  }

  /** A sequence of distinct numbers below n has at most n elements. */
  lemma {:induction false} DistinctBelow(s: seq<int>, n: nat)
    requires Distinct(s) && forall i :: 0 <= i < |s| ==> 0 <= s[i] < n
    ensures |s| <= n
    decreases n
  {
    if |s| > 0 {
      assert 0 <= s[0] < n;
      if k :| 0 <= k < |s| && s[k] == n - 1 {
        var t := s[..k] + s[k + 1..];
        assert forall i :: 0 <= i < |t| ==> t[i] == if i < k then s[i] else s[i + 1];
        assert forall i :: 0 <= i < |t| ==> t[i] != n - 1;
        DistinctBelow(t, n - 1);
      } else {
        assert forall i :: 0 <= i < |s| ==> s[i] != n - 1;
        DistinctBelow(s, n - 1);
      }
    }
  }

  /** A boundary record off the free list is counted in n_boundary_edges. */
  lemma RoomForRecord(m: Mesh, x: int)
    requires FreeListProps(m) && BoundarySlot(m, x) && x !in Chain(m)
    ensures m.nBoundaryEdges >= 1
  {
    var c := Chain(m);
    FreeChainSlots(m, m.deletedBoundaries, |m.boundaries|);
    FreeChainDistinct(m, m.deletedBoundaries, |m.boundaries|);
    var s := seq(|c|, i requires 0 <= i < |c| => -1 - c[i]) + [-1 - x];
    assert forall i :: 0 <= i < |c| ==> s[i] == -1 - c[i] && c[i] in c;
    DistinctBelow(s, |m.boundaries|);
  }

  /** A live record is off a marked free list. */
  lemma LiveOffChain(m: Mesh, x: int)
    requires FreeMarked(m) && !FreeRecord(m, x)
    ensures x !in Chain(m)
  {
  }

  // ---------------------------------------------------------------------------
  // Writes that keep the list

  /** A write that keeps every source and every next field but that of p, where p is not
      a deleted record, keeps the free list. */
  lemma KeepsList(a: Mesh, b: Mesh, p: int)
    requires FreeMarked(a) && !FreeRecord(a, p) && SameSrcs(a, b)
    requires b.deletedBoundaries == a.deletedBoundaries && b.nBoundaryEdges == a.nBoundaryEdges
    requires forall i :: 0 <= i < |a.boundaries| && i != -1 - p ==> b.boundaries[i].next == a.boundaries[i].next
    ensures Steady(a, b)
  {
    var L := |a.boundaries|;
    LiveOffChain(a, p);
    FreeChainAvoid(a, b, a.deletedBoundaries, L, p);
  }

  lemma SetNextSteady(m: Mesh, p: int, n: int)
    requires FreeMarked(m) && !FreeRecord(m, p)
    ensures Steady(m, SetNext(m, p, n))
  {
    KeepsList(m, SetNext(m, p, n), p);
  }

  lemma SetPrevSteady(m: Mesh, n: int, p: int)
    requires FreeMarked(m)
    ensures Steady(m, SetPrev(m, n, p))
  {
    KeepsList(m, SetPrev(m, n, p), InvalidId);
  }

  lemma SetReverseOfSteady(m: Mesh, e: int, r: int)
    requires FreeMarked(m)
    ensures Steady(m, SetReverseOf(m, e, r))
  {
    KeepsList(m, SetReverseOf(m, e, r), InvalidId);
  }

  /** unsafe_boundary_link(p, n) keeps the free list when p is not a deleted record. */
  lemma BoundaryLinkSteady(m: Mesh, p: int, n: int)
    requires FreeMarked(m) && !FreeRecord(m, p)
    ensures Steady(m, BoundaryLink(m, p, n))
  {
    SetNextSteady(m, p, n);
    SetPrevSteady(SetNext(m, p, n), n, p);
  }

  /** ... and, when p and n are live, keeps the prev and next of live records live. */
  lemma BoundaryLinkLive(m: Mesh, p: int, n: int)
    requires LiveLinks(m) && LiveRecord(m, p) && LiveRecord(m, n)
    ensures LiveLinks(BoundaryLink(m, p, n)) && SameSrcs(m, BoundaryLink(m, p, n))
  {
    var m1 := SetNext(m, p, n);
    var r := SetPrev(m1, n, p);
    assert SameSrcs(m, m1) && SameSrcs(m1, r);
    forall x | LiveRecord(r, x) ensures LiveRecord(r, Prev(r, x)) && LiveRecord(r, Next(r, x)) {
      assert LiveRecord(m, x);
      assert Prev(r, x) == if x == n then p else Prev(m, x);
      assert Next(r, x) == if x == p then n else Next(m, x);
      assert LiveRecord(m, Prev(r, x)) && LiveRecord(m, Next(r, x));
    }
  }

  // ---------------------------------------------------------------------------
  // split_face

  /** The same free list: nothing it reads has changed. */
  lemma LinksKeptList(a: Mesh, b: Mesh)
    requires LinksKept(a, b) && b.deletedBoundaries == a.deletedBoundaries && b.nBoundaryEdges == a.nBoundaryEdges
    ensures FreeListProps(b) == FreeListProps(a) && Chain(b) == Chain(a)
    ensures FreeMarked(a) ==> FreeMarked(b)
  {
    FreeChainSameNext(a, b, a.deletedBoundaries, |a.boundaries|);
  }

  /**
   * split_face (mesh/CornerMesh.cpp:236-263) writes face records, reverse fields and
   * stored halfedges but no next field and no source of a boundary record, so the free
   * list, and with it its consistency check, is what it was.
   */
  lemma SplitFaceFreeList(m: Mesh, f: int, c: int)
    requires FreeListProps(m) && SplitFace(m, f, c).Ok?
    ensures FreeListProps(SplitFace(m, f, c).value)
    ensures Chain(SplitFace(m, f, c).value) == Chain(m)
    ensures FreeMarked(m) ==> FreeMarked(SplitFace(m, f, c).value)
  {
    var r := SplitFace(m, f, c).value;
    assert LinksKept(m, r);
    LinksKeptList(m, r);
  }

  /**
   * unsafe_flip_edge (mesh/CornerMesh.cpp:282-310) rewrites face vertices, reverse fields
   * and stored halfedges, but neither a next field nor a source of a boundary record nor a
   * count: the free list, the count check and the parity are what they were.
   */
  lemma UnsafeFlipEdgeFreeList(m: Mesh, e: int)
    requires FreeListProps(m)
    ensures var r := UnsafeFlipEdge(m, e).0;
      FreeListProps(r) && Chain(r) == Chain(m) && (FreeMarked(m) ==> FreeMarked(r))
      && (Parity(m) ==> Parity(r))
  {
    FlipCountsKept(m, e, UnsafeFlipEdge(m, e).0);
    CountsKeptList(m, UnsafeFlipEdge(m, e).0);
  }

  lemma CountsKeptList(m: Mesh, r: Mesh)
    requires LinksKept(m, r) && r.deletedBoundaries == m.deletedBoundaries
    requires r.nBoundaryEdges == m.nBoundaryEdges && r.nFaces == m.nFaces
    ensures FreeListProps(r) == FreeListProps(m) && Chain(r) == Chain(m) && (FreeMarked(m) ==> FreeMarked(r))
      && Parity(r) == Parity(m)
  {
    LinksKeptList(m, r);
  }

  lemma FlipCountsKept(m: Mesh, e: int, r: Mesh)
    requires r == UnsafeFlipEdge(m, e).0
    ensures LinksKept(m, r) && r.deletedBoundaries == m.deletedBoundaries
    ensures r.nBoundaryEdges == m.nBoundaryEdges && r.nFaces == m.nFaces
  {
    UnsafeFlipEdgeStages(m, e);
    var m1 := FlipStages(m, e).0;
    var f0 := Face(e); var f1 := Face(Reverse(m, e));
    var ma := SetReverseOf(m1, 3 * f0, 3 * f1);
    var mb := SetReverseOf(ma, 3 * f1, 3 * f0);
    assert LinksKept(m, mb);
  }

  // ---------------------------------------------------------------------------
  // add_face

  /** x is absent or a live boundary halfedge. */
  predicate LiveOrNone(m: Mesh, x: int)
  {
    x == InvalidId || LiveRecord(m, x)
  }

  /** x, a stored halfedge, is absent, a face corner or a live boundary halfedge. */
  predicate Anchored(m: Mesh, x: int)
  {
    x == InvalidId || x >= 0 || LiveRecord(m, x)
  }

  /** b only adds records: nothing that was not deleted becomes deleted, and live records
      are untouched. */
  ghost predicate Grows(a: Mesh, b: Mesh)
  {
    (forall y :: !FreeRecord(a, y) ==> !FreeRecord(b, y))
    && (forall y :: LiveRecord(a, y) ==> BoundarySlot(b, y) && b.boundaries[-1 - y] == a.boundaries[-1 - y])
  }

  /** What the checks of add_face leave for the relinking: existing edges are live and
      pairwise distinct, and a far side c_i found for e_i, e_(i+1) is live. */
  ghost predicate RelinkReady(m: Mesh, e: Triple, c: Triple)
  {
    LiveOrNone(m, e.0) && LiveOrNone(m, e.1) && LiveOrNone(m, e.2)
    && (c.0 != InvalidId ==> LiveRecord(m, c.0) && e.0 != InvalidId && e.1 != InvalidId)
    && (c.1 != InvalidId ==> LiveRecord(m, c.1) && e.1 != InvalidId && e.2 != InvalidId)
    && (c.2 != InvalidId ==> LiveRecord(m, c.2) && e.2 != InvalidId && e.0 != InvalidId)
    && (e.0 != InvalidId ==> e.0 != e.1 && e.0 != e.2)
    && (e.1 != InvalidId ==> e.1 != e.2)
  }

  lemma SteadyTrans(a: Mesh, b: Mesh, c: Mesh)
    requires Steady(a, b) && Steady(b, c)
    ensures Steady(a, c)
  {
  }

  /** In a consistent mesh the prev and next of a live boundary halfedge are live. */
  lemma LiveLinksOf(m: Mesh)
    requires Consistent(m)
    ensures LiveLinks(m)
  {
    forall x | LiveRecord(m, x) ensures LiveRecord(m, Prev(m, x)) && LiveRecord(m, Next(m, x)) {
      assert ValidHalfedge(m, x) && HalfedgeProps(m, x);
    }
  }

  /** The reverse and the next of a valid halfedge are valid. */
  ghost predicate Walkable(m: Mesh)
  {
    ReverseLive(m) && forall e :: ValidHalfedge(m, e) ==> ValidHalfedge(m, Next(m, e))
  }

  lemma WalkableOf(m: Mesh)
    requires Consistent(m) && ReverseLive(m)
    ensures Walkable(m)
  {
    forall e | ValidHalfedge(m, e) ensures ValidHalfedge(m, Next(m, e)) {
      assert HalfedgeProps(m, e);
    }
  }

  /** Swinging from a valid halfedge ends at a live boundary halfedge, if anywhere. */
  lemma {:induction false} SwingLive(m: Mesh, e: int, fuel: nat)
    requires Walkable(m) && ValidHalfedge(m, e)
    ensures LiveOrNone(m, SwingToBoundary(m, e, fuel))
    decreases fuel
  {
    if !IsBoundary(e) && fuel > 0 {
      assert ValidHalfedge(m, Next(m, e));
      SwingLive(m, Reverse(m, Next(m, e)), fuel - 1);
    }
  }

  /** PREPARE from live halfedges finds a live far side, or none. */
  lemma PrepareLive(m: Mesh, a: int, b: int)
    requires Walkable(m) && LiveOrNone(m, a) && LiveOrNone(m, b)
    ensures var c := Prepare(m, a, b);
      c != InvalidId ==> LiveRecord(m, c) && a != InvalidId && b != InvalidId
  {
    if a != InvalidId && b != InvalidId && Next(m, a) != b {
      var r := Reverse(m, b);
      assert ValidHalfedge(m, b);
      assert ValidHalfedge(m, r);
      var n := Next(m, r);
      assert ValidHalfedge(m, n);
      assert ValidHalfedge(m, Reverse(m, n));
      SwingLive(m, Reverse(m, n), Slots(m));
    }
  }

  /** An existing edge found by halfedge(v0,v1) that the checks let through is live and leaves v0. */
  lemma BetweenLive(m: Mesh, v0: int, v1: int)
    requires RingProps(m) && ValidVertex(m, v0)
    requires HalfedgeBetween(m, v0, v1) == InvalidId || IsBoundary(HalfedgeBetween(m, v0, v1))
    ensures var e := HalfedgeBetween(m, v0, v1);
      LiveOrNone(m, e) && (e != InvalidId ==> Src(m, e) == v0)
  {
    HalfedgeBetweenMeaning(m, v0, v1);
    var e := HalfedgeBetween(m, v0, v1);
    if e != InvalidId {
      assert e in Outgoing(m, v0);
      assert ValidHalfedge(m, e) && Src(m, e) == v0;
    }
  }

  /** The checks of add_face, passed, leave the relinking what it needs. */
  lemma ChecksReady(m: Mesh, v: Triple)
    requires RingProps(m) && Walkable(m) && AddFaceChecks(m, v, false).Ok?
    ensures RelinkReady(m, AddFaceChecks(m, v, false).value.0, AddFaceChecks(m, v, false).value.1)
  {
    var e0 := HalfedgeBetween(m, v.0, v.1);
    var e1 := HalfedgeBetween(m, v.1, v.2);
    var e2 := HalfedgeBetween(m, v.2, v.0);
    assert AddFaceChecks(m, v, false).value == ((e0, e1, e2), (Prepare(m, e0, e1), Prepare(m, e1, e2), Prepare(m, e2, e0)));
    BetweenLive(m, v.0, v.1);
    BetweenLive(m, v.1, v.2);
    BetweenLive(m, v.2, v.0);
    PrepareLive(m, e0, e1);
    PrepareLive(m, e1, e2);
    PrepareLive(m, e2, e0);
  }

  /** RELINK joins live records only, so it keeps the free list and live links. */
  lemma RelinkSteady(m: Mesh, a: int, b: int, c: int)
    requires FreeMarked(m) && LiveLinks(m)
    requires c != InvalidId ==> LiveRecord(m, a) && LiveRecord(m, b) && LiveRecord(m, c)
    ensures Steady(m, Relink(m, a, b, c)) && LiveLinks(Relink(m, a, b, c))
  {
    if c != InvalidId {
      var na := Next(m, a);
      var pb := Prev(m, b);
      var nc := Next(m, c);
      var m1 := BoundaryLink(m, a, b);
      BoundaryLinkSteady(m, a, b);
      BoundaryLinkLive(m, a, b);
      var m2 := BoundaryLink(m1, c, na);
      BoundaryLinkSteady(m1, c, na);
      BoundaryLinkLive(m1, c, na);
      var m3 := BoundaryLink(m2, pb, nc);
      BoundaryLinkSteady(m2, pb, nc);
      BoundaryLinkLive(m2, pb, nc);
      SteadyTrans(m, m1, m2);
      SteadyTrans(m, m2, m3);
    } else {
      assert Chain(Relink(m, a, b, c)) == Chain(m);
    }
  }

  /** RELINK for the three corners keeps the free list and live links. */
  lemma RelinkAllSteady(m: Mesh, e: Triple, c: Triple)
    requires FreeMarked(m) && LiveLinks(m) && RelinkReady(m, e, c)
    ensures Steady(m, RelinkAll(m, e, c)) && LiveLinks(RelinkAll(m, e, c))
  {
    var m1 := Relink(m, e.0, e.1, c.0);
    RelinkSteady(m, e.0, e.1, c.0);
    var m2 := Relink(m1, e.1, e.2, c.1);
    RelinkSteady(m1, e.1, e.2, c.1);
    var m3 := Relink(m2, e.2, e.0, c.2);
    RelinkSteady(m2, e.2, e.0, c.2);
    SteadyTrans(m, m1, m2);
    SteadyTrans(m, m2, m3);
  }

  /** The same records: nothing the free list reads has changed. */
  lemma SameRecordsSteady(a: Mesh, b: Mesh)
    requires FreeMarked(a) && b.boundaries == a.boundaries && b.deletedBoundaries == a.deletedBoundaries
    requires b.nBoundaryEdges == a.nBoundaryEdges
    ensures Steady(a, b)
  {
    SameRecordsList(a, b);
  }

  /** A write to the faces, the vertices or the counters of faces keeps the free list. */
  lemma SameRecordsList(a: Mesh, b: Mesh)
    requires b.boundaries == a.boundaries && b.deletedBoundaries == a.deletedBoundaries
    requires b.nBoundaryEdges == a.nBoundaryEdges
    ensures FreeMarked(b) == FreeMarked(a) && Chain(b) == Chain(a)
  {
    FreeChainSameNext(a, b, a.deletedBoundaries, |a.boundaries|);
    assert Chain(b) == Chain(a);
    assert forall x :: FreeRecord(b, x) == FreeRecord(a, x);
  }

  /**
   * unsafe_new_boundary (mesh/CornerMesh.cpp:116-130) with a source that is not the deleted
   * marker keeps the records of the free list marked: it pops the head, which gets that
   * source, or appends a record. The record it returns is not deleted, and the live records
   * are untouched.
   */
  lemma NewBoundaryMarked(m: Mesh, src: int, rev: int)
    requires FreeMarked(m) && src != DeletedId
    ensures var (r, x) := NewBoundary(m, src, rev);
      FreeMarked(r) && !FreeRecord(r, x) && Grows(m, r)
  {
    var (r, x) := NewBoundary(m, src, rev);
    NewBoundaryReuse(m, src, rev);
    NewBoundaryFreeList(m, src, rev);
    var L := |m.boundaries|;
    if m.deletedBoundaries != InvalidId {
      assert x == m.deletedBoundaries && x in Chain(m);
      var rest := FreeChain(m, Next(m, x), L - 1).value;
      assert Chain(m) == [x] + rest;
      FreeChainHead(m, x, L);
      FreeChainSameNext(m, r, Next(m, x), L - 1);
      FreeChainLength(m, Next(m, x), L - 1);
      FreeChainLimit(r, Next(m, x), L - 1, L);
      assert Chain(r) == rest;
      forall b | b in Chain(r) ensures FreeRecord(r, b) {
        assert b in Chain(m) && b != x;
      }
    } else {
      assert Chain(r) == [];
    }
  }

  /** The REVERSE step for one corner. */
  lemma ReverseOrNewMarked(m: Mesh, e: int, src: int, rev: int)
    requires FreeMarked(m) && src != DeletedId && LiveOrNone(m, e)
    ensures var (r, x) := ReverseOrNew(m, e, src, rev);
      FreeMarked(r) && Grows(m, r)
      && (e == InvalidId ==> !FreeRecord(r, x))
      && (e != InvalidId ==> x == Reverse(m, e))
  {
    if e == InvalidId {
      NewBoundaryMarked(m, src, rev);
    }
  }

  lemma GrowsTrans(a: Mesh, b: Mesh, c: Mesh)
    requires Grows(a, b) && Grows(b, c)
    ensures Grows(a, c)
  {
    forall y | LiveRecord(a, y) ensures BoundarySlot(c, y) && c.boundaries[-1 - y] == a.boundaries[-1 - y] {
      assert LiveRecord(b, y);
    }
  }

  /** A live record of a is one of b, with the same reverse. */
  lemma GrowsLive(a: Mesh, b: Mesh, y: int)
    requires Grows(a, b) && LiveRecord(a, y)
    ensures LiveRecord(b, y) && Reverse(b, y) == Reverse(a, y) && Prev(b, y) == Prev(a, y)
  {
  }

  /** One REVERSE step after others: what it gives, and what the earlier ones gave, kept. */
  lemma ReverseStep(m: Mesh, a: Mesh, b: Mesh, x: int, e: int, src: int, rev: int)
    requires FreeMarked(a) && Grows(m, a) && src != DeletedId && LiveOrNone(m, e)
    requires (b, x) == ReverseOrNew(a, e, src, rev)
    ensures FreeMarked(b) && Grows(m, b) && Grows(a, b)
    ensures e == InvalidId ==> !FreeRecord(b, x)
    ensures e != InvalidId ==> x == Reverse(m, e)
  {
    if e != InvalidId {
      GrowsLive(m, a, e);
    }
    ReverseOrNewMarked(a, e, src, rev);
    GrowsTrans(m, a, b);
  }

  /** The three REVERSE steps of NewFace, after the face is appended. */
  lemma ReverseSteps(m: Mesh, m2: Mesh, m3: Mesh, m4: Mesh, m5: Mesh, r: Triple, v: Triple, e: Triple, f: int)
    requires FreeMarked(m) && v.0 != DeletedId && v.1 != DeletedId && v.2 != DeletedId
    requires LiveOrNone(m, e.0) && LiveOrNone(m, e.1) && LiveOrNone(m, e.2)
    requires m2 == m.(nFaces := m.nFaces + 1, faces := m.faces + [FaceInfo(v, (InvalidId, InvalidId, InvalidId))])
    requires (m3, r.0) == ReverseOrNew(m2, e.0, v.1, 3 * f)
    requires (m4, r.1) == ReverseOrNew(m3, e.1, v.2, 3 * f + 1)
    requires (m5, r.2) == ReverseOrNew(m4, e.2, v.0, 3 * f + 2)
    ensures FreeMarked(m5) && Grows(m, m5)
    ensures (e.0 == InvalidId ==> !FreeRecord(m5, r.0)) && (e.0 != InvalidId ==> r.0 == Reverse(m, e.0))
    ensures (e.1 == InvalidId ==> !FreeRecord(m5, r.1)) && (e.1 != InvalidId ==> r.1 == Reverse(m, e.1))
    ensures (e.2 == InvalidId ==> !FreeRecord(m5, r.2)) && (e.2 != InvalidId ==> r.2 == Reverse(m, e.2))
  {
    SameRecordsList(m, m2);
    assert Grows(m, m2);
    ReverseStep(m, m2, m3, r.0, e.0, v.1, 3 * f);
    ReverseStep(m, m3, m4, r.1, e.1, v.2, 3 * f + 1);
    ReverseStep(m, m4, m5, r.2, e.2, v.0, 3 * f + 2);
  }

  /**
   * NewFace appends the face and finds or allocates the reverses r_i: the free list stays
   * marked, live records are untouched, an allocated r_i is not deleted, and a found one is
   * the reverse of the existing edge.
   */
  lemma NewFaceMarked(m: Mesh, v: Triple, e: Triple)
    requires FreeMarked(m) && v.0 != DeletedId && v.1 != DeletedId && v.2 != DeletedId
    requires LiveOrNone(m, e.0) && LiveOrNone(m, e.1) && LiveOrNone(m, e.2)
    ensures var (m', f, r) := NewFace(m, v, e);
      FreeMarked(m') && Grows(m, m')
      && (e.0 == InvalidId ==> !FreeRecord(m', r.0)) && (e.0 != InvalidId ==> r.0 == Reverse(m, e.0))
      && (e.1 == InvalidId ==> !FreeRecord(m', r.1)) && (e.1 != InvalidId ==> r.1 == Reverse(m, e.1))
      && (e.2 == InvalidId ==> !FreeRecord(m', r.2)) && (e.2 != InvalidId ==> r.2 == Reverse(m, e.2))
  {
    var f := |m.faces|;
    var m2 := m.(nFaces := m.nFaces + 1, faces := m.faces + [FaceInfo(v, (InvalidId, InvalidId, InvalidId))]);
    var (m3, r0) := ReverseOrNew(m2, e.0, v.1, 3 * f);
    var (m4, r1) := ReverseOrNew(m3, e.1, v.2, 3 * f + 1);
    var (m5, r2) := ReverseOrNew(m4, e.2, v.0, 3 * f + 2);
    ReverseSteps(m, m2, m3, m4, m5, (r0, r1, r2), v, e, f);
    assert NewFace(m, v, e) == (m5, f, (r0, r1, r2));
  }

  /** The LINK step keeps the free list when, for a new boundary halfedge r_i, neither it
      nor its future prev is a deleted record. */
  lemma LinkSteady(m: Mesh, f: int, i: int, ei: int, ri: int, near: (int, int))
    requires FreeMarked(m)
    requires ei == InvalidId ==> !FreeRecord(m, near.0) && !FreeRecord(m, ri)
    ensures Steady(m, Link(m, f, i, ei, ri, near))
  {
    var m0 := SetReverseOf(m, 3 * f + i, ri);
    SetReverseOfSteady(m, 3 * f + i, ri);
    var m1 := SetReverseOf(m0, ri, 3 * f + i);
    SetReverseOfSteady(m0, ri, 3 * f + i);
    SteadyTrans(m, m0, m1);
    if ei == InvalidId {
      var m2 := BoundaryLink(m1, near.0, ri);
      BoundaryLinkSteady(m1, near.0, ri);
      BoundaryLinkSteady(m2, ri, near.1);
      SteadyTrans(m, m1, m2);
      SteadyTrans(m, m2, BoundaryLink(m2, ri, near.1));
    }
  }

  /** The records LinkFace links behind are not deleted. */
  ghost predicate LinkReady(m: Mesh, e: Triple, r: Triple, ve: Triple)
  {
    (e.0 == InvalidId ==> !FreeRecord(m, Near(m, e.0, e.1, e.2, ve.0, ve.1, r.1, r.2).0) && !FreeRecord(m, r.0))
    && (e.1 == InvalidId ==> !FreeRecord(m, Near(m, e.1, e.2, e.0, ve.1, ve.2, r.2, r.0).0) && !FreeRecord(m, r.1))
    && (e.2 == InvalidId ==> !FreeRecord(m, Near(m, e.2, e.0, e.1, ve.2, ve.0, r.0, r.1).0) && !FreeRecord(m, r.2))
  }

  /** NEAR and LINK for the three corners keep the free list. */
  lemma LinkFaceSteady(m: Mesh, f: int, e: Triple, r: Triple, ve: Triple)
    requires FreeMarked(m) && LinkReady(m, e, r, ve)
    ensures Steady(m, LinkFace(m, f, e, r, ve))
  {
    var near0 := Near(m, e.0, e.1, e.2, ve.0, ve.1, r.1, r.2);
    var near1 := Near(m, e.1, e.2, e.0, ve.1, ve.2, r.2, r.0);
    var near2 := Near(m, e.2, e.0, e.1, ve.2, ve.0, r.0, r.1);
    var m1 := Link(m, f, 0, e.0, r.0, near0);
    LinkSteady(m, f, 0, e.0, r.0, near0);
    var m2 := Link(m1, f, 1, e.1, r.1, near1);
    LinkSteady(m1, f, 1, e.1, r.1, near1);
    var m3 := Link(m2, f, 2, e.2, r.2, near2);
    LinkSteady(m2, f, 2, e.2, r.2, near2);
    SteadyTrans(m, m1, m2);
    SteadyTrans(m, m2, m3);
  }

  /**
   * The future prev of a new boundary halfedge is not a deleted record: it is the prev of a
   * live record or of a face corner (in the mesh before the records were found or
   * allocated, whose live records b keeps), or the next corner's reverse r, not deleted.
   */
  lemma NearNotFree(a: Mesh, b: Mesh, ei: int, ein: int, eip: int, vei: int, vein: int, rin: int, rip: int)
    requires LiveLinks(a) && Grows(a, b)
    requires LiveOrNone(a, ein) && Anchored(a, vein) && !FreeRecord(b, rin)
    ensures !FreeRecord(b, Near(b, ei, ein, eip, vei, vein, rin, rip).0)
  {
    if vein != InvalidId {
      var x := if ein != InvalidId then ein else vein;
      if x < 0 {
        GrowsLive(a, b, x);
        assert LiveRecord(a, Prev(a, x));
      }
    }
  }

  /** unsafe_boundary_link writes prev and next fields only. */
  lemma BoundaryLinkReverse(m: Mesh, p: int, n: int, x: int)
    ensures Reverse(BoundaryLink(m, p, n), x) == Reverse(m, x)
  {
    var m1 := SetNext(m, p, n);
    assert Reverse(m1, x) == Reverse(m, x);
  }

  /** RELINK writes prev and next fields only. */
  lemma RelinkReverse(m: Mesh, a: int, b: int, c: int, x: int)
    ensures Reverse(Relink(m, a, b, c), x) == Reverse(m, x)
  {
    if c != InvalidId {
      var m1 := BoundaryLink(m, a, b);
      var m2 := BoundaryLink(m1, c, Next(m, a));
      BoundaryLinkReverse(m, a, b, x);
      BoundaryLinkReverse(m1, c, Next(m, a), x);
      BoundaryLinkReverse(m2, Prev(m, b), Next(m, c), x);
    }
  }

  lemma RelinkAllReverse(m: Mesh, e: Triple, c: Triple, x: int)
    ensures Reverse(RelinkAll(m, e, c), x) == Reverse(m, x)
  {
    var m1 := Relink(m, e.0, e.1, c.0);
    var m2 := Relink(m1, e.1, e.2, c.1);
    RelinkReverse(m, e.0, e.1, c.0, x);
    RelinkReverse(m1, e.1, e.2, c.1, x);
    RelinkReverse(m2, e.2, e.0, c.2, x);
  }

  /** The stored halfedge of a vertex of a consistent mesh is absent, a face corner or live. */
  lemma AnchoredStored(m: Mesh, m1: Mesh, u: int)
    requires VertexProps(m) && m1.vertexToEdge == m.vertexToEdge && SameSrcs(m, m1)
    ensures Anchored(m1, VertexEdge(m1, u))
  {
    if 0 <= u < |m.vertexToEdge| && m.vertexToEdge[u] != InvalidId {
      assert ValidHalfedge(m, m.vertexToEdge[u]);
    }
  }

  /** A reverse r_j found or allocated by NewFace is not a deleted record. */
  lemma ReverseNotFree(m: Mesh, m1: Mesh, m2: Mesh, ej: int, rj: int)
    requires ReverseLive(m) && SameSrcs(m, m1) && Grows(m1, m2) && LiveOrNone(m, ej)
    requires ej != InvalidId ==> rj == Reverse(m1, ej) && Reverse(m1, ej) == Reverse(m, ej)
    requires ej == InvalidId ==> !FreeRecord(m2, rj)
    ensures !FreeRecord(m2, rj)
  {
    if ej != InvalidId {
      assert ValidHalfedge(m, ej);
      assert ValidHalfedge(m, rj);
      assert !FreeRecord(m1, rj);
    }
  }

  /** NEAR finds, for each new boundary halfedge, a future prev that is not deleted. */
  lemma NearReady(m1: Mesh, m2: Mesh, e: Triple, r: Triple, ve: Triple)
    requires LiveLinks(m1) && Grows(m1, m2)
    requires LiveOrNone(m1, e.0) && LiveOrNone(m1, e.1) && LiveOrNone(m1, e.2)
    requires Anchored(m1, ve.0) && Anchored(m1, ve.1) && Anchored(m1, ve.2)
    requires !FreeRecord(m2, r.0) && !FreeRecord(m2, r.1) && !FreeRecord(m2, r.2)
    ensures LinkReady(m2, e, r, ve)
  {
    NearNotFree(m1, m2, e.0, e.1, e.2, ve.0, ve.1, r.1, r.2);
    NearNotFree(m1, m2, e.1, e.2, e.0, ve.1, ve.2, r.2, r.0);
    NearNotFree(m1, m2, e.2, e.0, e.1, ve.2, ve.0, r.0, r.1);
  }

  /** unsafe_set_deleted(b) on a live record pushes it, marked, on the free list, and
      leaves every other live record live. */
  lemma SetDeletedMarked(m: Mesh, b: int)
    requires FreeMarked(m) && LiveRecord(m, b)
    ensures var r := SetDeleted(m, b);
      FreeMarked(r) && Chain(r) == [b] + Chain(m)
      && forall x :: x != b && LiveRecord(m, x) ==> LiveRecord(r, x)
  {
    LiveOffChain(m, b);
    RoomForRecord(m, b);
    SetDeletedFreeList(m, b);
    var r := SetDeleted(m, b);
    assert Chain(r) == [b] + Chain(m);
    forall x | x in Chain(r) ensures FreeRecord(r, x) {
      if x != b {
        assert x in Chain(m);
      }
    }
  }

  /** Deleting the records of the existing edges, live and distinct, keeps the list marked. */
  lemma DeleteExistingMarked(m: Mesh, e: Triple)
    requires FreeMarked(m) && LiveOrNone(m, e.0) && LiveOrNone(m, e.1) && LiveOrNone(m, e.2)
    requires e.0 != InvalidId ==> e.0 != e.1 && e.0 != e.2
    requires e.1 != InvalidId ==> e.1 != e.2
    ensures FreeMarked(DeleteExisting(m, e))
  {
    var m1 := DeleteIfValid(m, e.0);
    if e.0 != InvalidId { SetDeletedMarked(m, e.0); }
    var m2 := DeleteIfValid(m1, e.1);
    if e.1 != InvalidId { SetDeletedMarked(m1, e.1); }
    if e.2 != InvalidId { SetDeletedMarked(m2, e.2); }
  }

  /** After RELINK and REVERSE: the list is marked, the existing edges are live, and NEAR
      finds no deleted record. */
  lemma SurgeryPrepared(m: Mesh, v: Triple, e: Triple, c: Triple, m1: Mesh, m2: Mesh, f: int, r: Triple)
    requires FreeMarked(m) && LiveLinks(m) && VertexProps(m) && ReverseLive(m) && RelinkReady(m, e, c)
    requires v.0 != DeletedId && v.1 != DeletedId && v.2 != DeletedId
    requires m1 == RelinkAll(m, e, c)
    requires (m2, f, r) == NewFace(m1, v, e)
    ensures FreeMarked(m2) && LinkReady(m2, e, r, (VertexEdge(m1, v.0), VertexEdge(m1, v.1), VertexEdge(m1, v.2)))
    ensures LiveOrNone(m2, e.0) && LiveOrNone(m2, e.1) && LiveOrNone(m2, e.2)
  {
    RelinkAllSteady(m, e, c);
    AnchoredStored(m, m1, v.0);
    AnchoredStored(m, m1, v.1);
    AnchoredStored(m, m1, v.2);
    NewFaceMarked(m1, v, e);
    RelinkAllReverse(m, e, c, e.0);
    RelinkAllReverse(m, e, c, e.1);
    RelinkAllReverse(m, e, c, e.2);
    ReverseNotFree(m, m1, m2, e.0, r.0);
    ReverseNotFree(m, m1, m2, e.1, r.1);
    ReverseNotFree(m, m1, m2, e.2, r.2);
    NearReady(m1, m2, e, r, (VertexEdge(m1, v.0), VertexEdge(m1, v.1), VertexEdge(m1, v.2)));
    if e.0 != InvalidId { GrowsLive(m1, m2, e.0); }
    if e.1 != InvalidId { GrowsLive(m1, m2, e.1); }
    if e.2 != InvalidId { GrowsLive(m1, m2, e.2); }
  }

  /** The deletions of the existing edges after a step that kept the list. */
  lemma SurgeryFinished(m2: Mesh, m3: Mesh, e: Triple)
    requires Steady(m2, m3)
    requires LiveOrNone(m2, e.0) && LiveOrNone(m2, e.1) && LiveOrNone(m2, e.2)
    requires e.0 != InvalidId ==> e.0 != e.1 && e.0 != e.2
    requires e.1 != InvalidId ==> e.1 != e.2
    ensures LiveOrNone(m3, e.0) && LiveOrNone(m3, e.1) && LiveOrNone(m3, e.2)
    ensures FreeMarked(DeleteExisting(m3, e))
  {
    DeleteExistingMarked(m3, e);
  }

  /** The surgery of add_face, from what the checks and consistency leave it. */
  lemma SurgeryMarked(m: Mesh, v: Triple, e: Triple, c: Triple)
    requires FreeMarked(m) && LiveLinks(m) && VertexProps(m) && ReverseLive(m) && RelinkReady(m, e, c)
    requires v.0 != DeletedId && v.1 != DeletedId && v.2 != DeletedId
    requires e.0 == InvalidId || BoundarySlot(m, e.0)
    requires e.1 == InvalidId || BoundarySlot(m, e.1)
    requires e.2 == InvalidId || BoundarySlot(m, e.2)
    ensures FreeMarked(AddFaceSurgery(m, v, e, c).0)
  {
    var m1 := RelinkAll(m, e, c);
    var ve := (VertexEdge(m1, v.0), VertexEdge(m1, v.1), VertexEdge(m1, v.2));
    var (m2, f, r) := NewFace(m1, v, e);
    SurgeryPrepared(m, v, e, c, m1, m2, f, r);
    var m3 := LinkFace(m2, f, e, r, ve);
    LinkFaceSteady(m2, f, e, r, ve);
    SurgeryFinished(m2, m3, e);
    var m4 := DeleteExisting(m3, e);
    var m5 := FixVertices(m4, v, r);
    SameRecordsList(m4, m5);
    assert AddFaceSurgery(m, v, e, c).0 == m5;
  }

  /** add_face from the parts of consistency its surgery needs. */
  lemma AddFaceMarked(m: Mesh, v: Triple)
    requires FreeMarked(m) && LiveLinks(m) && VertexProps(m) && RingProps(m) && Walkable(m)
    requires |m.vertexToEdge| <= DeletedId && AddFace(m, v).Ok?
    ensures FreeMarked(AddFace(m, v).value.0)
  {
    var (e, c) := AddFaceChecks(m, v, false).value;
    ChecksReady(m, v);
    assert ValidVertex(m, v.0) && ValidVertex(m, v.1) && ValidVertex(m, v.2);
    SurgeryMarked(m, v, e, c);
  }

  /**
   * add_face (mesh/CornerMesh.cpp:136-228) on a consistent mesh keeps the free list
   * consistent with n_boundary_edges and every record on it marked deleted. The relinks
   * and links write next fields of live records only, the records it allocates leave the
   * list with their new source, and the records it deletes join it.
   */
  lemma AddFaceFreeList(m: Mesh, v: Triple)
    requires Consistent(m) && FreeMarked(m) && ReverseLive(m) && |m.vertexToEdge| <= DeletedId
    requires AddFace(m, v).Ok?
    ensures FreeListProps(AddFace(m, v).value.0) && FreeMarked(AddFace(m, v).value.0)
  {
    WalkableOf(m);
    LiveLinksOf(m);
    AddFaceMarked(m, v);
  }

  // ---------------------------------------------------------------------------
  // unsafe_delete_face

  /** Every valid halfedge passes the per-halfedge checks. */
  ghost predicate AllHalfedgeProps(m: Mesh)
  {
    forall e :: ValidHalfedge(m, e) ==> HalfedgeProps(m, e)
  }

  /** Reverse is an involution on valid halfedges. */
  ghost predicate ReversePaired(m: Mesh)
  {
    forall e :: ValidHalfedge(m, e) ==> Reverse(m, Reverse(m, e)) == e
  }

  /** Around vertex i: when the neighbour e_(i-1) is a boundary halfedge, its prev is a live
      record other than e_(i-1) itself and e_(i+1). */
  ghost predicate PrevReady(m: Mesh, e: Triple, i: int)
  {
    var ep := Get(e, Pred3(i));
    ep < 0 ==> LiveRecord(m, Prev(m, ep)) && Prev(m, ep) != ep && Prev(m, ep) != Get(e, Succ3(i))
  }

  /** What unsafe_delete_face needs of the neighbours of the face: corners or live boundary
      halfedges, pairwise distinct, with prevs as PrevReady says. */
  ghost predicate DeleteReady(m: Mesh, e: Triple)
  {
    (e.0 >= 0 || LiveRecord(m, e.0)) && (e.1 >= 0 || LiveRecord(m, e.1)) && (e.2 >= 0 || LiveRecord(m, e.2))
    && e.0 != e.1 && e.1 != e.2 && e.0 != e.2
    && PrevReady(m, e, 0) && PrevReady(m, e, 1) && PrevReady(m, e, 2)
  }

  /** The parts of the per-halfedge checks that fix where a neighbour runs. */
  predicate HalfedgeEnds(m: Mesh, e: int)
  {
    Src(m, Reverse(m, e)) == Src(m, Next(m, e)) && Src(m, e) != Dst(m, e)
    && ValidHalfedge(m, Prev(m, e)) && Next(m, Prev(m, e)) == e && Face(Prev(m, e)) == Face(e)
  }

  /** Corner c and its reverse are valid, keep their ends, and pair up. */
  ghost predicate CornerEnds(m: Mesh, c: int)
  {
    ValidHalfedge(m, c) && HalfedgeEnds(m, c) && ValidHalfedge(m, Reverse(m, c))
    && HalfedgeEnds(m, Reverse(m, c)) && Reverse(m, Reverse(m, c)) == c
  }

  ghost predicate FaceEnds(m: Mesh, f: int)
  {
    CornerEnds(m, 3 * f) && CornerEnds(m, 3 * f + 1) && CornerEnds(m, 3 * f + 2)
  }

  lemma CornerSlot(f: int, i: int)
    requires 0 <= f && 0 <= i < 3
    ensures (3 * f + i) / 3 == f && (3 * f + i) % 3 == i
  {
  }

  /** The per-halfedge checks and the pairing of reverses, each used only where its
      instance is named, so that one instance does not feed the next. */
  ghost predicate NamedEnds(m: Mesh)
  {
    (forall e {:trigger HalfedgeProps(m, e)} :: ValidHalfedge(m, e) ==> HalfedgeProps(m, e))
    && (forall e {:trigger Reverse(m, e)} :: ValidHalfedge(m, e) ==> ValidHalfedge(m, Reverse(m, e)))
    && (forall e {:trigger Reverse(m, Reverse(m, e))} :: ValidHalfedge(m, e) ==> Reverse(m, Reverse(m, e)) == e)
  }

  lemma NamedEndsOf(m: Mesh)
    requires AllHalfedgeProps(m) && ReverseLive(m) && ReversePaired(m)
    ensures NamedEnds(m)
  {
  }

  lemma HalfedgeEndsOf(m: Mesh, e: int)
    requires NamedEnds(m) && ValidHalfedge(m, e)
    ensures HalfedgeEnds(m, e) && ValidHalfedge(m, Reverse(m, e)) && Reverse(m, Reverse(m, e)) == e
  {
    assert HalfedgeProps(m, e);
  }

  lemma CornerEndsOf(m: Mesh, f: int, i: int, c: int)
    requires NamedEnds(m) && ValidFace(m, f) && 0 <= i < 3 && c == 3 * f + i
    ensures CornerEnds(m, c)
  {
    CornerSlot(f, i);
    assert ValidHalfedge(m, c);
    HalfedgeEndsOf(m, c);
    HalfedgeEndsOf(m, Reverse(m, c));
  }

  lemma FaceEndsOf(m: Mesh, f: int)
    requires NamedEnds(m) && ValidFace(m, f)
    ensures FaceEnds(m, f)
  {
    CornerEndsOf(m, f, 0, 3 * f);
    CornerEndsOf(m, f, 1, 3 * f + 1);
    CornerEndsOf(m, f, 2, 3 * f + 2);
  }

  /** Neighbour j of a face with vertices vs is valid, keeps its ends, and runs from vertex
      j+1 back to vertex j, which differ. */
  predicate NeighborEnds(m: Mesh, e: Triple, vs: Triple, j: int)
  {
    var ej := Get(e, j);
    ValidHalfedge(m, ej) && HalfedgeEnds(m, ej)
    && Src(m, ej) == Get(vs, Succ3(j)) && Dst(m, ej) == Get(vs, j) && Get(vs, j) != Get(vs, Succ3(j))
  }

  /** The neighbour across corner i of a valid face runs from vertex i+1 back to vertex i. */
  lemma CornerNeighbor(m: Mesh, f: int, i: int, c: int)
    requires c == 3 * f + i && CornerEnds(m, c) && ValidFace(m, f) && 0 <= i < 3
    ensures NeighborEnds(m, m.faces[f].neighbors, m.faces[f].vertices, i)
  {
    CornerSlot(f, i);
    CornerSlot(f, Succ3(i));
    assert Next(m, c) == 3 * f + Succ3(i);
  }

  lemma PrevReadyFrom(m: Mesh, e: Triple, vs: Triple, i: int)
    requires NeighborEnds(m, e, vs, 0) && NeighborEnds(m, e, vs, 1) && NeighborEnds(m, e, vs, 2) && 0 <= i < 3
    ensures PrevReady(m, e, i)
  {
    var ep := Get(e, Pred3(i));
    if ep < 0 {
      assert HalfedgeEnds(m, ep);
      assert Dst(m, Prev(m, ep)) == Src(m, ep);
    }
  }

  lemma DistinctFrom(m: Mesh, e: Triple, vs: Triple)
    requires NeighborEnds(m, e, vs, 0) && NeighborEnds(m, e, vs, 1) && NeighborEnds(m, e, vs, 2)
    ensures (e.0 >= 0 || LiveRecord(m, e.0)) && (e.1 >= 0 || LiveRecord(m, e.1)) && (e.2 >= 0 || LiveRecord(m, e.2))
    ensures e.0 != e.1 && e.1 != e.2 && e.0 != e.2
  {
  }

  /** Neighbours that keep their ends are ready. */
  lemma NeighborsReady(m: Mesh, e: Triple, vs: Triple)
    requires NeighborEnds(m, e, vs, 0) && NeighborEnds(m, e, vs, 1) && NeighborEnds(m, e, vs, 2)
    ensures DeleteReady(m, e)
  {
    PrevReadyFrom(m, e, vs, 0);
    PrevReadyFrom(m, e, vs, 1);
    PrevReadyFrom(m, e, vs, 2);
    DistinctFrom(m, e, vs);
  }

  lemma FaceNeighborEnds(m: Mesh, f: int)
    requires FaceEnds(m, f) && ValidFace(m, f)
    ensures var e := m.faces[f].neighbors; var vs := m.faces[f].vertices;
      NeighborEnds(m, e, vs, 0) && NeighborEnds(m, e, vs, 1) && NeighborEnds(m, e, vs, 2)
  {
    CornerNeighbor(m, f, 0, 3 * f);
    CornerNeighbor(m, f, 1, 3 * f + 1);
    CornerNeighbor(m, f, 2, 3 * f + 2);
  }

  /** The neighbours of a valid face in a mesh whose halfedges keep their ends are ready. */
  lemma DeleteReadyOf(m: Mesh, f: int)
    requires NamedEnds(m) && ValidFace(m, f)
    ensures DeleteReady(m, m.faces[f].neighbors)
  {
    FaceEndsOf(m, f);
    FaceNeighborEnds(m, f);
    NeighborsReady(m, m.faces[f].neighbors, m.faces[f].vertices);
  }

  /** A vertex of a valid face is not the deleted marker: its corner is in its ring. */
  lemma CornerVertexLive(m: Mesh, f: int, i: int)
    requires RingProps(m) && ValidFace(m, f) && |m.vertexToEdge| <= DeletedId && 0 <= i < 3
    ensures Get(m.faces[f].vertices, i) != DeletedId
  {
    var c := 3 * f + i;
    assert c / 3 == f && c % 3 == i && ValidHalfedge(m, c);
    assert c in Outgoing(m, Src(m, c));
    assert VertexEdge(m, Src(m, c)) != InvalidId;
  }

  lemma FaceVerticesLive(m: Mesh, f: int)
    requires RingProps(m) && ValidFace(m, f) && |m.vertexToEdge| <= DeletedId
    ensures var vs := m.faces[f].vertices; vs.0 != DeletedId && vs.1 != DeletedId && vs.2 != DeletedId
  {
    CornerVertexLive(m, f, 0);
    CornerVertexLive(m, f, 1);
    CornerVertexLive(m, f, 2);
  }

  /** The first loop, one neighbour: a live boundary neighbour joins the free list, and its
      prev is remembered. */
  lemma DeleteNearMarked(m: Mesh, ei: int)
    requires FreeMarked(m) && (ei >= 0 || LiveRecord(m, ei))
    ensures var (r, near) := DeleteNear(m, ei);
      FreeMarked(r) && (ei < 0 ==> near.0 == Prev(m, ei))
      && (forall x :: Prev(r, x) == Prev(m, x))
      && forall x :: x != ei && LiveRecord(m, x) ==> LiveRecord(r, x)
  {
    if ei < 0 {
      SetDeletedMarked(m, ei);
    }
  }

  /** The first loop: every boundary neighbour is on the free list, the prevs remembered are
      those of the mesh, and other live records stay live. */
  lemma DeleteNearAllMarked(m: Mesh, e: Triple)
    requires FreeMarked(m) && DeleteReady(m, e)
    ensures var (r, near) := DeleteNearAll(m, e);
      FreeMarked(r)
      && (e.0 < 0 ==> near.0.0 == Prev(m, e.0))
      && (e.1 < 0 ==> near.1.0 == Prev(m, e.1))
      && (e.2 < 0 ==> near.2.0 == Prev(m, e.2))
      && forall x :: x != e.0 && x != e.1 && x != e.2 && LiveRecord(m, x) ==> LiveRecord(r, x)
  {
    var (m1, n0) := DeleteNear(m, e.0);
    DeleteNearMarked(m, e.0);
    var (m2, n1) := DeleteNear(m1, e.1);
    DeleteNearMarked(m1, e.1);
    var (m3, n2) := DeleteNear(m2, e.2);
    DeleteNearMarked(m2, e.2);
  }

  /** The second loop, one neighbour: an interior neighbour gets a fresh record that is not
      deleted. */
  lemma DeleteNewMarked(m: Mesh, f: int, i: int, ei: int)
    requires FreeMarked(m) && 0 <= f < |m.faces| && Get(m.faces[f].vertices, i) != DeletedId
    ensures var (r, b) := DeleteNew(m, f, i, ei);
      FreeMarked(r) && Grows(m, r) && (ei >= 0 ==> !FreeRecord(r, b))
  {
    if ei >= 0 {
      var (m1, b) := NewBoundary(m, Get(m.faces[f].vertices, i), ei);
      NewBoundaryMarked(m, Get(m.faces[f].vertices, i), ei);
      SetReverseOfSteady(m1, ei, b);
      assert SetReverseOf(m1, ei, b).boundaries == m1.boundaries;
    }
  }

  /** The second loop: the fresh records are not deleted, and live records are untouched. */
  lemma DeleteNewAllMarked(m: Mesh, f: int, e: Triple)
    requires FreeMarked(m) && 0 <= f < |m.faces|
    requires var vs := m.faces[f].vertices; vs.0 != DeletedId && vs.1 != DeletedId && vs.2 != DeletedId
    ensures var (r, b) := DeleteNewAll(m, f, e);
      FreeMarked(r) && Grows(m, r)
      && (e.0 >= 0 ==> !FreeRecord(r, b.0))
      && (e.1 >= 0 ==> !FreeRecord(r, b.1))
      && (e.2 >= 0 ==> !FreeRecord(r, b.2))
  {
    var (m1, b0) := DeleteNew(m, f, 0, e.0);
    DeleteNewMarked(m, f, 0, e.0);
    var (m2, b1) := DeleteNew(m1, f, 1, e.1);
    DeleteNewMarked(m1, f, 1, e.1);
    var (m3, b2) := DeleteNew(m2, f, 2, e.2);
    DeleteNewMarked(m2, f, 2, e.2);
    GrowsTrans(m, m1, m2);
    GrowsTrans(m, m2, m3);
  }

  /** The record the third loop links in front of the next one around corner i is not
      deleted, whenever it links. */
  ghost predicate FixSafe(m: Mesh, i: int, e: Triple, near: ((int, int), (int, int), (int, int)), b: Triple)
  {
    var ip := if i > 0 then i - 1 else 2;
    var nearP := if ip == 0 then near.0 else if ip == 1 then near.1 else near.2;
    var prev := if Get(e, ip) >= 0 then Get(b, ip) else nearP.0;
    (Get(e, i) >= 0 || Get(e, ip) >= 0 || prev != Get(e, i)) ==> !FreeRecord(m, prev)
  }

  /** After the first two loops, the third loop links only records that are not deleted. */
  lemma FixSafeFrom(m: Mesh, m1: Mesh, m2: Mesh, e: Triple, near: ((int, int), (int, int), (int, int)), b: Triple, i: int)
    requires DeleteReady(m, e) && 0 <= i < 3
    requires e.0 < 0 ==> near.0.0 == Prev(m, e.0)
    requires e.1 < 0 ==> near.1.0 == Prev(m, e.1)
    requires e.2 < 0 ==> near.2.0 == Prev(m, e.2)
    requires forall x :: x != e.0 && x != e.1 && x != e.2 && LiveRecord(m, x) ==> LiveRecord(m1, x)
    requires Grows(m1, m2)
    requires e.0 >= 0 ==> !FreeRecord(m2, b.0)
    requires e.1 >= 0 ==> !FreeRecord(m2, b.1)
    requires e.2 >= 0 ==> !FreeRecord(m2, b.2)
    ensures FixSafe(m2, i, e, near, b)
  {
    var ip := Pred3(i);
    var ep := Get(e, ip);
    if ep < 0 {
      var p := Prev(m, ep);
      assert PrevReady(m, e, i);
      if Get(e, i) >= 0 || p != Get(e, i) {
        assert LiveRecord(m1, p);
      }
    }
  }

  lemma SteadyFree(a: Mesh, b: Mesh)
    requires Steady(a, b)
    ensures forall x :: FreeRecord(b, x) == FreeRecord(a, x)
  {
  }

  /** The third loop, corner i: a link from a record that is not deleted keeps the list. */
  lemma DeleteFixSteady(m: Mesh, f: int, i: int, e: Triple, near: ((int, int), (int, int), (int, int)), b: Triple)
    requires FreeMarked(m) && 0 <= f < |m.faces| && 0 <= i < 3 && FixSafe(m, i, e, near, b)
    ensures Steady(m, DeleteFix(m, f, i, e, near, b))
  {
    var ip := if i > 0 then i - 1 else 2;
    var nearI := if i == 0 then near.0 else if i == 1 then near.1 else near.2;
    var nearP := if ip == 0 then near.0 else if ip == 1 then near.1 else near.2;
    var prev := if Get(e, ip) >= 0 then Get(b, ip) else nearP.0;
    var next := if Get(e, i) >= 0 then Get(b, i) else nearI.1;
    var r := DeleteFix(m, f, i, e, near, b);
    if Get(e, i) >= 0 || Get(e, ip) >= 0 || prev != Get(e, i) {
      BoundaryLinkSteady(m, prev, next);
      var m1 := BoundaryLink(m, prev, next);
      SameRecordsList(m1, r);
      SteadyTrans(m, m1, r);
    } else {
      SameRecordsList(m, r);
    }
  }

  /** The third loop keeps the list when each corner links only records not deleted. */
  lemma DeleteFixAllSteady(m: Mesh, f: int, e: Triple, near: ((int, int), (int, int), (int, int)), b: Triple)
    requires FreeMarked(m) && 0 <= f < |m.faces|
    requires FixSafe(m, 0, e, near, b) && FixSafe(m, 1, e, near, b) && FixSafe(m, 2, e, near, b)
    ensures Steady(m, DeleteFixAll(m, f, e, near, b))
  {
    var m1 := DeleteFix(m, f, 0, e, near, b);
    DeleteFixSteady(m, f, 0, e, near, b);
    SteadyFree(m, m1);
    var m2 := DeleteFix(m1, f, 1, e, near, b);
    DeleteFixSteady(m1, f, 1, e, near, b);
    SteadyFree(m1, m2);
    DeleteFixSteady(m2, f, 2, e, near, b);
    SteadyTrans(m, m1, m2);
    SteadyTrans(m, m2, DeleteFixAll(m, f, e, near, b));
  }

  /** Renaming the last face writes face records, reverse fields and stored halfedges only. */
  lemma RenameLastSteady(m: Mesh, f: int)
    requires FreeMarked(m) && 0 <= f < |m.faces|
    ensures Steady(m, RenameLast(m, f))
  {
    LinksKeptList(m, RenameLast(m, f));
  }

  /** The three loops and the renaming, from the intermediate meshes. */
  lemma DeleteStages(m: Mesh, f: int, e: Triple, m1: Mesh, near: ((int, int), (int, int), (int, int)), m2: Mesh, b: Triple)
    requires FreeMarked(m) && 0 <= f < |m.faces| && DeleteReady(m, e)
    requires var vs := m.faces[f].vertices; vs.0 != DeletedId && vs.1 != DeletedId && vs.2 != DeletedId
    requires (m1, near) == DeleteNearAll(m, e)
    requires (m2, b) == DeleteNewAll(m1, f, e)
    ensures FreeMarked(RenameLast(DeleteFixAll(m2, f, e, near, b), f))
  {
    DeleteNearAllMarked(m, e);
    DeleteNewAllMarked(m1, f, e);
    FixSafeFrom(m, m1, m2, e, near, b, 0);
    FixSafeFrom(m, m1, m2, e, near, b, 1);
    FixSafeFrom(m, m1, m2, e, near, b, 2);
    var m3 := DeleteFixAll(m2, f, e, near, b);
    DeleteFixAllSteady(m2, f, e, near, b);
    RenameLastSteady(m3, f);
  }

  /** unsafe_delete_face from the readiness of the neighbours. */
  lemma UnsafeDeleteFaceMarked(m: Mesh, f: int)
    requires FreeMarked(m) && 0 <= f < |m.faces| && DeleteReady(m, m.faces[f].neighbors)
    requires var vs := m.faces[f].vertices; vs.0 != DeletedId && vs.1 != DeletedId && vs.2 != DeletedId
    ensures FreeMarked(UnsafeDeleteFace(m, f))
  {
    var e := m.faces[f].neighbors;
    var p1 := DeleteNearAll(m, e);
    var p2 := DeleteNewAll(p1.0, f, e);
    DeleteStages(m, f, e, p1.0, p1.1, p2.0, p2.1);
    var m4 := RenameLast(DeleteFixAll(p2.0, f, e, p1.1, p2.1), f);
    SameRecordsList(m4, UnsafeDeleteFace(m, f));
  }

  /**
   * unsafe_delete_face (mesh/CornerMesh.cpp:470-519) on a consistent mesh whose reverses
   * pair up keeps the free list consistent with n_boundary_edges and every record on it
   * marked deleted. The boundary neighbours join the list; the new boundary halfedges
   * leave it with a vertex as source; the links of the third loop start from a new record
   * or from the live prev of a deleted neighbour.
   */
  lemma UnsafeDeleteFaceFreeList(m: Mesh, f: int)
    requires Consistent(m) && FreeMarked(m) && ReverseLive(m) && ReversePaired(m)
    requires |m.vertexToEdge| <= DeletedId && ValidFace(m, f)
    ensures FreeListProps(UnsafeDeleteFace(m, f)) && FreeMarked(UnsafeDeleteFace(m, f))
  {
    NamedEndsOf(m);
    DeleteReadyOf(m, f);
    FaceVerticesLive(m, f);
    UnsafeDeleteFaceMarked(m, f);
  }
}
