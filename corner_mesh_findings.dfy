/**
 * The closed-ring check of add_face (mesh/CornerMesh.cpp:156-162). For consecutive
 * boundary halfedges a, b of the new face that are not yet linked, the source computes
 * c, the boundary halfedge on the far side of b's triangle fan, and rejects the face
 * when b == c. That comparison never fires: c ends at the source of b, so c == b would
 * be a halfedge from a vertex to itself. The evident intent is a == c: when the fan of b
 * ends at a, the new face closes that fan into a ring and cuts it off from the other
 * fans at the vertex, and the RELINK surgery that follows overwrites next(a).
 *
 * This module builds a mesh that add_face itself produces (two triangles meeting at
 * vertex 0), shows that the check as written accepts the face (1,0,2) on it and leaves
 * a mesh that fails the reachability check of assert_consistent, and that the corrected
 * check rejects it.
 */
module CornerMeshFindings {
  import opened CornerMesh
  import opened CornerMeshLemmas

  const NoEdges: Triple := (InvalidId, InvalidId, InvalidId)

  /** Five isolated vertices. */
  function FiveVertices(): (r: Mesh)
    ensures r == AddVertices(NewMesh(), 5)
  {
    Mesh([], [InvalidId, InvalidId, InvalidId, InvalidId, InvalidId], [], InvalidId, 5, 0, 0)
  }

  /** The triangle (0,1,2) with its boundary loop 1->0, 0->2, 2->1. */
  function OneTriangle(): Mesh
  {
    Mesh(
      [FaceInfo((0, 1, 2), (-1, -2, -3))],
      [-3, -1, -2, InvalidId, InvalidId],
      [BoundaryInfo(-2, -3, 0, 1), BoundaryInfo(-3, -1, 1, 2), BoundaryInfo(-1, -2, 2, 0)],
      InvalidId, 5, 1, 3)
  }

  /** Triangles (0,1,2) and (0,3,4) meeting at vertex 0, with one boundary loop through
      both fans: 1->0, 0->4, 4->3, 3->0, 0->2, 2->1. */
  function Bowtie(): Mesh
  {
    Mesh(
      [FaceInfo((0, 1, 2), (-1, -2, -3)), FaceInfo((0, 3, 4), (-4, -5, -6))],
      [-6, -1, -2, -4, -5],
      [BoundaryInfo(-2, -6, 0, 1), BoundaryInfo(-3, -1, 1, 2), BoundaryInfo(-4, -2, 2, 0),
       BoundaryInfo(-5, -3, 3, 3), BoundaryInfo(-6, -4, 4, 4), BoundaryInfo(-1, -5, 5, 0)],
      InvalidId, 5, 2, 6)
  }

  // ---------------------------------------------------------------------------
  // Building the bowtie with add_face

  /** A new boundary halfedge on a mesh without free records is appended. */
  lemma FreshBoundary(m: Mesh, src: int, rev: int)
    requires m.deletedBoundaries == InvalidId && |m.boundaries| < 10
    ensures NewBoundary(m, src, rev) ==
      (m.(boundaries := m.boundaries + [BoundaryInfo(InvalidId, InvalidId, rev, src)],
          nBoundaryEdges := m.nBoundaryEdges + 1), -1 - |m.boundaries|)
  {
    var e := -1 - |m.boundaries|;
    var m2 := m.(nBoundaryEdges := m.nBoundaryEdges + 1, boundaries := m.boundaries + [BlankBoundary]);
    assert BoundarySlot(m2, e) && m2.boundaries[-1 - e] == BlankBoundary;
    assert NewBoundary(m, src, rev) == (SetBoundary(m2, e, BlankBoundary.(src := src, reverse := rev)), e);
    assert m2.boundaries[-1 - e := BoundaryInfo(InvalidId, InvalidId, rev, src)]
      == m.boundaries + [BoundaryInfo(InvalidId, InvalidId, rev, src)];
  }

  /** A face with no existing edges on a mesh without free records appends three boundary
      records, one per corner. */
  lemma FreshFace(m: Mesh, v: Triple)
    requires m.deletedBoundaries == InvalidId && |m.boundaries| < 5
    ensures var f := |m.faces|; var n := |m.boundaries|;
      NewFace(m, v, NoEdges) ==
        (m.(nFaces := m.nFaces + 1, faces := m.faces + [FaceInfo(v, NoEdges)],
            boundaries := m.boundaries + [BoundaryInfo(InvalidId, InvalidId, 3 * f, v.1),
              BoundaryInfo(InvalidId, InvalidId, 3 * f + 1, v.2), BoundaryInfo(InvalidId, InvalidId, 3 * f + 2, v.0)],
            nBoundaryEdges := m.nBoundaryEdges + 3), f, (-1 - n, -2 - n, -3 - n))
  {
    var f := |m.faces|;
    var m2 := m.(nFaces := m.nFaces + 1, faces := m.faces + [FaceInfo(v, NoEdges)]);
    FreshBoundary(m2, v.1, 3 * f);
    var a := NewBoundary(m2, v.1, 3 * f);
    FreshBoundary(a.0, v.2, 3 * f + 1);
    var b := NewBoundary(a.0, v.2, 3 * f + 1);
    FreshBoundary(b.0, v.0, 3 * f + 2);
    var c := NewBoundary(b.0, v.0, 3 * f + 2);
    assert NewFace(m, v, NoEdges) == (c.0, f, (a.1, b.1, c.1));
    assert c.0.boundaries == m.boundaries + [BoundaryInfo(InvalidId, InvalidId, 3 * f, v.1),
              BoundaryInfo(InvalidId, InvalidId, 3 * f + 1, v.2), BoundaryInfo(InvalidId, InvalidId, 3 * f + 2, v.0)];
  }

  /** The new face (0,1,2) on a mesh without faces or boundary halfedges. */
  lemma FirstNewFace(m: Mesh)
    requires m.faces == [] && m.boundaries == [] && m.deletedBoundaries == InvalidId
    ensures NewFace(m, (0, 1, 2), NoEdges) ==
      (Mesh([FaceInfo((0, 1, 2), NoEdges)], m.vertexToEdge,
            [BoundaryInfo(InvalidId, InvalidId, 0, 1), BoundaryInfo(InvalidId, InvalidId, 1, 2),
             BoundaryInfo(InvalidId, InvalidId, 2, 0)],
            InvalidId, m.nVertices, m.nFaces + 1, m.nBoundaryEdges + 3), 0, (-1, -2, -3))
  {
    FreshFace(m, (0, 1, 2));
    assert m.faces + [FaceInfo((0, 1, 2), NoEdges)] == [FaceInfo((0, 1, 2), NoEdges)];
    assert m.boundaries + [BoundaryInfo(InvalidId, InvalidId, 0, 1), BoundaryInfo(InvalidId, InvalidId, 1, 2),
      BoundaryInfo(InvalidId, InvalidId, 2, 0)] == [BoundaryInfo(InvalidId, InvalidId, 0, 1),
      BoundaryInfo(InvalidId, InvalidId, 1, 2), BoundaryInfo(InvalidId, InvalidId, 2, 0)];
  }

  lemma FirstLinkAndFix()
    ensures var m2 := Mesh([FaceInfo((0, 1, 2), NoEdges)], FiveVertices().vertexToEdge,
            [BoundaryInfo(InvalidId, InvalidId, 0, 1), BoundaryInfo(InvalidId, InvalidId, 1, 2),
             BoundaryInfo(InvalidId, InvalidId, 2, 0)],
            InvalidId, 5, 1, 3);
      FixVertices(DeleteExisting(LinkFace(m2, 0, NoEdges, (-1, -2, -3), NoEdges), NoEdges), (0, 1, 2), (-1, -2, -3))
      == OneTriangle()
  {
  }

  /** add_face((0,1,2)) on five isolated vertices. */
  lemma FirstFace()
    ensures AddFace(FiveVertices(), (0, 1, 2)) == Ok((OneTriangle(), 0))
  {
    var m := FiveVertices();
    assert AddFaceChecks(m, (0, 1, 2), false) == Ok((NoEdges, NoEdges));
    assert RelinkAll(m, NoEdges, NoEdges) == m;
    FirstNewFace(m);
    FirstLinkAndFix();
  }

  lemma SecondNewFace()
    ensures NewFace(OneTriangle(), (0, 3, 4), NoEdges) ==
      (Bowtie().(faces := [Bowtie().faces[0], FaceInfo((0, 3, 4), NoEdges)],
                 vertexToEdge := OneTriangle().vertexToEdge,
                 boundaries := OneTriangle().boundaries +
                   [BoundaryInfo(InvalidId, InvalidId, 3, 3), BoundaryInfo(InvalidId, InvalidId, 4, 4),
                    BoundaryInfo(InvalidId, InvalidId, 5, 0)]), 1, (-4, -5, -6))
  {
    var m := OneTriangle();
    FreshFace(m, (0, 3, 4));
    assert m.faces + [FaceInfo((0, 3, 4), NoEdges)] == [Bowtie().faces[0], FaceInfo((0, 3, 4), NoEdges)];
  }

  lemma SecondLinkAndFix()
    ensures var m2 := Bowtie().(faces := [Bowtie().faces[0], FaceInfo((0, 3, 4), NoEdges)],
                 vertexToEdge := OneTriangle().vertexToEdge,
                 boundaries := OneTriangle().boundaries +
                   [BoundaryInfo(InvalidId, InvalidId, 3, 3), BoundaryInfo(InvalidId, InvalidId, 4, 4),
                    BoundaryInfo(InvalidId, InvalidId, 5, 0)]);
      FixVertices(DeleteExisting(LinkFace(m2, 1, NoEdges, (-4, -5, -6), (-3, InvalidId, InvalidId)), NoEdges),
                  (0, 3, 4), (-4, -5, -6))
      == Bowtie()
  {
  }

  /** add_face((0,3,4)) on the triangle: the second fan at vertex 0. */
  lemma SecondFace()
    ensures AddFace(OneTriangle(), (0, 3, 4)) == Ok((Bowtie(), 1))
  {
    var m := OneTriangle();
    assert HalfedgeBetween(m, 0, 3) == InvalidId;
    assert AddFaceChecks(m, (0, 3, 4), false) == Ok((NoEdges, NoEdges));
    assert RelinkAll(m, NoEdges, NoEdges) == m;
    SecondNewFace();
    SecondLinkAndFix();
  }

  /** The bowtie is what add_faces makes of the two triangles. */
  lemma BowtieBuilt()
    ensures AddFaces(AddVertices(NewMesh(), 5), [(0, 1, 2), (0, 3, 4)]) == Ok(Bowtie())
  {
    var vs: seq<Triple> := [(0, 1, 2), (0, 3, 4)];
    assert vs[1..] == [(0, 3, 4)] && |vs[1..][1..]| == 0;
    assert AddVertices(NewMesh(), 5) == FiveVertices();
    assert AddFaces(FiveVertices(), vs) == AddFaces(OneTriangle(), vs[1..]) by {
      FirstFace();
    }
    assert AddFaces(OneTriangle(), vs[1..]) == AddFaces(Bowtie(), vs[1..][1..]) by {
      SecondFace();
    }
  }

  // ---------------------------------------------------------------------------
  // The bowtie passes assert_consistent

  /** The live halfedges of the bowtie: six face corners and six boundary records. */
  lemma BowtieHalfedgeIds(e: int)
    requires ValidHalfedge(Bowtie(), e)
    ensures -6 <= e <= 5
  {
  }

  /** The halfedge of the bowtie from s to d, read off the picture. */
  function BowtieEdgeOf(s: int, d: int): int
  {
    if (s, d) == (0, 1) then 0 else if (s, d) == (1, 2) then 1 else if (s, d) == (2, 0) then 2
    else if (s, d) == (0, 3) then 3 else if (s, d) == (3, 4) then 4 else if (s, d) == (4, 0) then 5
    else if (s, d) == (1, 0) then -1 else if (s, d) == (2, 1) then -2 else if (s, d) == (0, 2) then -3
    else if (s, d) == (3, 0) then -4 else if (s, d) == (4, 3) then -5 else if (s, d) == (0, 4) then -6
    else InvalidId
  }

  /** Each halfedge is the only one between its end points. */
  lemma BowtieEnds(e: int)
    requires ValidHalfedge(Bowtie(), e)
    ensures BowtieEdgeOf(Src(Bowtie(), e), Dst(Bowtie(), e)) == e
  {
    BowtieHalfedgeIds(e);
  }

  lemma BowtieDistinctPairs()
    ensures DistinctPairs(Bowtie())
  {
    var m := Bowtie();
    forall e, e' | ValidHalfedge(m, e) && ValidHalfedge(m, e') && e != e'
      ensures (Src(m, e), Dst(m, e)) != (Src(m, e'), Dst(m, e'))
    {
      BowtieEnds(e);
      BowtieEnds(e');
    }
  }

  /** The four halfedges out of the shared vertex, counterclockwise from its stored one. */
  lemma BowtieCentre()
    ensures Outgoing(Bowtie(), 0) == [-6, 0, -3, 3]
  {
    var m := Bowtie();
    assert Left(m, -6) == 0 && Left(m, 0) == -3 && Left(m, -3) == 3 && Left(m, 3) == -6;
    assert RingFrom(m, -6, 3, 9) == [3];
    assert RingFrom(m, -6, -3, 10) == [-3, 3];
    assert RingFrom(m, -6, 0, 11) == [0, -3, 3];
  }

  /** The two halfedges out of each of the other vertices. */
  lemma BowtieTips()
    ensures Outgoing(Bowtie(), 1) == [-1, 1] && Outgoing(Bowtie(), 2) == [-2, 2]
    ensures Outgoing(Bowtie(), 3) == [-4, 4] && Outgoing(Bowtie(), 4) == [-5, 5]
  {
    var m := Bowtie();
    assert Left(m, -1) == 1 && Left(m, 1) == -1;
    assert Left(m, -2) == 2 && Left(m, 2) == -2;
    assert Left(m, -4) == 4 && Left(m, 4) == -4;
    assert Left(m, -5) == 5 && Left(m, 5) == -5;
  }

  /** Every live halfedge is reached from the stored halfedge of its source. */
  lemma BowtieReached(e: int)
    requires ValidHalfedge(Bowtie(), e)
    ensures e in Outgoing(Bowtie(), Src(Bowtie(), e))
  {
    BowtieHalfedgeIds(e);
    BowtieCentre();
    BowtieTips();
  }

  /** The ring of each vertex holds halfedges leaving it, a boundary one among them. */
  lemma BowtieRingCentre()
    ensures RingOf(Bowtie(), 0)
  {
    BowtieCentre();
    assert IsBoundary(-6);
  }

  lemma BowtieRingTip(v: int)
    requires 1 <= v < 5
    ensures RingOf(Bowtie(), v)
  {
    BowtieTips();
    var m := Bowtie();
    if v == 1 { assert IsBoundary(-1); }
    else if v == 2 { assert IsBoundary(-2); }
    else if v == 3 { assert IsBoundary(-4); }
    else { assert IsBoundary(-5); }
  }

  /** The vertex part of the ring invariant, one vertex at a time. */
  ghost predicate RingOf(m: Mesh, v: int)
  {
    (forall e :: e in Outgoing(m, v) ==> ValidHalfedge(m, e) && Src(m, e) == v)
    && (VertexEdge(m, v) != InvalidId ==> (IsBoundaryVertex(m, v) <==> exists e :: e in Outgoing(m, v) && IsBoundary(e)))
  }

  /** The ring invariant from its per-vertex and per-halfedge parts. */
  lemma RingPropsIntro(m: Mesh)
    requires forall v :: 0 <= v < |m.vertexToEdge| ==> RingOf(m, v)
    requires forall e :: ValidHalfedge(m, e) ==> e in Outgoing(m, Src(m, e))
    ensures RingProps(m)
  {
    forall v, e | 0 <= v < |m.vertexToEdge| && e in Outgoing(m, v) ensures ValidHalfedge(m, e) && Src(m, e) == v {
      assert RingOf(m, v);
    }
    forall v | 0 <= v < |m.vertexToEdge| && m.vertexToEdge[v] != InvalidId
      ensures IsBoundaryVertex(m, v) <==> exists e :: e in Outgoing(m, v) && IsBoundary(e)
    {
      assert RingOf(m, v);
    }
  }

  lemma BowtieAllReached()
    ensures forall e :: ValidHalfedge(Bowtie(), e) ==> e in Outgoing(Bowtie(), Src(Bowtie(), e))
  {
    forall e | ValidHalfedge(Bowtie(), e) ensures e in Outgoing(Bowtie(), Src(Bowtie(), e)) {
      BowtieReached(e);
    }
  }

  lemma BowtieRings()
    ensures forall v :: 0 <= v < |Bowtie().vertexToEdge| ==> RingOf(Bowtie(), v)
  {
    forall v | 0 <= v < |Bowtie().vertexToEdge| ensures RingOf(Bowtie(), v) {
      if v == 0 { BowtieRingCentre(); } else { BowtieRingTip(v); }
    }
  }

  lemma BowtieRingProps()
    ensures RingProps(Bowtie())
  {
    BowtieAllReached();
    BowtieRings();
    RingPropsIntro(Bowtie());
  }

  /** The per-halfedge checks on the corners of the first face. */
  lemma BowtieFirstCorners(e: int)
    requires 0 <= e < 3
    ensures HalfedgeProps(Bowtie(), e)
  {
  }

  /** The per-halfedge checks on the corners of the second face. */
  lemma BowtieSecondCorners(e: int)
    requires 3 <= e < 6
    ensures HalfedgeProps(Bowtie(), e)
  {
  }

  /** The per-halfedge checks on the boundary records of the first fan. */
  lemma BowtieFirstBoundary(e: int)
    requires -3 <= e < 0
    ensures HalfedgeProps(Bowtie(), e)
  {
  }

  /** The per-halfedge checks on the boundary records of the second fan. */
  lemma BowtieSecondBoundary(e: int)
    requires -6 <= e < -3
    ensures HalfedgeProps(Bowtie(), e)
  {
  }

  lemma BowtieHalfedges()
    ensures forall e :: ValidHalfedge(Bowtie(), e) ==> HalfedgeProps(Bowtie(), e)
  {
    forall e | ValidHalfedge(Bowtie(), e) ensures HalfedgeProps(Bowtie(), e) {
      BowtieHalfedgeIds(e);
      if e >= 3 { BowtieSecondCorners(e); }
      else if e >= 0 { BowtieFirstCorners(e); }
      else if e >= -3 { BowtieFirstBoundary(e); }
      else { BowtieSecondBoundary(e); }
    }
  }

  /** The stored halfedges, the counts and the (empty) free list. */
  lemma BowtieCounts()
    ensures VertexProps(Bowtie()) && FaceProps(Bowtie()) && Parity(Bowtie()) && FreeListProps(Bowtie())
  {
    var m := Bowtie();
    assert LiveFaces(m) == [0, 1];
  }

  /**
   * The bowtie, which add_faces builds from (0,1,2) and (0,3,4), satisfies every check of
   * assert_consistent, the ring and distinct-pair invariants among them.
   */
  lemma BowtieConsistent()
    ensures Consistent(Bowtie())
  {
    BowtieCounts();
    BowtieHalfedges();
    BowtieDistinctPairs();
    BowtieRingProps();
  }

  // ---------------------------------------------------------------------------
  // Adding (1,0,2) to the bowtie

  lemma BowtieEdges()
    ensures HalfedgeBetween(Bowtie(), 1, 0) == -1
    ensures HalfedgeBetween(Bowtie(), 0, 2) == -3
    ensures HalfedgeBetween(Bowtie(), 2, 1) == -2
  {
    var m := Bowtie();
    assert Dst(m, -1) == 0 && Dst(m, -3) == 2 && Dst(m, -2) == 1;
    assert Left(m, -6) == 0 && Left(m, 0) == -3;
  }

  /** The far side of the fan of 0->2 is 1->0 itself; the other two pairs are already linked. */
  lemma BowtiePrepare()
    ensures Prepare(Bowtie(), -1, -3) == -1
    ensures Prepare(Bowtie(), -3, -2) == InvalidId
    ensures Prepare(Bowtie(), -2, -1) == InvalidId
  {
    var m := Bowtie();
    assert Reverse(m, Next(m, Reverse(m, -3))) == -1;
  }

  /** The two versions of the check disagree on the face (1,0,2). */
  lemma BowtieChecks()
    ensures AddFaceChecks(Bowtie(), (1, 0, 2), true) == Ok(((-1, -3, -2), (-1, InvalidId, InvalidId)))
    ensures AddFaceChecks(Bowtie(), (1, 0, 2), false) == Err(RuntimeError)
  {
    BowtieEdges();
    BowtiePrepare();
  }

  lemma BowtieRelinked()
    ensures var m1 := RelinkAll(Bowtie(), (-1, -3, -2), (-1, InvalidId, InvalidId));
      m1.faces == Bowtie().faces && m1.vertexToEdge == Bowtie().vertexToEdge && |m1.boundaries| == 6
      && Reverse(m1, -1) == 0 && Reverse(m1, -3) == 2 && Reverse(m1, -2) == 1 && m1.boundaries[5].src == 0
      && Next(m1, -1) == -6
  {
  }

  lemma NewFaceExisting(m: Mesh, v: Triple, e: Triple)
    requires e.0 != InvalidId && e.1 != InvalidId && e.2 != InvalidId
    ensures NewFace(m, v, e).2 == (Reverse(m, e.0), Reverse(m, e.1), Reverse(m, e.2))
    ensures NewFace(m, v, e).0.boundaries == m.boundaries
  {
  }

  lemma LinkExisting(m: Mesh, f: int, i: int, ei: int, ri: int, near: (int, int))
    requires ei != InvalidId
    ensures Link(m, f, i, ei, ri, near) == SetReverse(m, f, i, ri)
  {
  }

  lemma SetReverseKeepsBoundary(m: Mesh, f: int, i: int, r: int, k: int)
    requires 0 <= f && 0 <= i && 0 <= k < |m.boundaries| && r != -1 - k
    ensures SetReverse(m, f, i, r).boundaries[k] == m.boundaries[k]
  {
  }

  lemma DeleteKeepsBoundary(m: Mesh, b: int, k: int)
    requires 0 <= k < |m.boundaries| && b != -1 - k
    ensures DeleteIfValid(m, b).boundaries[k] == m.boundaries[k]
  {
  }

  /** The LINK step of adding face 2 = (1,0,2) whose three edges already exist. */
  lemma LinkBowtieFace(m2: Mesh, ve: Triple)
    requires |m2.faces| == 3 && |m2.boundaries| == 6 && m2.boundaries[5].src == 0
    ensures var m3 := LinkFace(m2, 2, (-1, -3, -2), (0, 2, 1), ve);
      Reverse(m3, 6) == 0 && Reverse(m3, 2) == 7 && m3.boundaries[5].src == 0
      && |m3.faces| == 3 && |m3.boundaries| == 6 && m3.vertexToEdge == m2.vertexToEdge
  {
    var e := (-1, -3, -2);
    var ma := SetReverse(m2, 2, 0, 0);
    var mb := SetReverse(ma, 2, 1, 2);
    var m3 := SetReverse(mb, 2, 2, 1);
    LinkExisting(m2, 2, 0, e.0, 0, Near(m2, e.0, e.1, e.2, ve.0, ve.1, 2, 1));
    LinkExisting(ma, 2, 1, e.1, 2, Near(m2, e.1, e.2, e.0, ve.1, ve.2, 1, 0));
    LinkExisting(mb, 2, 2, e.2, 1, Near(m2, e.2, e.0, e.1, ve.2, ve.0, 0, 2));
    assert LinkFace(m2, 2, e, (0, 2, 1), ve) == m3;
    ReverseAfterSetReverse(m2, 2, 0, 0, 6);
    ReverseAfterSetReverse(ma, 2, 1, 2, 6);
    ReverseAfterSetReverse(mb, 2, 2, 1, 6);
    ReverseAfterSetReverse(m2, 2, 0, 0, 2);
    ReverseAfterSetReverse(ma, 2, 1, 2, 2);
    ReverseAfterSetReverse(mb, 2, 2, 1, 2);
    SetReverseKeepsBoundary(m2, 2, 0, 0, 5);
    SetReverseKeepsBoundary(ma, 2, 1, 2, 5);
    SetReverseKeepsBoundary(mb, 2, 2, 1, 5);
  }

  /** The deletions and the vertex fix after that LINK step: vertex 0 ends up storing the
      interior halfedge 0, whose ring is {0, 7}. */
  lemma FinishBowtieFace(m3: Mesh)
    requires |m3.faces| == 3 && |m3.boundaries| == 6 && |m3.vertexToEdge| == 5
    requires Reverse(m3, 6) == 0 && Reverse(m3, 2) == 7 && m3.boundaries[5].src == 0
    ensures var r := FixVertices(DeleteExisting(m3, (-1, -3, -2)), (1, 0, 2), (0, 2, 1));
      Outgoing(r, 0) == [0, 7] && ValidHalfedge(r, -6) && Src(r, -6) == 0
  {
    var e := (-1, -3, -2);
    var m4 := DeleteExisting(m3, e);
    assert m4.faces == m3.faces;
    assert Left(m4, 0) == 7 && Left(m4, 7) == 0;
    var mx := FixVertexToEdge(m4, 1, 1);
    assert mx.faces == m4.faces && Left(mx, 0) == 7 && Left(mx, 7) == 0;
    assert FirstBoundaryAround(mx, 0, 0, Slots(mx)) == 0;
    var my := FixVertexToEdge(mx, 0, 0);
    assert my.vertexToEdge[0] == 0;
    var m5 := FixVertexToEdge(my, 2, 2);
    assert m5.vertexToEdge[0] == 0 && m5.faces == m4.faces;
    assert Left(m5, 0) == 7 && Left(m5, 7) == 0;
    assert RingFrom(m5, 0, 0, Slots(m5)) == [0, 7];
    var d1 := DeleteIfValid(m3, -1);
    var d2 := DeleteIfValid(d1, -3);
    DeleteKeepsBoundary(m3, -1, 5);
    DeleteKeepsBoundary(d1, -3, 5);
    DeleteKeepsBoundary(d2, -2, 5);
    assert m4.boundaries[5] == m3.boundaries[5];
    assert m5.boundaries == m4.boundaries;
  }

  /** The surgery add_face performs once the check as written has let (1,0,2) through. */
  lemma ClosedRingSurgery()
    ensures var r := AddFaceSurgery(Bowtie(), (1, 0, 2), (-1, -3, -2), (-1, InvalidId, InvalidId)).0;
      Outgoing(r, 0) == [0, 7] && ValidHalfedge(r, -6) && Src(r, -6) == 0
  {
    var m := Bowtie();
    var v := (1, 0, 2);
    var e := (-1, -3, -2);
    var c := (-1, InvalidId, InvalidId);
    BowtieRelinked();
    var m1 := RelinkAll(m, e, c);
    var ve := (VertexEdge(m1, v.0), VertexEdge(m1, v.1), VertexEdge(m1, v.2));
    NewFaceExisting(m1, v, e);
    var t := NewFace(m1, v, e);
    LinkBowtieFace(t.0, ve);
    var m3 := LinkFace(t.0, t.1, e, t.2, ve);
    FinishBowtieFace(m3);
    assert AddFaceSurgery(m, v, e, c).0 == FixVertices(DeleteExisting(m3, e), v, t.2);
  }

  /** A live halfedge that swinging around its source does not reach breaks RingProps. */
  lemma UnreachedBreaksRing(m: Mesh, e: int)
    requires ValidHalfedge(m, e) && e !in Outgoing(m, Src(m, e))
    ensures !RingProps(m)
  {
  }

  lemma AsWrittenSurgery(m: Mesh, v: Triple, e: Triple, c: Triple)
    requires AddFaceChecks(m, v, true) == Ok((e, c))
    ensures AddFaceAsWritten(m, v) == Ok(AddFaceSurgery(m, v, e, c))
  {
  }

  /** The surgery the check as written lets through leaves 0->4 live but out of reach. */
  lemma ClosedRingBroken()
    ensures var r := AddFaceSurgery(Bowtie(), (1, 0, 2), (-1, -3, -2), (-1, InvalidId, InvalidId)).0;
      ValidHalfedge(r, -6) && Src(r, -6) == 0 && -6 !in Outgoing(r, 0) && !RingProps(r)
  {
    ClosedRingSurgery();
    var r := AddFaceSurgery(Bowtie(), (1, 0, 2), (-1, -3, -2), (-1, InvalidId, InvalidId)).0;
    UnreachedBreaksRing(r, -6);
  }

  /**
   * The check as written accepts (1,0,2) on the bowtie. Its RELINK step leaves next(1->0)
   * at 0->4 rather than 0->2, and the resulting mesh breaks the reachability invariant of
   * assert_consistent: swinging around vertex 0 from its stored halfedge never reaches the
   * live boundary halfedge 0->4.
   */
  lemma ClosedRingAsWritten()
    ensures AddFaceAsWritten(Bowtie(), (1, 0, 2)).Ok?
    ensures Next(RelinkAll(Bowtie(), (-1, -3, -2), (-1, InvalidId, InvalidId)), -1) != -3
    ensures var r := AddFaceAsWritten(Bowtie(), (1, 0, 2)).value.0;
      ValidHalfedge(r, -6) && Src(r, -6) == 0 && -6 !in Outgoing(r, 0) && !RingProps(r)
  {
    BowtieChecks();
    BowtieRelinked();
    AsWrittenSurgery(Bowtie(), (1, 0, 2), (-1, -3, -2), (-1, InvalidId, InvalidId));
    ClosedRingBroken();
  }

  /** The corrected check rejects (1,0,2) on the bowtie, a mesh add_faces builds. */
  lemma ClosedRingRejected()
    ensures AddFaces(AddVertices(NewMesh(), 5), [(0, 1, 2), (0, 3, 4)]) == Ok(Bowtie())
    ensures AddFace(Bowtie(), (1, 0, 2)) == Err(RuntimeError)
  {
    BowtieBuilt();
    BowtieChecks();
  }
}
