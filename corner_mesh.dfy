/**
 * The corner data structure for oriented triangle meshes (mesh/CornerMesh.cpp), as a
 * value. A mesh keeps per face its vertex triple and the reverse of each of its three
 * halfedges, one outgoing halfedge per vertex, and an arena of boundary halfedge
 * records whose deleted entries form a free list. Halfedge ids are signed: 3*f+i is
 * corner i of face f, and a negative id e is the boundary record boundaries[-1-e].
 *
 * The header defining the primitive accessors is not part of this model; next, prev,
 * reverse, src, dst, left, and the three low-level writers are rebuilt here from the
 * way the operations use them.
 */
module CornerMesh {

  /** numeric_limits<int>::min(): the id of no vertex, halfedge or face. */
  const InvalidId: int := -0x8000_0000

  /** numeric_limits<int>::max(): the vertex id stored in a deleted record. */
  const DeletedId: int := 0x7fff_ffff

  type Triple = (int, int, int)

  /** A face: its vertices and the reverse of each of its halfedges 3f, 3f+1, 3f+2. */
  datatype FaceInfo = FaceInfo(vertices: Triple, neighbors: Triple)

  /** A boundary halfedge record. */
  datatype BoundaryInfo = BoundaryInfo(prev: int, next: int, reverse: int, src: int)

  datatype Mesh = Mesh(
    faces: seq<FaceInfo>,
    vertexToEdge: seq<int>,
    boundaries: seq<BoundaryInfo>,
    deletedBoundaries: int,
    nVertices: int,
    nFaces: int,
    nBoundaryEdges: int)

  /** add_face_error and flip_edge throw RuntimeError; OTHER_ASSERT throws AssertionError. */
  datatype Error = RuntimeError | AssertionError

  datatype Result<T> = Ok(value: T) | Err(error: Error)

  /** A freshly allocated record whose fields the source leaves uninitialised. */
  const BlankBoundary := BoundaryInfo(InvalidId, InvalidId, InvalidId, InvalidId)

  const BlankFace := FaceInfo((InvalidId, InvalidId, InvalidId), (InvalidId, InvalidId, InvalidId))

  function Get(t: Triple, i: int): int
  {
    if i == 0 then t.0 else if i == 1 then t.1 else t.2
  }

  function Set(t: Triple, i: int, x: int): (r: Triple)
    requires 0 <= i < 3
    ensures forall j :: 0 <= j < 3 ==> Get(r, j) == if j == i then x else Get(t, j)
  {
    if i == 0 then (x, t.1, t.2) else if i == 1 then (t.0, x, t.2) else (t.0, t.1, x)
  }

  // ---------------------------------------------------------------------------
  // Primitive accessors

  /** e names a face corner whose face record exists. */
  predicate FaceSlot(m: Mesh, e: int)
  {
    0 <= e && e / 3 < |m.faces|
  }

  /** e names an existing boundary record. */
  predicate BoundarySlot(m: Mesh, e: int)
  {
    InvalidId < e < 0 && -1 - e < |m.boundaries|
  }

  /** The number of halfedge slots: the bound used for every ring walk. */
  function Slots(m: Mesh): nat
  {
    3 * |m.faces| + |m.boundaries|
  }

  /** is_boundary(e): boundary halfedges are the negative ids (the invalid id among them). */
  predicate IsBoundary(e: int)
  {
    e < 0
  }

  function Next(m: Mesh, e: int): int
  {
    if e >= 0 then (if e % 3 == 2 then e - 2 else e + 1)
    else if BoundarySlot(m, e) then m.boundaries[-1 - e].next
    else InvalidId
  }

  function Prev(m: Mesh, e: int): int
  {
    if e >= 0 then (if e % 3 == 0 then e + 2 else e - 1)
    else if BoundarySlot(m, e) then m.boundaries[-1 - e].prev
    else InvalidId
  }

  function Reverse(m: Mesh, e: int): int
  {
    if FaceSlot(m, e) then Get(m.faces[e / 3].neighbors, e % 3)
    else if BoundarySlot(m, e) then m.boundaries[-1 - e].reverse
    else InvalidId
  }

  function Src(m: Mesh, e: int): int
  {
    if FaceSlot(m, e) then Get(m.faces[e / 3].vertices, e % 3)
    else if BoundarySlot(m, e) then m.boundaries[-1 - e].src
    else InvalidId
  }

  function Dst(m: Mesh, e: int): int
  {
    Src(m, Next(m, e))
  }

  /** left(e) = reverse(prev(e)): the next outgoing halfedge counterclockwise around src(e). */
  function Left(m: Mesh, e: int): int
  {
    Reverse(m, Prev(m, e))
  }

  function Face(e: int): int
  {
    if e >= 0 then e / 3 else InvalidId
  }

  /** halfedge(v): the stored outgoing halfedge of v. */
  function VertexEdge(m: Mesh, v: int): int
  {
    if 0 <= v < |m.vertexToEdge| then m.vertexToEdge[v] else InvalidId
  }

  predicate ValidVertex(m: Mesh, v: int)
  {
    0 <= v < |m.vertexToEdge|
  }

  predicate ValidFace(m: Mesh, f: int)
  {
    0 <= f < |m.faces| && m.faces[f].vertices.0 != DeletedId
  }

  predicate ValidHalfedge(m: Mesh, e: int)
  {
    if e >= 0 then ValidFace(m, e / 3)
    else BoundarySlot(m, e) && m.boundaries[-1 - e].src != DeletedId
  }

  predicate Isolated(m: Mesh, v: int)
  {
    VertexEdge(m, v) == InvalidId
  }

  /** is_boundary(v): the stored halfedge is a boundary one, or there is none. */
  predicate IsBoundaryVertex(m: Mesh, v: int)
  {
    VertexEdge(m, v) < 0
  }

  /** b has the faces of a, with the same vertices (neighbours may differ). */
  predicate VerticesKept(a: Mesh, b: Mesh)
  {
    |b.faces| == |a.faces| && forall f :: 0 <= f < |a.faces| ==> b.faces[f].vertices == a.faces[f].vertices
  }

  /** b has a's boundary records with the same next fields and sources. */
  predicate LinksKept(a: Mesh, b: Mesh)
  {
    |b.boundaries| == |a.boundaries| &&
    forall e :: 0 <= e < |a.boundaries| ==>
      b.boundaries[e].next == a.boundaries[e].next && b.boundaries[e].src == a.boundaries[e].src
  }

  // ---------------------------------------------------------------------------
  // Primitive writers (a write to a slot that does not exist is dropped)

  function SetBoundary(m: Mesh, e: int, b: BoundaryInfo): (r: Mesh)
    ensures r == m.(boundaries := r.boundaries) && |r.boundaries| == |m.boundaries|
  {
    if BoundarySlot(m, e) then m.(boundaries := m.boundaries[-1 - e := b]) else m
  }

  function SetFace(m: Mesh, f: int, info: FaceInfo): (r: Mesh)
    ensures r == m.(faces := r.faces) && |r.faces| == |m.faces|
  {
    if 0 <= f < |m.faces| then m.(faces := m.faces[f := info]) else m
  }

  function SetVertexEdge(m: Mesh, v: int, e: int): (r: Mesh)
    ensures r == m.(vertexToEdge := r.vertexToEdge) && |r.vertexToEdge| == |m.vertexToEdge|
  {
    if 0 <= v < |m.vertexToEdge| then m.(vertexToEdge := m.vertexToEdge[v := e]) else m
  }

  function SetNext(m: Mesh, p: int, n: int): (r: Mesh)
    ensures r == m.(boundaries := r.boundaries) && |r.boundaries| == |m.boundaries|
  {
    if BoundarySlot(m, p) then SetBoundary(m, p, m.boundaries[-1 - p].(next := n)) else m
  }

  function SetPrev(m: Mesh, n: int, p: int): (r: Mesh)
    ensures r == m.(boundaries := r.boundaries) && |r.boundaries| == |m.boundaries|
  {
    if BoundarySlot(m, n) then SetBoundary(m, n, m.boundaries[-1 - n].(prev := p)) else m
  }

  /** Set the reverse of a halfedge, in its face record or its boundary record. */
  function SetReverseOf(m: Mesh, e: int, r: int): (m': Mesh)
    ensures m' == m.(faces := m'.faces, boundaries := m'.boundaries)
    ensures VerticesKept(m, m') && LinksKept(m, m')
  {
    if e >= 0 then
      if e / 3 < |m.faces| then
        SetFace(m, e / 3, m.faces[e / 3].(neighbors := Set(m.faces[e / 3].neighbors, e % 3, r)))
      else m
    else if BoundarySlot(m, e) then SetBoundary(m, e, m.boundaries[-1 - e].(reverse := r))
    else m
  }

  /** unsafe_boundary_link(p, n): next(p) = n and prev(n) = p. */
  function BoundaryLink(m: Mesh, p: int, n: int): (r: Mesh)
    ensures r == m.(boundaries := r.boundaries) && |r.boundaries| == |m.boundaries|
  {
    SetPrev(SetNext(m, p, n), n, p)
  }

  /** unsafe_set_reverse(f, i, r): corner i of f and r become each other's reverse. */
  function SetReverse(m: Mesh, f: int, i: int, r: int): (m': Mesh)
    ensures m' == m.(faces := m'.faces, boundaries := m'.boundaries)
    ensures VerticesKept(m, m') && LinksKept(m, m')
  {
    SetReverseOf(SetReverseOf(m, 3 * f + i, r), r, 3 * f + i)
  }

  /** unsafe_set_deleted(b): mark the record deleted and push it on the free list. */
  function SetDeleted(m: Mesh, b: int): (r: Mesh)
    ensures r == m.(boundaries := r.boundaries, deletedBoundaries := r.deletedBoundaries, nBoundaryEdges := r.nBoundaryEdges)
    ensures |r.boundaries| == |m.boundaries|
  {
    if BoundarySlot(m, b) then
      var m1 := SetBoundary(m, b, m.boundaries[-1 - b].(src := DeletedId, next := m.deletedBoundaries));
      m1.(deletedBoundaries := b, nBoundaryEdges := m.nBoundaryEdges - 1)
    else m
  }

  /**
   * unsafe_new_boundary (mesh/CornerMesh.cpp:116-130): take the head of the free list,
   * or grow the arena by one record, then set its src and reverse.
   */
  function NewBoundary(m: Mesh, src: int, rev: int): (r: (Mesh, int))
    ensures r.0 == m.(boundaries := r.0.boundaries, deletedBoundaries := r.0.deletedBoundaries, nBoundaryEdges := r.0.nBoundaryEdges)
    ensures r.0.nBoundaryEdges == m.nBoundaryEdges + 1 && |r.0.boundaries| >= |m.boundaries|
  {
    var m1 := m.(nBoundaryEdges := m.nBoundaryEdges + 1);
    var (m2, e) :=
      if m1.deletedBoundaries != InvalidId then
        var e := m1.deletedBoundaries;
        (m1.(deletedBoundaries := Next(m1, e)), e)
      else
        (m1.(boundaries := m1.boundaries + [BlankBoundary]), -1 - |m1.boundaries|);
    if BoundarySlot(m2, e) then (SetBoundary(m2, e, m2.boundaries[-1 - e].(src := src, reverse := rev)), e)
    else (m2, e)
  }

  // ---------------------------------------------------------------------------
  // Ring walks (each bounded by the number of halfedge slots)

  /** The outgoing halfedges of a vertex, from e around its source until start comes back. */
  function RingFrom(m: Mesh, start: int, e: int, fuel: nat): seq<int>
    decreases fuel
  {
    if fuel == 0 then []
    else if Left(m, e) == start then [e]
    else [e] + RingFrom(m, start, Left(m, e), fuel - 1)
  }

  /**
   * The do-while of halfedge(v0,v1): the first halfedge of the ring from e whose dst is
   * v1, and the invalid id exactly when there is none.
   */
  function RingFind(m: Mesh, start: int, e: int, v1: int, fuel: nat): int
    decreases fuel
  {
    if fuel == 0 then InvalidId
    else if Dst(m, e) == v1 then e
    else if Left(m, e) == start then InvalidId
    else RingFind(m, start, Left(m, e), v1, fuel - 1)
  }

  /** halfedge(v0,v1) (mesh/CornerMesh.cpp:57-69): the halfedge from v0 to v1, or the invalid id. */
  function HalfedgeBetween(m: Mesh, v0: int, v1: int): int
  {
    var start := VertexEdge(m, v0);
    if start == InvalidId then InvalidId else RingFind(m, start, start, v1, Slots(m))
  }

  /** The ring search returns a halfedge of the ring ending at v1, and finds none exactly when
      no halfedge of the ring ends there. */
  lemma {:induction false} RingFindMeaning(m: Mesh, start: int, e: int, v1: int, fuel: nat)
    ensures var r := RingFind(m, start, e, v1, fuel);
      (r != InvalidId ==> r in RingFrom(m, start, e, fuel) && Dst(m, r) == v1)
      && (v1 != InvalidId ==> (r == InvalidId <==> forall x :: x in RingFrom(m, start, e, fuel) ==> Dst(m, x) != v1))
    decreases fuel
  {
    if fuel > 0 && Dst(m, e) != v1 && Left(m, e) != start {
      RingFindMeaning(m, start, Left(m, e), v1, fuel - 1);
    }
  }

  /** halfedge(v0,v1) returns an outgoing halfedge of v0 ending at v1, and the invalid id
      exactly when there is none. */
  lemma HalfedgeBetweenMeaning(m: Mesh, v0: int, v1: int)
    ensures var r := HalfedgeBetween(m, v0, v1);
      (r != InvalidId ==> r in Outgoing(m, v0) && Dst(m, r) == v1)
      && (v1 != InvalidId ==> (r == InvalidId <==> forall x :: x in Outgoing(m, v0) ==> Dst(m, x) != v1))
  {
    var start := VertexEdge(m, v0);
    if start != InvalidId {
      RingFindMeaning(m, start, start, v1, Slots(m));
    }
  }

  /** The halfedges of a face. */
  function FaceHalfedges(f: int): seq<int>
  {
    [3 * f, 3 * f + 1, 3 * f + 2]
  }

  /** The first halfedge of es whose reverse lies in face f1. */
  function FirstFacing(m: Mesh, es: seq<int>, f1: int): (r: int)
    ensures r != InvalidId ==> r in es && Face(Reverse(m, r)) == f1
    ensures InvalidId !in es ==> (r == InvalidId <==> forall x :: x in es ==> Face(Reverse(m, x)) != f1)
  {
    if |es| == 0 then InvalidId
    else if Face(Reverse(m, es[0])) == f1 then es[0]
    else FirstFacing(m, es[1..], f1)
  }

  /** common_halfedge(f0,f1) (mesh/CornerMesh.cpp:71-82): the halfedge of f0 whose reverse lies in f1. */
  function CommonHalfedge(m: Mesh, f0: int, f1: int): (r: int)
    ensures f0 >= 0 && r != InvalidId ==> Face(r) == f0 && Face(Reverse(m, r)) == f1
    ensures f0 >= 0 ==> (r == InvalidId <==> forall e :: e in FaceHalfedges(f0) ==> Face(Reverse(m, e)) != f1)
    ensures f0 == InvalidId && f1 >= 0 && r != InvalidId ==>
      Face(r) == InvalidId && exists e :: e in FaceHalfedges(f1) && r == Reverse(m, e)
  {
    if f0 != InvalidId then FirstFacing(m, FaceHalfedges(f0), f1)
    else if f1 != InvalidId then
      var e := FirstFacing(m, FaceHalfedges(f1), f0);
      if e == InvalidId then InvalidId else Reverse(m, e)
    else InvalidId
  }

  /** The loop of right_around_dst_to_boundary: swing until a boundary halfedge. */
  function SwingToBoundary(m: Mesh, e: int, fuel: nat): int
    decreases fuel
  {
    if IsBoundary(e) then e
    else if fuel == 0 then InvalidId
    else SwingToBoundary(m, Reverse(m, Next(m, e)), fuel - 1)
  }

  /** right_around_dst_to_boundary (mesh/CornerMesh.cpp:94-99). */
  function RightAroundDstToBoundary(m: Mesh, e: int): int
  {
    SwingToBoundary(m, Reverse(m, Next(m, Reverse(m, e))), Slots(m))
  }

  /** The loop of fix_vertex_to_edge: from e around its source, the first boundary halfedge, else start. */
  function FirstBoundaryAround(m: Mesh, start: int, e: int, fuel: nat): int
    decreases fuel
  {
    if IsBoundary(e) || fuel == 0 then e
    else if Left(m, e) == start then start
    else FirstBoundaryAround(m, start, Left(m, e), fuel - 1)
  }

  /** fix_vertex_to_edge (mesh/CornerMesh.cpp:103-113). */
  function FixVertexToEdge(m: Mesh, v: int, start: int): (r: Mesh)
    ensures r == m.(vertexToEdge := r.vertexToEdge) && |r.vertexToEdge| == |m.vertexToEdge|
  {
    SetVertexEdge(m, v, FirstBoundaryAround(m, start, start, Slots(m)))
  }

  /** outgoing(v): the ring of halfedges leaving v, empty when v is isolated. */
  function Outgoing(m: Mesh, v: int): seq<int>
  {
    var start := VertexEdge(m, v);
    if start == InvalidId then [] else RingFrom(m, start, start, Slots(m))
  }

  // ---------------------------------------------------------------------------
  // Vertices

  /** The default constructor (mesh/CornerMesh.cpp:37-40): no vertices, faces or boundary records. */
  function NewMesh(): (r: Mesh)
    ensures |r.vertexToEdge| == 0 && |r.faces| == 0 && VertexProps(r) && FreeListProps(r)
  {
    Mesh([], [], [], InvalidId, 0, 0, 0)
  }

  /** add_vertex (mesh/CornerMesh.cpp:84-87): a new isolated vertex with the next id. */
  function AddVertex(m: Mesh): (Mesh, int)
  {
    (m.(nVertices := m.nVertices + 1, vertexToEdge := m.vertexToEdge + [InvalidId]), |m.vertexToEdge|)
  }

  /** add_vertices (mesh/CornerMesh.cpp:89-92). */
  function AddVertices(m: Mesh, n: nat): Mesh
  {
    m.(nVertices := m.nVertices + n, vertexToEdge := m.vertexToEdge + seq(n, _ => InvalidId))
  }

  // ---------------------------------------------------------------------------
  // add_face (mesh/CornerMesh.cpp:136-228)

  /** The PREPARE step: for consecutive boundary halfedges a, b not already linked, the
      boundary halfedge on the far side of b's triangle fan. */
  function Prepare(m: Mesh, a: int, b: int): int
  {
    if a != InvalidId && b != InvalidId && Next(m, a) != b then RightAroundDstToBoundary(m, b)
    else InvalidId
  }

  /** The closed-ring rejection as the source writes it: c is compared with b. */
  predicate ClosesRingAsWritten(a: int, b: int, c: int)
  {
    c != InvalidId && b == c
  }

  /** The closed-ring rejection as intended: the far side of b's fan is a itself. */
  predicate ClosesRing(a: int, b: int, c: int)
  {
    c != InvalidId && a == c
  }

  /** The checks of add_face, all made before any write; on success the existing
      halfedges e and the far sides c of their fans. */
  function AddFaceChecks(m: Mesh, v: Triple, asWritten: bool): (r: Result<(Triple, Triple)>)
    ensures r.Ok? ==> var e := r.value.0;
      (e.0 == InvalidId || BoundarySlot(m, e.0)) && (e.1 == InvalidId || BoundarySlot(m, e.1))
      && (e.2 == InvalidId || BoundarySlot(m, e.2))
  {
    if !ValidVertex(m, v.0) || !ValidVertex(m, v.1) || !ValidVertex(m, v.2) then Err(RuntimeError)
    else if v.0 == v.1 || v.1 == v.2 || v.2 == v.0 then Err(RuntimeError)
    else if !IsBoundaryVertex(m, v.0) || !IsBoundaryVertex(m, v.1) || !IsBoundaryVertex(m, v.2) then
      Err(RuntimeError)
    else
      var e0 := HalfedgeBetween(m, v.0, v.1);
      var e1 := HalfedgeBetween(m, v.1, v.2);
      var e2 := HalfedgeBetween(m, v.2, v.0);
      HalfedgeBetweenMeaning(m, v.0, v.1);
      HalfedgeBetweenMeaning(m, v.1, v.2);
      HalfedgeBetweenMeaning(m, v.2, v.0);
      if (e0 != InvalidId && !IsBoundary(e0)) || (e1 != InvalidId && !IsBoundary(e1))
         || (e2 != InvalidId && !IsBoundary(e2)) then Err(RuntimeError)
      else
        var c0 := Prepare(m, e0, e1);
        var c1 := Prepare(m, e1, e2);
        var c2 := Prepare(m, e2, e0);
        if (if asWritten then ClosesRingAsWritten(e0, e1, c0) || ClosesRingAsWritten(e1, e2, c1)
                               || ClosesRingAsWritten(e2, e0, c2)
            else ClosesRing(e0, e1, c0) || ClosesRing(e1, e2, c1) || ClosesRing(e2, e0, c2)) then
          Err(RuntimeError)
        else Ok(((e0, e1, e2), (c0, c1, c2)))
  }

  /** The RELINK step: make b follow a, splicing the old successor of a after c. */
  function Relink(m: Mesh, a: int, b: int, c: int): (r: Mesh)
    ensures r == m.(boundaries := r.boundaries) && |r.boundaries| == |m.boundaries|
  {
    if c == InvalidId then m
    else
      var na := Next(m, a);
      var pb := Prev(m, b);
      var nc := Next(m, c);
      BoundaryLink(BoundaryLink(BoundaryLink(m, a, b), c, na), pb, nc)
  }

  /** The REVERSE step: the reverse of an existing boundary halfedge, or a new boundary record. */
  function ReverseOrNew(m: Mesh, e: int, src: int, rev: int): (r: (Mesh, int))
    ensures r.0 == m.(boundaries := r.0.boundaries, deletedBoundaries := r.0.deletedBoundaries, nBoundaryEdges := r.0.nBoundaryEdges)
    ensures r.0.nBoundaryEdges == m.nBoundaryEdges + (if e == InvalidId then 1 else 0)
    ensures |r.0.boundaries| >= |m.boundaries|
  {
    if e != InvalidId then (m, Reverse(m, e)) else NewBoundary(m, src, rev)
  }

  /** The NEAR step: the future prev and next of a new boundary halfedge r_i. */
  function Near(m: Mesh, ei: int, ein: int, eip: int, vei: int, vein: int, rin: int, rip: int): (int, int)
  {
    (if vein != InvalidId then Prev(m, if ein != InvalidId then ein else vein) else rin,
     if vei != InvalidId then (if eip != InvalidId then Next(m, eip) else vei) else rip)
  }

  /** The LINK step. */
  function Link(m: Mesh, f: int, i: int, ei: int, ri: int, near: (int, int)): (r: Mesh)
    ensures r == m.(faces := r.faces, boundaries := r.boundaries)
    ensures VerticesKept(m, r) && |r.boundaries| == |m.boundaries|
  {
    var m1 := SetReverse(m, f, i, ri);
    if ei == InvalidId then BoundaryLink(BoundaryLink(m1, near.0, ri), ri, near.1) else m1
  }

  function DeleteIfValid(m: Mesh, e: int): (r: Mesh)
    ensures r == m.(boundaries := r.boundaries, deletedBoundaries := r.deletedBoundaries, nBoundaryEdges := r.nBoundaryEdges)
    ensures r.nBoundaryEdges == m.nBoundaryEdges - (if e != InvalidId && BoundarySlot(m, e) then 1 else 0)
    ensures |r.boundaries| == |m.boundaries|
  {
    if e != InvalidId then SetDeleted(m, e) else m
  }

  /** The number of the face's edges that already exist as boundary halfedges. */
  function ExistingEdges(e: Triple): nat
  {
    (if e.0 != InvalidId then 1 else 0) + (if e.1 != InvalidId then 1 else 0)
    + (if e.2 != InvalidId then 1 else 0)
  }

  /** RELINK for the three corners. */
  function RelinkAll(m: Mesh, e: Triple, c: Triple): (r: Mesh)
    ensures r == m.(boundaries := r.boundaries) && |r.boundaries| == |m.boundaries|
  {
    Relink(Relink(Relink(m, e.0, e.1, c.0), e.1, e.2, c.1), e.2, e.0, c.2)
  }

  /** Append the face and find or allocate the reverses r of its halfedges (REVERSE). */
  function NewFace(m: Mesh, v: Triple, e: Triple): (r: (Mesh, int, Triple))
    ensures r.1 == |m.faces| && r.0.faces == m.faces + [FaceInfo(v, (InvalidId, InvalidId, InvalidId))]
    ensures r.0.vertexToEdge == m.vertexToEdge && r.0.nFaces == m.nFaces + 1 && r.0.nVertices == m.nVertices
    ensures r.0.nBoundaryEdges == m.nBoundaryEdges + 3 - ExistingEdges(e)
    ensures |r.0.boundaries| >= |m.boundaries|
  {
    var f := |m.faces|;
    var m2 := m.(nFaces := m.nFaces + 1, faces := m.faces + [FaceInfo(v, (InvalidId, InvalidId, InvalidId))]);
    var (m3, r0) := ReverseOrNew(m2, e.0, v.1, 3 * f);
    var (m4, r1) := ReverseOrNew(m3, e.1, v.2, 3 * f + 1);
    var (m5, r2) := ReverseOrNew(m4, e.2, v.0, 3 * f + 2);
    (m5, f, (r0, r1, r2))
  }

  /** NEAR and LINK for the three corners; ve are the stored halfedges of the vertices. */
  function LinkFace(m: Mesh, f: int, e: Triple, r: Triple, ve: Triple): (m': Mesh)
    ensures m' == m.(faces := m'.faces, boundaries := m'.boundaries)
    ensures VerticesKept(m, m') && |m'.boundaries| == |m.boundaries|
  {
    var near0 := Near(m, e.0, e.1, e.2, ve.0, ve.1, r.1, r.2);
    var near1 := Near(m, e.1, e.2, e.0, ve.1, ve.2, r.2, r.0);
    var near2 := Near(m, e.2, e.0, e.1, ve.2, ve.0, r.0, r.1);
    Link(Link(Link(m, f, 0, e.0, r.0, near0), f, 1, e.1, r.1, near1), f, 2, e.2, r.2, near2)
  }

  /** Delete the records of the edges that used to be boundaries. */
  function DeleteExisting(m: Mesh, e: Triple): (r: Mesh)
    requires e.0 == InvalidId || BoundarySlot(m, e.0)
    requires e.1 == InvalidId || BoundarySlot(m, e.1)
    requires e.2 == InvalidId || BoundarySlot(m, e.2)
    ensures r == m.(boundaries := r.boundaries, deletedBoundaries := r.deletedBoundaries, nBoundaryEdges := r.nBoundaryEdges)
    ensures r.nBoundaryEdges == m.nBoundaryEdges - ExistingEdges(e) && |r.boundaries| == |m.boundaries|
  {
    DeleteIfValid(DeleteIfValid(DeleteIfValid(m, e.0), e.1), e.2)
  }

  /** Point the three vertices at boundary halfedges where possible. */
  function FixVertices(m: Mesh, v: Triple, r: Triple): (m': Mesh)
    ensures m' == m.(vertexToEdge := m'.vertexToEdge) && |m'.vertexToEdge| == |m.vertexToEdge|
  {
    FixVertexToEdge(FixVertexToEdge(FixVertexToEdge(m, v.0, r.2), v.1, r.0), v.2, r.1)
  }

  /** Everything add_face does once its checks have passed. The existing halfedges e are
      absent or boundary records, as the checks guarantee. */
  function AddFaceSurgery(m: Mesh, v: Triple, e: Triple, c: Triple): (Mesh, int)
    requires e.0 == InvalidId || BoundarySlot(m, e.0)
    requires e.1 == InvalidId || BoundarySlot(m, e.1)
    requires e.2 == InvalidId || BoundarySlot(m, e.2)
  {
    var m1 := RelinkAll(m, e, c);
    var ve := (VertexEdge(m1, v.0), VertexEdge(m1, v.1), VertexEdge(m1, v.2));
    var (m2, f, r) := NewFace(m1, v, e);
    var m3 := LinkFace(m2, f, e, r, ve);
    (FixVertices(DeleteExisting(m3, e), v, r), f)
  }

  function AddFaceWith(m: Mesh, v: Triple, asWritten: bool): Result<(Mesh, int)>
  {
    match AddFaceChecks(m, v, asWritten)
    case Err(err) => Err(err)
    case Ok((e, c)) => Ok(AddFaceSurgery(m, v, e, c))
  }

  /** add_face with the closed-ring check as the source writes it. */
  function AddFaceAsWritten(m: Mesh, v: Triple): Result<(Mesh, int)>
  {
    AddFaceWith(m, v, true)
  }

  /** add_face with the closed-ring check as intended; the rest of the model uses this one. */
  function AddFace(m: Mesh, v: Triple): Result<(Mesh, int)>
  {
    AddFaceWith(m, v, false)
  }

  /** add_faces (mesh/CornerMesh.cpp:230-234): add the triangles in order, stopping at the first error. */
  function AddFaces(m: Mesh, vs: seq<Triple>): Result<Mesh>
    decreases |vs|
  {
    if |vs| == 0 then Ok(m)
    else match AddFace(m, vs[0])
      case Err(err) => Err(err)
      case Ok((m1, _)) => AddFaces(m1, vs[1..])
  }

  // ---------------------------------------------------------------------------
  // split_face (mesh/CornerMesh.cpp:236-263)

  /** The writes of one UPDATE step to face g: its vertices become t, its first corner is
      paired with n0 and its other two corners face the halfedges a and b. */
  function SplitWrite(m: Mesh, g: int, t: Triple, n0: int, a: int, b: int): (r: Mesh)
    ensures r == m.(faces := r.faces, boundaries := r.boundaries)
    ensures |r.faces| == |m.faces| && LinksKept(m, r)
  {
    var m1 := SetVertices(m, g, t);
    SetReverseOf(SetReverseOf(SetReverse(m1, g, 0, n0), 3 * g + 1, a), 3 * g + 2, b)
  }

  /** (i+1)%3 and (i+2)%3 for a corner index i. */
  function Succ3(i: int): int { if i == 2 then 0 else i + 1 }
  function Pred3(i: int): int { if i == 0 then 2 else i - 1 }

  /** The UPDATE(i) step: face fs[i] becomes (v[i], v[i+1], c), and v[i] (for i > 0), when it
      stored the halfedge of f that now belongs to fs[i], is pointed at that face's corner. */
  function SplitUpdate(m: Mesh, f: int, c: int, v: Triple, n: Triple, fs: Triple, i: int): (r: Mesh)
    requires 0 <= i < 3
    ensures r == m.(faces := r.faces, boundaries := r.boundaries, vertexToEdge := r.vertexToEdge)
    ensures |r.faces| == |m.faces| && LinksKept(m, r) && |r.vertexToEdge| == |m.vertexToEdge|
  {
    var g := Get(fs, i);
    var m4 := SplitWrite(m, g, (Get(v, i), Get(v, Succ3(i)), c), Get(n, i),
                         3 * Get(fs, Succ3(i)) + 2, 3 * Get(fs, Pred3(i)) + 1);
    if i == 0 then m4 else Redirect(m4, Get(v, i), {3 * f + i}, 3 * g)
  }

  /** UPDATE(0), UPDATE(1), UPDATE(2) on a mesh whose last two faces are the new ones. */
  function SplitUpdates(m: Mesh, f: int, c: int, v: Triple, n: Triple): (r: Mesh)
    requires 0 <= f < |m.faces| - 2
    ensures r == m.(faces := r.faces, boundaries := r.boundaries, vertexToEdge := r.vertexToEdge)
    ensures LinksKept(m, r)
  {
    var fs := (f, |m.faces| - 2, |m.faces| - 1);
    SplitUpdate(SplitUpdate(SplitUpdate(m, f, c, v, n, fs, 0), f, c, v, n, fs, 1), f, c, v, n, fs, 2)
  }

  /** Two more faces, as yet unset, at the end of the face array. */
  function SplitGrow(m: Mesh): (r: Mesh)
    ensures |r.faces| == |m.faces| + 2
  {
    m.(nFaces := m.nFaces + 2, faces := m.faces + [BlankFace, BlankFace])
  }

  function SplitFace(m: Mesh, f: int, c: int): Result<Mesh>
  {
    if !(ValidFace(m, f) && ValidVertex(m, c) && Isolated(m, c)) then Err(AssertionError)
    else
      var v := m.faces[f].vertices;
      var n := m.faces[f].neighbors;
      Ok(SetVertexEdge(SplitUpdates(SplitGrow(m), f, c, v, n), c, 3 * f + 2))
  }

  /** split_face(f): split at a new vertex, returned. */
  function SplitFaceNew(m: Mesh, f: int): Result<(Mesh, int)>
  {
    var (m1, c) := AddVertex(m);
    match SplitFace(m1, f, c)
    case Err(err) => Err(err)
    case Ok(m2) => Ok((m2, c))
  }

  // ---------------------------------------------------------------------------
  // Edge flips (mesh/CornerMesh.cpp:265-311)

  /** The vertex opposite an interior halfedge in its face. */
  function Opposite(m: Mesh, e: int): int
  {
    Src(m, Prev(m, e))
  }

  predicate IsFlipSafe(m: Mesh, e0: int)
  {
    ValidHalfedge(m, e0) && !IsBoundary(e0) && !IsBoundary(Reverse(m, e0))
    && Opposite(m, e0) != Opposite(m, Reverse(m, e0))
    && HalfedgeBetween(m, Opposite(m, e0), Opposite(m, Reverse(m, e0))) == InvalidId
  }

  function SetVertices(m: Mesh, f: int, t: Triple): (r: Mesh)
    ensures r == m.(faces := r.faces) && |r.faces| == |m.faces|
  {
    SetFace(m, f, if 0 <= f < |m.faces| then m.faces[f].(vertices := t) else BlankFace)
  }

  /** Redirect the stored halfedge of v to e when it is currently one of olds. */
  function Redirect(m: Mesh, v: int, olds: set<int>, e: int): (r: Mesh)
    ensures r == m.(vertexToEdge := r.vertexToEdge) && |r.vertexToEdge| == |m.vertexToEdge|
  {
    if VertexEdge(m, v) in olds then SetVertexEdge(m, v, e) else m
  }

  /** unsafe_set_reverse(f, 1, a) then unsafe_set_reverse(f, 2, b). */
  function SetTwoReverses(m: Mesh, f: int, a: int, b: int): (r: Mesh)
    ensures r == m.(faces := r.faces, boundaries := r.boundaries)
    ensures VerticesKept(m, r) && LinksKept(m, r)
  {
    SetReverse(SetReverse(m, f, 1, a), f, 2, b)
  }

  /** The four unsafe_set_reverse calls of unsafe_flip_edge. */
  function FlipReverses(m: Mesh, f0: int, f1: int, a: int, b: int, c: int, d: int): (r: Mesh)
    ensures r == m.(faces := r.faces, boundaries := r.boundaries)
    ensures VerticesKept(m, r) && LinksKept(m, r)
  {
    SetTwoReverses(SetTwoReverses(m, f0, a, b), f1, c, d)
  }

  /** The vertex_to_edge fixes of unsafe_flip_edge: each of the four vertices whose stored
      halfedge lost its source is pointed at the new halfedge leaving it. */
  function FlipRedirects(m: Mesh, f0: int, f1: int, v0: int, v1: int, o0: int, o1: int,
                         e0: int, e1: int, n0: int, n1: int, p0: int, p1: int): (r: Mesh)
    ensures r == m.(vertexToEdge := r.vertexToEdge) && |r.vertexToEdge| == |m.vertexToEdge|
  {
    var m1 := Redirect(m, v0, {e0, n1}, 3 * f1 + 2);
    var m2 := Redirect(m1, v1, {e1, n0}, 3 * f0 + 2);
    var m3 := Redirect(m2, o0, {p0}, 3 * f0);
    Redirect(m3, o1, {p1}, 3 * f1)
  }

  /** unsafe_flip_edge: the triangles (v0, v1, o0) and (v1, v0, o1) become (o0, o1, v1) and (o1, o0, v0). */
  function UnsafeFlipEdge(m: Mesh, e0: int): (Mesh, int)
  {
    var e1 := Reverse(m, e0);
    var f0 := Face(e0);
    var f1 := Face(e1);
    var n0 := Next(m, e0);
    var p0 := Prev(m, e0);
    var n1 := Next(m, e1);
    var p1 := Prev(m, e1);
    var rn0 := Reverse(m, n0);
    var rp0 := Reverse(m, p0);
    var rn1 := Reverse(m, n1);
    var rp1 := Reverse(m, p1);
    var v0 := Src(m, e0);
    var o0 := Src(m, p0);
    var v1 := Src(m, e1);
    var o1 := Src(m, p1);
    var m1 := SetVertices(SetVertices(m, f0, (o0, o1, v1)), f1, (o1, o0, v0));
    var m2 := SetReverseOf(SetReverseOf(m1, 3 * f0, 3 * f1), 3 * f1, 3 * f0);
    var m3 := FlipReverses(m2, f0, f1, rp1, rn0, rp0, rn1);
    (FlipRedirects(m3, f0, f1, v0, v1, o0, o1, e0, e1, n0, n1, p0, p1), 3 * f0)
  }

  function FlipEdge(m: Mesh, e: int): Result<(Mesh, int)>
  {
    if !IsFlipSafe(m, e) then Err(RuntimeError) else Ok(UnsafeFlipEdge(m, e))
  }

  // ---------------------------------------------------------------------------
  // Queries (mesh/CornerMesh.cpp:395-458)

  /** faces(): the ids of the faces that are not deleted, in order. */
  function LiveFaces(m: Mesh): seq<int>
  {
    LiveFacesBelow(m, |m.faces|)
  }

  function LiveFacesBelow(m: Mesh, k: nat): seq<int>
    requires k <= |m.faces|
  {
    if k == 0 then []
    else LiveFacesBelow(m, k - 1) + (if m.faces[k - 1].vertices.0 != DeletedId then [k - 1] else [])
  }

  /** elements(): the vertex triple of every face, in face order. */
  function Elements(m: Mesh): seq<Triple>
  {
    ElementsBelow(m, |m.faces|)
  }

  function ElementsBelow(m: Mesh, k: nat): seq<Triple>
    requires k <= |m.faces|
  {
    if k == 0 then []
    else ElementsBelow(m, k - 1)
         + (if m.faces[k - 1].vertices.0 != DeletedId then [m.faces[k - 1].vertices] else [])
  }

  predicate HasBoundary(m: Mesh)
  {
    m.nBoundaryEdges != 0
  }

  predicate IsManifold(m: Mesh)
  {
    !HasBoundary(m)
  }

  /** The loop of is_manifold_with_boundary: walking around the source of start from e,
      a boundary halfedge comes before start does. */
  predicate SecondBoundary(m: Mesh, start: int, e: int, fuel: nat)
    decreases fuel
  {
    if fuel <= 1 || Left(m, e) == start then false
    else IsBoundary(Left(m, e)) || SecondBoundary(m, start, Left(m, e), fuel - 1)
  }

  /** The vertex has its stored halfedge on the boundary and a second boundary halfedge. */
  predicate BadBoundaryVertex(m: Mesh, v: int)
  {
    var start := VertexEdge(m, v);
    IsBoundary(start) && SecondBoundary(m, start, start, Slots(m))
  }

  predicate IsManifoldWithBoundary(m: Mesh)
  {
    IsManifold(m) || forall v :: 0 <= v < |m.vertexToEdge| ==> !BadBoundaryVertex(m, v)
  }

  predicate HasIsolatedVertices(m: Mesh)
  {
    exists v :: 0 <= v < |m.vertexToEdge| && m.vertexToEdge[v] == InvalidId
  }

  function Degree(m: Mesh, v: int): nat
  {
    |Outgoing(m, v)|
  }

  /** boundary_edges(): the live boundary halfedges, by increasing record index. */
  function LiveBoundaries(m: Mesh): seq<int>
  {
    LiveBoundariesBelow(m, |m.boundaries|)
  }

  function LiveBoundariesBelow(m: Mesh, k: nat): seq<int>
    requires k <= |m.boundaries|
  {
    if k == 0 then []
    else LiveBoundariesBelow(m, k - 1) + (if m.boundaries[k - 1].src != DeletedId then [-(k as int)] else [])
  }

  /** The do-while of boundary_loops: follow next from e until start comes back. */
  function LoopFrom(m: Mesh, start: int, e: int, fuel: nat): seq<int>
    decreases fuel
  {
    if fuel == 0 then []
    else if Next(m, e) == start then [e]
    else [e] + LoopFrom(m, start, Next(m, e), fuel - 1)
  }

  /** The loops started from each of starts not yet seen. */
  function LoopsFrom(m: Mesh, starts: seq<int>, seen: set<int>): seq<seq<int>>
    decreases |starts|
  {
    if |starts| == 0 then []
    else if starts[0] in seen then LoopsFrom(m, starts[1..], seen)
    else
      var loop := LoopFrom(m, starts[0], starts[0], |m.boundaries|);
      [loop] + LoopsFrom(m, starts[1..], seen + set e | e in loop)
  }

  function BoundaryLoops(m: Mesh): seq<seq<int>>
  {
    LoopsFrom(m, LiveBoundaries(m), {})
  }

  // ---------------------------------------------------------------------------
  // Deletion (mesh/CornerMesh.cpp:460-519)

  /** The number of neighbours that are boundary records, and that are face corners. */
  function BoundaryNeighbors(m: Mesh, e: Triple): nat
  {
    (if BoundarySlot(m, e.0) then 1 else 0) + (if BoundarySlot(m, e.1) then 1 else 0)
    + (if BoundarySlot(m, e.2) then 1 else 0)
  }

  function InteriorNeighbors(e: Triple): nat
  {
    (if e.0 >= 0 then 1 else 0) + (if e.1 >= 0 then 1 else 0) + (if e.2 >= 0 then 1 else 0)
  }

  /** First loop of unsafe_delete_face: remember (prev, next) of a boundary neighbour, then delete it. */
  function DeleteNear(m: Mesh, ei: int): (r: (Mesh, (int, int)))
    ensures r.0 == m.(boundaries := r.0.boundaries, deletedBoundaries := r.0.deletedBoundaries, nBoundaryEdges := r.0.nBoundaryEdges)
    ensures |r.0.boundaries| == |m.boundaries|
    ensures r.0.nBoundaryEdges == m.nBoundaryEdges - (if BoundarySlot(m, ei) then 1 else 0)
  {
    if ei < 0 then (SetDeleted(m, ei), (Prev(m, ei), Next(m, ei))) else (m, (InvalidId, InvalidId))
  }

  function DeleteNearAll(m: Mesh, e: Triple): (r: (Mesh, ((int, int), (int, int), (int, int))))
    ensures r.0 == m.(boundaries := r.0.boundaries, deletedBoundaries := r.0.deletedBoundaries, nBoundaryEdges := r.0.nBoundaryEdges)
    ensures |r.0.boundaries| == |m.boundaries|
    ensures r.0.nBoundaryEdges == m.nBoundaryEdges - BoundaryNeighbors(m, e)
  {
    var (m1, near0) := DeleteNear(m, e.0);
    var (m2, near1) := DeleteNear(m1, e.1);
    var (m3, near2) := DeleteNear(m2, e.2);
    (m3, (near0, near1, near2))
  }

  /** Second loop: an interior neighbour ei gets a new boundary halfedge as its reverse. */
  function DeleteNew(m: Mesh, f: int, i: int, ei: int): (r: (Mesh, int))
    requires 0 <= f < |m.faces|
    ensures r.0 == m.(faces := r.0.faces, boundaries := r.0.boundaries, deletedBoundaries := r.0.deletedBoundaries, nBoundaryEdges := r.0.nBoundaryEdges)
    ensures VerticesKept(m, r.0) && |r.0.boundaries| >= |m.boundaries|
    ensures r.0.nBoundaryEdges == m.nBoundaryEdges + (if ei >= 0 then 1 else 0)
  {
    if ei >= 0 then
      var (m1, b) := NewBoundary(m, Get(m.faces[f].vertices, i), ei);
      (SetReverseOf(m1, ei, b), b)
    else (m, InvalidId)
  }

  function DeleteNewAll(m: Mesh, f: int, e: Triple): (r: (Mesh, Triple))
    requires 0 <= f < |m.faces|
    ensures r.0 == m.(faces := r.0.faces, boundaries := r.0.boundaries, deletedBoundaries := r.0.deletedBoundaries, nBoundaryEdges := r.0.nBoundaryEdges)
    ensures VerticesKept(m, r.0) && |r.0.boundaries| >= |m.boundaries|
    ensures r.0.nBoundaryEdges == m.nBoundaryEdges + InteriorNeighbors(e)
  {
    var (m1, b0) := DeleteNew(m, f, 0, e.0);
    var (m2, b1) := DeleteNew(m1, f, 1, e.1);
    var (m3, b2) := DeleteNew(m2, f, 2, e.2);
    (m3, (b0, b1, b2))
  }

  /** Third loop, corner i: link the boundary around vertex i of f and fix its stored halfedge. */
  function DeleteFix(m: Mesh, f: int, i: int, e: Triple, near: ((int, int), (int, int), (int, int)), b: Triple): (r: Mesh)
    requires 0 <= f < |m.faces| && 0 <= i < 3
    ensures r == m.(boundaries := r.boundaries, vertexToEdge := r.vertexToEdge)
    ensures |r.boundaries| == |m.boundaries| && |r.vertexToEdge| == |m.vertexToEdge|
  {
    var ip := if i > 0 then i - 1 else 2;
    var nearI := if i == 0 then near.0 else if i == 1 then near.1 else near.2;
    var nearP := if ip == 0 then near.0 else if ip == 1 then near.1 else near.2;
    var v := Get(m.faces[f].vertices, i);
    var prev := if Get(e, ip) >= 0 then Get(b, ip) else nearP.0;
    var next := if Get(e, i) >= 0 then Get(b, i) else nearI.1;
    if Get(e, i) >= 0 || Get(e, ip) >= 0 || prev != Get(e, i) then
      SetVertexEdge(BoundaryLink(m, prev, next), v, next)
    else if VertexEdge(m, v) == Get(e, ip) then SetVertexEdge(m, v, InvalidId)
    else m
  }

  function DeleteFixAll(m: Mesh, f: int, e: Triple, near: ((int, int), (int, int), (int, int)), b: Triple): (r: Mesh)
    requires 0 <= f < |m.faces|
    ensures r == m.(boundaries := r.boundaries, vertexToEdge := r.vertexToEdge)
    ensures |r.boundaries| == |m.boundaries| && |r.vertexToEdge| == |m.vertexToEdge|
  {
    DeleteFix(DeleteFix(DeleteFix(m, f, 0, e, near, b), f, 1, e, near, b), f, 2, e, near, b)
  }

  /** Renaming face f1 to f, corner i. */
  function RenameCorner(m: Mesh, f: int, f1: int, info: FaceInfo, i: int): (r: Mesh)
    requires 0 <= i < 3
    ensures r == m.(faces := r.faces, boundaries := r.boundaries, vertexToEdge := r.vertexToEdge)
    ensures VerticesKept(m, r) && LinksKept(m, r) && |r.vertexToEdge| == |m.vertexToEdge|
  {
    var m1 := SetReverse(m, f, i, Get(info.neighbors, i));
    Redirect(m1, Get(info.vertices, i), {3 * f1 + i}, 3 * f + i)
  }

  /** Move the last face into slot f, if f is not the last. */
  function RenameLast(m: Mesh, f: int): (r: Mesh)
    requires 0 <= f < |m.faces|
    ensures r == m.(faces := r.faces, boundaries := r.boundaries, vertexToEdge := r.vertexToEdge)
    ensures |r.faces| == |m.faces| && LinksKept(m, r) && |r.vertexToEdge| == |m.vertexToEdge|
    ensures forall g :: 0 <= g < |m.faces| ==>
      r.faces[g].vertices == if g == f then m.faces[|m.faces| - 1].vertices else m.faces[g].vertices
  {
    var f1 := |m.faces| - 1;
    if f < f1 then
      var info := m.faces[f1];
      var m1 := SetVertices(m, f, info.vertices);
      RenameCorner(RenameCorner(RenameCorner(m1, f, f1, info, 0), f, f1, info, 1), f, f1, info, 2)
    else m
  }

  /** unsafe_delete_face (mesh/CornerMesh.cpp:470-519). */
  function UnsafeDeleteFace(m: Mesh, f: int): (r: Mesh)
    requires 0 <= f < |m.faces|
    ensures |r.faces| == |m.faces| - 1 && |r.vertexToEdge| == |m.vertexToEdge|
    ensures r.nFaces == m.nFaces - 1 && r.nVertices == m.nVertices
  {
    var e := m.faces[f].neighbors;
    var p1 := DeleteNearAll(m, e); var m1 := p1.0;
    var p2 := DeleteNewAll(m1, f, e); var m2 := p2.0;
    var m3 := DeleteFixAll(m2, f, e, p1.1, p2.1);
    var m4 := RenameLast(m3, f);
    m4.(faces := m4.faces[..|m4.faces| - 1], nFaces := m4.nFaces - 1)
  }

  /** The loop of unsafe_delete_last_vertex: delete the face across the stored halfedge of v until v is isolated. */
  function DeleteIncidentFaces(m: Mesh, v: int): (r: Mesh)
    ensures |r.vertexToEdge| == |m.vertexToEdge| && |r.faces| <= |m.faces| && r.nVertices == m.nVertices
    decreases |m.faces|
  {
    var f := Face(Reverse(m, VertexEdge(m, v)));
    if Isolated(m, v) || !(0 <= f < |m.faces|) then m
    else DeleteIncidentFaces(UnsafeDeleteFace(m, f), v)
  }

  /** unsafe_delete_last_vertex (mesh/CornerMesh.cpp:460-468). */
  function UnsafeDeleteLastVertex(m: Mesh): Mesh
    requires |m.vertexToEdge| > 0
  {
    var m1 := DeleteIncidentFaces(m, |m.vertexToEdge| - 1);
    m1.(vertexToEdge := m1.vertexToEdge[..|m1.vertexToEdge| - 1], nVertices := m1.nVertices - 1)
  }

  // ---------------------------------------------------------------------------
  // permute_vertices (mesh/CornerMesh.cpp:560-587)

  /** new[perm[v]] = old[v] for v < k, in increasing v, over an array of |old| entries filled with init. */
  function Scatter(perm: seq<int>, src: seq<int>, init: int, k: nat): (r: seq<int>)
    requires k <= |perm| && k <= |src|
    ensures |r| == |src|
  {
    if k == 0 then seq(|src|, _ => init)
    else
      var s := Scatter(perm, src, init, k - 1);
      if 0 <= perm[k - 1] < |src| then s[perm[k - 1] := src[k - 1]] else s
  }

  function MapVertex(perm: seq<int>, v: int): int
  {
    if 0 <= v < |perm| then perm[v] else v
  }

  function MapFace(perm: seq<int>, info: FaceInfo): FaceInfo
  {
    if info.vertices.0 != DeletedId then
      info.(vertices := (MapVertex(perm, info.vertices.0), MapVertex(perm, info.vertices.1),
                         MapVertex(perm, info.vertices.2)))
    else info
  }

  function MapBoundary(perm: seq<int>, b: BoundaryInfo): BoundaryInfo
  {
    if b.src != DeletedId then b.(src := MapVertex(perm, b.src)) else b
  }

  function PermuteVertices(m: Mesh, perm: seq<int>, check: bool): Result<Mesh>
  {
    if m.nVertices != |perm| || m.nVertices != |m.vertexToEdge| then Err(AssertionError)
    else if check && exists v :: 0 <= v < |perm| && !(0 <= perm[v] < |perm|) then Err(AssertionError)
    else
      var vte := Scatter(perm, m.vertexToEdge, if check then DeletedId else InvalidId, |perm|);
      if check && DeletedId in vte then Err(AssertionError)
      else Ok(m.(vertexToEdge := vte,
                 faces := seq(|m.faces|, f requires 0 <= f < |m.faces| => MapFace(perm, m.faces[f])),
                 boundaries := seq(|m.boundaries|, b requires 0 <= b < |m.boundaries| => MapBoundary(perm, m.boundaries[b]))))
  }

  // ---------------------------------------------------------------------------
  // assert_consistent (mesh/CornerMesh.cpp:313-393)

  /** Stored halfedges are valid and leave their vertex; the vertex count matches. */
  predicate VertexProps(m: Mesh)
  {
    m.nVertices == |m.vertexToEdge|
    && forall v :: 0 <= v < |m.vertexToEdge| && m.vertexToEdge[v] != InvalidId ==>
         ValidHalfedge(m, m.vertexToEdge[v]) && Src(m, m.vertexToEdge[v]) == v
  }

  /** The face count matches (the per-corner checks hold by construction of the ids). */
  predicate FaceProps(m: Mesh)
  {
    m.nFaces == |LiveFaces(m)|
  }

  /** 3*n_faces + n_boundary_edges is even: halfedges come in reverse pairs. */
  predicate Parity(m: Mesh)
  {
    (3 * m.nFaces + m.nBoundaryEdges) % 2 == 0
  }

  /** The per-halfedge checks. */
  predicate HalfedgeProps(m: Mesh, e: int)
  {
    var p := Prev(m, e);
    var n := Next(m, e);
    var r := Reverse(m, e);
    e != p && e != n && e != r
    && Src(m, r) == Src(m, n)
    && Src(m, e) != Dst(m, e)
    && ValidHalfedge(m, p) && Next(m, p) == e && Face(p) == Face(e)
    && ValidHalfedge(m, n) && Prev(m, n) == e && Face(n) == Face(e)
    && (Face(e) != InvalidId || Face(r) != InvalidId)
    && var ce := CommonHalfedge(m, Face(e), Face(r));
       ce != InvalidId && Face(ce) == Face(e) && Face(Reverse(m, ce)) == Face(r)
  }

  /** No two halfedges join the same ordered pair of vertices. */
  ghost predicate DistinctPairs(m: Mesh)
  {
    forall e, e' :: ValidHalfedge(m, e) && ValidHalfedge(m, e') && e != e' ==>
      (Src(m, e), Dst(m, e)) != (Src(m, e'), Dst(m, e'))
  }

  /** Swinging around each vertex reaches exactly its halfedges, and a vertex stores a
      boundary halfedge exactly when one of them is a boundary halfedge. */
  ghost predicate RingProps(m: Mesh)
  {
    (forall v, e :: 0 <= v < |m.vertexToEdge| && e in Outgoing(m, v) ==> ValidHalfedge(m, e) && Src(m, e) == v)
    && (forall v :: 0 <= v < |m.vertexToEdge| && m.vertexToEdge[v] != InvalidId ==>
          (IsBoundaryVertex(m, v) <==> exists e :: e in Outgoing(m, v) && IsBoundary(e)))
    && (forall e :: ValidHalfedge(m, e) ==> e in Outgoing(m, Src(m, e)))
  }

  /** The free list from b: the records it visits, or None if it leaves the arena or
      does not end within limit steps. */
  function FreeChain(m: Mesh, b: int, limit: nat): Option<seq<int>>
    decreases limit
  {
    if b == InvalidId then Some([])
    else if !BoundarySlot(m, b) || limit == 0 then None
    else match FreeChain(m, Next(m, b), limit - 1)
      case None => None
      case Some(rest) => Some([b] + rest)
  }

  datatype Option<T> = None | Some(value: T)

  /** Every deleted record is on the free list. */
  predicate FreeListProps(m: Mesh)
  {
    var chain := FreeChain(m, m.deletedBoundaries, |m.boundaries|);
    chain.Some? && m.nBoundaryEdges + |chain.value| == |m.boundaries|
  }

  ghost predicate Consistent(m: Mesh)
  {
    VertexProps(m) && FaceProps(m) && Parity(m)
    && (forall e :: ValidHalfedge(m, e) ==> HalfedgeProps(m, e))
    && DistinctPairs(m) && RingProps(m) && FreeListProps(m)
  }
}
