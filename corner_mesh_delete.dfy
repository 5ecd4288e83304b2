/**
 * unsafe_delete_last_vertex (mesh/CornerMesh.cpp:460-468): what its loop over
 * unsafe_delete_face removes, and what holds when it stops.
 *
 * Deleting a face moves the last face into its slot, so face ids are not kept; what is
 * kept is the multiset of vertex triples of the face slots, less the deleted one.
 */
module CornerMeshDeletion {
  import opened CornerMesh
  import opened CornerMeshLemmas
  import opened CornerMeshFreeList

  /** The vertex triple of every face slot, in slot order. */
  function FaceTriples(m: Mesh): (r: seq<Triple>)
    ensures |r| == |m.faces| && forall g :: 0 <= g < |m.faces| ==> r[g] == m.faces[g].vertices
  {
    seq(|m.faces|, g requires 0 <= g < |m.faces| => m.faces[g].vertices)
  }

  predicate InTriple(v: int, t: Triple)
  {
    t.0 == v || t.1 == v || t.2 == v
  }

  /** f is a face slot with v as a corner. */
  predicate FaceHas(m: Mesh, f: int, v: int)
  {
    0 <= f < |m.faces| && InTriple(v, m.faces[f].vertices)
  }

  /** The loop of unsafe_delete_last_vertex runs as the source expects from m: each face it
      deletes exists and has v as a corner, until v is isolated. */
  ghost predicate Detachable(m: Mesh, v: int)
    decreases |m.faces|
  {
    Isolated(m, v)
    || var f := Face(Reverse(m, VertexEdge(m, v)));
       0 <= f < |m.faces| && InTriple(v, m.faces[f].vertices) && Detachable(UnsafeDeleteFace(m, f), v)
  }

  /** Moving the last entry into slot f and dropping the last slot removes exactly s[f]. */
  lemma MoveLastTriples(s: seq<Triple>, s': seq<Triple>, f: int)
    requires 0 <= f < |s| && |s'| == |s| - 1
    requires forall g :: 0 <= g < |s'| ==> s'[g] == if g == f then s[|s| - 1] else s[g]
    ensures multiset(s') + multiset{s[f]} == multiset(s)
  {
    var last := |s| - 1;
    assert s == s[..last] + [s[last]];
    if f == last {
      assert s' == s[..last];
    } else {
      assert s[..last] == s[..f] + [s[f]] + s[f + 1..last];
      assert s' == s[..f] + [s[last]] + s[f + 1..last];
    }
  }

  lemma MoveLastFaces(m: Mesh, r: Mesh, f: int)
    requires 0 <= f < |m.faces| && |r.faces| == |m.faces| - 1
    requires forall g :: 0 <= g < |m.faces| - 1 ==>
      r.faces[g].vertices == if g == f then m.faces[|m.faces| - 1].vertices else m.faces[g].vertices
    ensures multiset(FaceTriples(r)) + multiset{m.faces[f].vertices} == multiset(FaceTriples(m))
  {
    MoveLastTriples(FaceTriples(m), FaceTriples(r), f);
  }

  /** unsafe_delete_face removes exactly the triple of the deleted face. */
  lemma UnsafeDeleteFaceTriples(m: Mesh, f: int)
    requires 0 <= f < |m.faces|
    ensures multiset(FaceTriples(UnsafeDeleteFace(m, f))) + multiset{m.faces[f].vertices} == multiset(FaceTriples(m))
  {
    UnsafeDeleteFaceShape(m, f);
    MoveLastFaces(m, UnsafeDeleteFace(m, f), f);
  }

  /**
   * The loop of unsafe_delete_last_vertex, when it runs as the source expects, stops with v
   * isolated, and removes only triples that have v as a corner: every other triple keeps
   * its multiplicity.
   */
  lemma {:induction false} DeleteIncidentFacesTriples(m: Mesh, v: int)
    requires Detachable(m, v)
    ensures var r := DeleteIncidentFaces(m, v);
      Isolated(r, v)
      && multiset(FaceTriples(r)) <= multiset(FaceTriples(m))
      && forall t :: !InTriple(v, t) ==> multiset(FaceTriples(r))[t] == multiset(FaceTriples(m))[t]
    decreases |m.faces|
  {
    if !Isolated(m, v) {
      var f := Face(Reverse(m, VertexEdge(m, v)));
      var m1 := UnsafeDeleteFace(m, f);
      UnsafeDeleteFaceTriples(m, f);
      DeleteIncidentFacesTriples(m1, v);
      var r := DeleteIncidentFaces(m1, v);
      assert DeleteIncidentFaces(m, v) == r;
      RemovedTriple(multiset(FaceTriples(m)), multiset(FaceTriples(m1)), multiset(FaceTriples(r)), m.faces[f].vertices, v);
    }
  }

  /** Removing a triple with v as a corner after removing others keeps the triples without v. */
  lemma RemovedTriple(a: multiset<Triple>, b: multiset<Triple>, c: multiset<Triple>, x: Triple, v: int)
    requires b + multiset{x} == a && InTriple(v, x) && c <= b
    requires forall t :: !InTriple(v, t) ==> c[t] == b[t]
    ensures c <= a && forall t :: !InTriple(v, t) ==> c[t] == a[t]
  {
  }

  /** In a mesh whose rings are consistent, an isolated vertex is a corner of no live face. */
  lemma IsolatedAbsent(m: Mesh, v: int)
    requires RingProps(m) && Isolated(m, v)
    ensures forall g :: ValidFace(m, g) ==> !InTriple(v, m.faces[g].vertices)
  {
    forall g | ValidFace(m, g) ensures !InTriple(v, m.faces[g].vertices) {
      CornerAbsent(m, v, g, 0);
      CornerAbsent(m, v, g, 1);
      CornerAbsent(m, v, g, 2);
    }
  }

  lemma CornerAbsent(m: Mesh, v: int, g: int, i: int)
    requires RingProps(m) && Isolated(m, v) && ValidFace(m, g) && 0 <= i < 3
    ensures Get(m.faces[g].vertices, i) != v
  {
    var c := 3 * g + i;
    CornerSlot(g, i);
    assert ValidHalfedge(m, c);
    assert c in Outgoing(m, Src(m, c));
  }

  /** A vertex with a boundary halfedge leaving it stores a boundary halfedge. */
  lemma BoundaryLeaving(m: Mesh, v: int, n: int)
    requires RingProps(m) && 0 <= v < |m.vertexToEdge| && m.vertexToEdge[v] != InvalidId
    requires ValidHalfedge(m, n) && n < 0 && Src(m, n) == v
    ensures m.vertexToEdge[v] < 0
  {
    assert n in Outgoing(m, v);
  }

  /**
   * On a mesh passing the per-vertex and per-halfedge checks, with consistent rings and
   * reverses that pair up, the face the loop body deletes exists and has v as a corner:
   * the stored halfedge h of v is valid, and the face of reverse(h) holds the halfedge
   * after reverse(h), which leaves v. That face is not missing: were reverse(h) a boundary
   * halfedge, h would be a face corner, and the next of reverse(h) a boundary halfedge
   * leaving v, so v would store a boundary halfedge rather than h.
   */
  lemma IncidentFaceOf(m: Mesh, v: int)
    requires VertexProps(m) && RingProps(m) && AllHalfedgeProps(m) && ReverseLive(m) && ReversePaired(m)
    requires 0 <= v < |m.vertexToEdge| && !Isolated(m, v)
    ensures var f := Face(Reverse(m, VertexEdge(m, v))); ValidFace(m, f) && FaceHas(m, f, v)
  {
    NamedEndsOf(m);
    IncidentFaceFrom(m, v);
  }

  lemma IncidentFaceFrom(m: Mesh, v: int)
    requires VertexProps(m) && RingProps(m) && NamedEnds(m)
    requires 0 <= v < |m.vertexToEdge| && !Isolated(m, v)
    ensures var f := Face(Reverse(m, VertexEdge(m, v))); ValidFace(m, f) && FaceHas(m, f, v)
  {
    var e := m.vertexToEdge[v];
    assert ValidHalfedge(m, e) && Src(m, e) == v;
    HalfedgeEndsOf(m, e);
    var r := Reverse(m, e);
    assert HalfedgeProps(m, r);
    var n := Next(m, r);
    if r < 0 {
      assert HalfedgeProps(m, e);
      BoundaryLeaving(m, v, n);
      assert false;
    }
    var f := r / 3;
    assert n >= 0 && n / 3 == f;
    assert Get(m.faces[f].vertices, n % 3) == v;
  }

  /** What the loop leaves, restated for the mesh after the pop. */
  lemma LastVertexDropped(m: Mesh, m1: Mesh, v: int, r: Mesh)
    requires 0 <= v < |m1.vertexToEdge| && Isolated(m1, v)
    requires r == m1.(vertexToEdge := m1.vertexToEdge[..v], nVertices := m1.nVertices - 1)
    requires forall t :: !InTriple(v, t) ==> multiset(FaceTriples(m1))[t] == multiset(FaceTriples(m))[t]
    ensures r.nVertices == m1.nVertices - 1 && r.vertexToEdge == m1.vertexToEdge[..v] && r.faces == m1.faces
    ensures forall t :: !InTriple(v, t) ==> multiset(FaceTriples(r))[t] == multiset(FaceTriples(m))[t]
    ensures RingProps(m1) ==> forall g :: ValidFace(r, g) ==> !InTriple(v, r.faces[g].vertices)
  {
    assert FaceTriples(r) == FaceTriples(m1);
    if RingProps(m1) {
      IsolatedAbsent(m1, v);
    }
  }

  /**
   * unsafe_delete_last_vertex, when its loop runs as the source expects: n_vertices drops by
   * one and the vertex array loses its last entry; the other triples are kept with their
   * multiplicity; and, when the rings are consistent once the loop stops, the vertex
   * removed is a corner of no live face.
   */
  lemma UnsafeDeleteLastVertexMeaning(m: Mesh)
    requires |m.vertexToEdge| > 0 && Detachable(m, |m.vertexToEdge| - 1)
    ensures var v := |m.vertexToEdge| - 1; var m1 := DeleteIncidentFaces(m, v); var r := UnsafeDeleteLastVertex(m);
      r.nVertices == m.nVertices - 1 && r.vertexToEdge == m1.vertexToEdge[..v] && r.faces == m1.faces
      && (forall t :: !InTriple(v, t) ==> multiset(FaceTriples(r))[t] == multiset(FaceTriples(m))[t])
      && (RingProps(m1) ==> forall g :: ValidFace(r, g) ==> !InTriple(v, r.faces[g].vertices))
  {
    var v := |m.vertexToEdge| - 1;
    LastVertexOf(m, v, DeleteIncidentFaces(m, v), UnsafeDeleteLastVertex(m));
  }

  lemma LastVertexOf(m: Mesh, v: int, m1: Mesh, r: Mesh)
    requires v == |m.vertexToEdge| - 1 && v >= 0 && Detachable(m, v)
    requires m1 == DeleteIncidentFaces(m, v) && r == m1.(vertexToEdge := m1.vertexToEdge[..v], nVertices := m1.nVertices - 1)
    ensures r.nVertices == m.nVertices - 1 && r.vertexToEdge == m1.vertexToEdge[..v] && r.faces == m1.faces
    ensures forall t :: !InTriple(v, t) ==> multiset(FaceTriples(r))[t] == multiset(FaceTriples(m))[t]
    ensures RingProps(m1) ==> forall g :: ValidFace(r, g) ==> !InTriple(v, r.faces[g].vertices)
  {
    DeleteIncidentFacesTriples(m, v);
    LastVertexDropped(m, m1, v, r);
  }
}
