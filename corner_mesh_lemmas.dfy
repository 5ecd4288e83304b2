/**
 * Properties of the corner mesh operations (mesh/CornerMesh.cpp): what each operation
 * does to the face list and the counters, the meaning of the queries, and the
 * invariants the mutations keep.
 */
module CornerMeshLemmas {
  import opened CornerMesh

  // ---------------------------------------------------------------------------
  // Ring walks

  /** is_manifold_with_boundary's inner loop finds a boundary halfedge exactly when the
      ring after its first halfedge contains one. */
  lemma {:induction false} SecondBoundaryMeaning(m: Mesh, start: int, e: int, fuel: nat)
    ensures SecondBoundary(m, start, e, fuel) <==>
      exists k :: 1 <= k < |RingFrom(m, start, e, fuel)| && IsBoundary(RingFrom(m, start, e, fuel)[k])
    decreases fuel
  {
    var ring := RingFrom(m, start, e, fuel);
    if fuel <= 1 || Left(m, e) == start {
      assert |ring| <= 1;
    } else {
      var rest := RingFrom(m, start, Left(m, e), fuel - 1);
      SecondBoundaryMeaning(m, start, Left(m, e), fuel - 1);
      assert ring == [e] + rest && rest[0] == Left(m, e);
      if SecondBoundary(m, start, e, fuel) {
        if IsBoundary(Left(m, e)) {
          assert IsBoundary(ring[1]);
        } else {
          var k :| 1 <= k < |rest| && IsBoundary(rest[k]);
          assert IsBoundary(ring[k + 1]);
        }
      } else {
        forall k | 1 <= k < |ring|
          ensures !IsBoundary(ring[k])
        {
          assert ring[k] == rest[k - 1];
        }
      }
    }
  }

  /** is_manifold_with_boundary: the mesh is closed, or no vertex storing a boundary halfedge
      has a second boundary halfedge among its outgoing halfedges. */
  lemma ManifoldWithBoundaryMeaning(m: Mesh)
    ensures IsManifoldWithBoundary(m) <==>
      IsManifold(m) || forall v :: 0 <= v < |m.vertexToEdge| && IsBoundary(m.vertexToEdge[v]) ==>
        forall k :: 1 <= k < |Outgoing(m, v)| ==> !IsBoundary(Outgoing(m, v)[k])
  {
    forall v | 0 <= v < |m.vertexToEdge|
      ensures BadBoundaryVertex(m, v) <==>
        IsBoundary(m.vertexToEdge[v]) && exists k :: 1 <= k < |Outgoing(m, v)| && IsBoundary(Outgoing(m, v)[k])
    {
      BadBoundaryVertexMeaning(m, v);
    }
  }

  /** The test of is_manifold_with_boundary at one vertex: its stored halfedge is a boundary one
      and another outgoing halfedge is too. */
  lemma BadBoundaryVertexMeaning(m: Mesh, v: int)
    requires 0 <= v < |m.vertexToEdge|
    ensures BadBoundaryVertex(m, v) <==>
      IsBoundary(m.vertexToEdge[v]) && exists k :: 1 <= k < |Outgoing(m, v)| && IsBoundary(Outgoing(m, v)[k])
  {
    var start := m.vertexToEdge[v];
    assert VertexEdge(m, v) == start;
    assert BadBoundaryVertex(m, v) == (IsBoundary(start) && SecondBoundary(m, start, start, Slots(m)));
    if start == InvalidId {
      assert Left(m, start) == start;
      assert !SecondBoundary(m, start, start, Slots(m));
      assert Outgoing(m, v) == [];
    } else {
      SecondBoundaryMeaning(m, start, start, Slots(m));
      assert Outgoing(m, v) == RingFrom(m, start, start, Slots(m));
    }
  }

  // ---------------------------------------------------------------------------
  // elements()

  lemma {:induction false} ElementsBelowKept(a: Mesh, b: Mesh, k: nat)
    requires k <= |a.faces| && k <= |b.faces|
    requires forall f :: 0 <= f < k ==> a.faces[f].vertices == b.faces[f].vertices
    ensures ElementsBelow(a, k) == ElementsBelow(b, k)
    decreases k
  {
    if k > 0 {
      ElementsBelowKept(a, b, k - 1);
    }
  }

  /** Writes that leave every face's vertices alone leave elements() alone. */
  lemma ElementsKept(a: Mesh, b: Mesh)
    requires VerticesKept(a, b)
    ensures Elements(a) == Elements(b)
  {
    ElementsBelowKept(a, b, |a.faces|);
  }

  /** Appending a face appends its triple to elements(), unless it is marked deleted. */
  lemma ElementsAppended(m: Mesh, m': Mesh, t: Triple)
    requires |m'.faces| == |m.faces| + 1 && m'.faces[|m.faces|].vertices == t
    requires forall f :: 0 <= f < |m.faces| ==> m'.faces[f].vertices == m.faces[f].vertices
    ensures Elements(m') == Elements(m) + (if t.0 != DeletedId then [t] else [])
  {
    ElementsBelowKept(m, m', |m.faces|);
  }

  /** With no face marked deleted, elements() lists every face's triple in face order. */
  lemma {:induction false} ElementsBelowAllLive(m: Mesh, k: nat)
    requires k <= |m.faces|
    requires forall f :: 0 <= f < |m.faces| ==> m.faces[f].vertices.0 != DeletedId
    ensures ElementsBelow(m, k) == seq(k, f requires 0 <= f < k => m.faces[f].vertices)
    decreases k
  {
    if k > 0 {
      ElementsBelowAllLive(m, k - 1);
    }
  }

  // ---------------------------------------------------------------------------
  // add_face

  /** The surgery appends one face with the given vertices, keeps all other faces' vertices,
      allocates a boundary halfedge for each missing edge and deletes each existing one. */
  lemma AddFaceSurgeryShape(m: Mesh, v: Triple, e: Triple, c: Triple)
    requires e.0 == InvalidId || BoundarySlot(m, e.0)
    requires e.1 == InvalidId || BoundarySlot(m, e.1)
    requires e.2 == InvalidId || BoundarySlot(m, e.2)
    ensures var (m', f) := AddFaceSurgery(m, v, e, c);
      f == |m.faces| && |m'.faces| == |m.faces| + 1 && m'.faces[f].vertices == v
      && (forall g :: 0 <= g < |m.faces| ==> m'.faces[g].vertices == m.faces[g].vertices)
      && m'.nFaces == m.nFaces + 1 && m'.nVertices == m.nVertices
      && m'.nBoundaryEdges == m.nBoundaryEdges + 3 - 2 * ExistingEdges(e)
      && |m'.vertexToEdge| == |m.vertexToEdge|
  {
    var m1 := RelinkAll(m, e, c);
    var ve := (VertexEdge(m1, v.0), VertexEdge(m1, v.1), VertexEdge(m1, v.2));
    var (m2, f, r) := NewFace(m1, v, e);
    var m3 := LinkFace(m2, f, e, r, ve);
    assert m3.faces[f].vertices == v;
    var m4 := DeleteExisting(m3, e);
    assert AddFaceSurgery(m, v, e, c) == (FixVertices(m4, v, r), f);
  }

  /**
   * add_face, on success, appends the new triple to elements(), returns the next face id
   * and counts one more face. The vertex array has fewer than numeric_limits<int>::max()
   * entries, so the new face is never mistaken for a deleted one.
   */
  lemma AddFaceElements(m: Mesh, v: Triple)
    requires |m.vertexToEdge| <= DeletedId
    requires AddFace(m, v).Ok?
    ensures Elements(AddFace(m, v).value.0) == Elements(m) + [v]
    ensures AddFace(m, v).value.1 == |m.faces| && AddFace(m, v).value.0.nFaces == m.nFaces + 1
    ensures AddFace(m, v).value.0.nVertices == m.nVertices
    ensures |AddFace(m, v).value.0.vertexToEdge| == |m.vertexToEdge|
  {
    var ec := AddFaceChecks(m, v, false).value;
    AddFaceSurgeryShape(m, v, ec.0, ec.1);
    var (m', f) := AddFace(m, v).value;
    ElementsAppended(m, m', v);
  }

  /** add_face keeps 3*n_faces + n_boundary_edges even. */
  lemma AddFaceParity(m: Mesh, v: Triple)
    requires Parity(m)
    requires AddFace(m, v).Ok?
    ensures Parity(AddFace(m, v).value.0)
  {
    var ec := AddFaceChecks(m, v, false).value;
    AddFaceSurgeryShape(m, v, ec.0, ec.1);
    var m' := AddFace(m, v).value.0;
    ParityShift(m, m', 3 - ExistingEdges(ec.0));
  }

  /** Adding an even number of halfedges keeps the parity. */
  lemma ParityShift(m: Mesh, m': Mesh, k: int)
    requires Parity(m)
    requires 3 * m'.nFaces + m'.nBoundaryEdges == 3 * m.nFaces + m.nBoundaryEdges + 2 * k
    ensures Parity(m')
  {
  }

  lemma AppendInTwo<T>(before: seq<T>, mid: seq<T>, after: seq<T>, xs: seq<T>)
    requires |xs| > 0 && mid == before + [xs[0]] && after == mid + xs[1..]
    ensures after == before + xs
  {
    assert [xs[0]] + xs[1..] == xs;
  }

  /** add_faces on a concatenation: the first run, then the second from where it stopped;
      an error in the first run is the result. */
  lemma {:induction false} AddFacesAppend(m: Mesh, p: seq<Triple>, q: seq<Triple>)
    ensures AddFaces(m, p + q) ==
      match AddFaces(m, p)
      case Err(err) => Err(err)
      case Ok(m1) => AddFaces(m1, q)
    decreases |p|
  {
    if |p| == 0 {
      assert p + q == q;
    } else {
      assert (p + q)[0] == p[0] && (p + q)[1..] == p[1..] + q;
      match AddFace(m, p[0])
      case Err(_) =>
      case Ok((m1, _)) => AddFacesAppend(m1, p[1..], q);
    }
  }

  /** The loop step of add_faces: from the mesh after the first k triples, a failing add_face
      fails the whole call, a succeeding one gives the mesh after k + 1 triples. */
  lemma AddFacesPrefix(m: Mesh, vs: seq<Triple>, k: nat, mk: Mesh)
    requires k < |vs| && AddFaces(m, vs[..k]) == Ok(mk)
    ensures AddFace(mk, vs[k]).Err? ==> AddFaces(m, vs).Err?
    ensures AddFace(mk, vs[k]).Ok? ==> AddFaces(m, vs[..k + 1]) == Ok(AddFace(mk, vs[k]).value.0)
  {
    SplitAt(vs, k);
    AddFacesAppend(m, vs[..k], vs[k..]);
    AddFacesHead(mk, vs[k..]);
    AddFacesAppend(m, vs[..k], [vs[k]]);
    AddFacesHead(mk, [vs[k]]);
  }

  lemma SplitAt<T>(s: seq<T>, k: nat)
    requires k < |s|
    ensures s[..k] + s[k..] == s && s[k..][0] == s[k] && s[k..][1..] == s[k + 1..]
    ensures s[..k + 1] == s[..k] + [s[k]] && [s[k]][1..] == []
  {
  }

  lemma AddFacesHead(m: Mesh, q: seq<Triple>)
    requires |q| > 0
    ensures AddFace(m, q[0]).Err? ==> AddFaces(m, q).Err?
    ensures AddFace(m, q[0]).Ok? ==> AddFaces(m, q) == AddFaces(AddFace(m, q[0]).value.0, q[1..])
  {
  }

  /** One step of add_faces: the mesh after its first triangle. */
  lemma AddFacesStep(m: Mesh, vs: seq<Triple>) returns (m1: Mesh)
    requires |m.vertexToEdge| <= DeletedId
    requires |vs| > 0 && AddFaces(m, vs).Ok?
    ensures AddFaces(m1, vs[1..]).Ok? && AddFaces(m, vs) == AddFaces(m1, vs[1..])
    ensures Elements(m1) == Elements(m) + [vs[0]] && m1.nFaces == m.nFaces + 1
    ensures |m1.vertexToEdge| == |m.vertexToEdge|
    ensures Parity(m) ==> Parity(m1)
  {
    m1 := AddFace(m, vs[0]).value.0;
    AddFaceElements(m, vs[0]);
    if Parity(m) {
      AddFaceParity(m, vs[0]);
    }
  }

  /** add_faces, on success, appends the triples in order to elements(), counts them, and
      keeps 3*n_faces + n_boundary_edges even. */
  lemma {:induction false} AddFacesElements(m: Mesh, vs: seq<Triple>, r: Mesh)
    requires |m.vertexToEdge| <= DeletedId
    requires AddFaces(m, vs) == Ok(r)
    ensures Elements(r) == Elements(m) + vs
    ensures r.nFaces == m.nFaces + |vs|
    ensures Parity(m) ==> Parity(r)
    decreases |vs|
  {
    if |vs| > 0 {
      var m1 := AddFacesStep(m, vs);
      AddFacesElements(m1, vs[1..], r);
      AppendInTwo(Elements(m), Elements(m1), Elements(r), vs);
    } else {
      assert vs == [];
    }
  }

  /** The checks of add_face: it fails with a RuntimeError exactly when a vertex is invalid,
      repeated or interior, when the first halfedge found along an edge is interior, or when
      two consecutive boundary halfedges lie on one triangle fan without being linked. */
  lemma AddFaceAccepts(m: Mesh, v: Triple)
    ensures AddFace(m, v).Err? ==> AddFace(m, v).error == RuntimeError
    ensures AddFace(m, v).Ok? <==>
      ValidVertex(m, v.0) && ValidVertex(m, v.1) && ValidVertex(m, v.2)
      && v.0 != v.1 && v.1 != v.2 && v.2 != v.0
      && IsBoundaryVertex(m, v.0) && IsBoundaryVertex(m, v.1) && IsBoundaryVertex(m, v.2)
      && var e := (HalfedgeBetween(m, v.0, v.1), HalfedgeBetween(m, v.1, v.2), HalfedgeBetween(m, v.2, v.0));
         IsBoundary(e.0) && IsBoundary(e.1) && IsBoundary(e.2)
         && !ClosesRing(e.0, e.1, Prepare(m, e.0, e.1)) && !ClosesRing(e.1, e.2, Prepare(m, e.1, e.2))
         && !ClosesRing(e.2, e.0, Prepare(m, e.2, e.0))
  {
  }

  /** RELINK (mesh/CornerMesh.cpp:166-175) splices the boundary loops so that b follows a,
      the old successor of a follows c, and the old successor of c follows the old
      predecessor of b; it needs the corrected closed-ring check, which keeps c apart
      from a, and the six records it touches distinct as a consistent mesh has them. */
  lemma RelinkJoins(m: Mesh, a: int, b: int, c: int)
    requires c != InvalidId && !ClosesRing(a, b, c)
    requires BoundarySlot(m, a) && BoundarySlot(m, Prev(m, b)) && BoundarySlot(m, c)
    requires BoundarySlot(m, b) && BoundarySlot(m, Next(m, a)) && BoundarySlot(m, Next(m, c))
    requires a != Prev(m, b) && c != Prev(m, b)
    requires b != Next(m, a) && b != Next(m, c) && Next(m, a) != Next(m, c)
    ensures var r := Relink(m, a, b, c);
      Next(r, a) == b && Prev(r, b) == a
      && Next(r, c) == Next(m, a) && Prev(r, Next(m, a)) == c
      && Next(r, Prev(m, b)) == Next(m, c) && Prev(r, Next(m, c)) == Prev(m, b)
  {
  }

  /** In a consistent mesh, halfedge(v0,v1) finds the interior halfedge from v0 to v1 when
      there is one. */
  lemma FindsInteriorEdge(m: Mesh, v0: int, v1: int, e: int)
    requires RingProps(m) && DistinctPairs(m) && ValidVertex(m, v0) && v1 >= 0
    requires ValidHalfedge(m, e) && !IsBoundary(e) && Src(m, e) == v0 && Dst(m, e) == v1
    ensures HalfedgeBetween(m, v0, v1) == e
  {
    assert e in Outgoing(m, v0);
    HalfedgeBetweenMeaning(m, v0, v1);
    var r := HalfedgeBetween(m, v0, v1);
    assert r != InvalidId && r in Outgoing(m, v0);
    assert ValidHalfedge(m, r) && Src(m, r) == v0;
  }

  /** add_face refuses a triangle one of whose edges is already the edge of a face with
      the same orientation. */
  lemma AddFaceRejectsInteriorEdge(m: Mesh, v: Triple, i: int, e: int)
    requires RingProps(m) && DistinctPairs(m)
    requires ValidVertex(m, v.0) && ValidVertex(m, v.1) && ValidVertex(m, v.2)
    requires 0 <= i < 3 && ValidHalfedge(m, e) && !IsBoundary(e)
    requires Src(m, e) == Get(v, i) && Dst(m, e) == Get(v, (i + 1) % 3)
    ensures AddFace(m, v) == Err(RuntimeError)
  {
    if i == 0 {
      FindsInteriorEdge(m, v.0, v.1, e);
    } else if i == 1 {
      FindsInteriorEdge(m, v.1, v.2, e);
    } else {
      FindsInteriorEdge(m, v.2, v.0, e);
    }
    AddFaceAccepts(m, v);
  }

  // ---------------------------------------------------------------------------
  // split_face

  /** split_face(f,c) asserts that f is a face and c isolated; it then replaces f by the
      three triangles (v[i], v[i+1], c), the first in slot f and the others appended, and
      points c at the halfedge of slot f leaving it. */
  lemma SplitFaceShape(m: Mesh, f: int, c: int)
    ensures SplitFace(m, f, c).Err? <==> !(ValidFace(m, f) && ValidVertex(m, c) && Isolated(m, c))
    ensures SplitFace(m, f, c).Err? ==> SplitFace(m, f, c).error == AssertionError
    ensures SplitFace(m, f, c).Ok? ==>
      var m' := SplitFace(m, f, c).value;
      var v := m.faces[f].vertices;
      var n := |m.faces|;
      |m'.faces| == n + 2
      && m'.faces[f].vertices == (v.0, v.1, c)
      && m'.faces[n].vertices == (v.1, v.2, c)
      && m'.faces[n + 1].vertices == (v.2, v.0, c)
      && (forall g :: 0 <= g < n && g != f ==> m'.faces[g].vertices == m.faces[g].vertices)
      && m'.nFaces == m.nFaces + 2 && m'.nBoundaryEdges == m.nBoundaryEdges
      && m'.nVertices == m.nVertices && |m'.vertexToEdge| == |m.vertexToEdge|
      && VertexEdge(m', c) == 3 * f + 2 && Face(VertexEdge(m', c)) == f
  {
    if ValidFace(m, f) && ValidVertex(m, c) && Isolated(m, c) {
      var m1 := SplitGrow(m);
      var m2 := SplitUpdates(m1, f, c, m.faces[f].vertices, m.faces[f].neighbors);
      SplitFaceSteps(m, m1, m2, SetVertexEdge(m2, c, 3 * f + 2), f, c);
    }
  }

  /** The split in its three steps: grow, the three UPDATEs, vertex_to_edge_[c]. */
  lemma SplitFaceSteps(m: Mesh, m1: Mesh, m2: Mesh, m3: Mesh, f: int, c: int)
    requires 0 <= f < |m.faces| && 0 <= c < |m.vertexToEdge|
    requires m1 == SplitGrow(m)
    requires m2 == SplitUpdates(m1, f, c, m.faces[f].vertices, m.faces[f].neighbors)
    requires m3 == SetVertexEdge(m2, c, 3 * f + 2)
    ensures var v := m.faces[f].vertices;
      var n := |m.faces|;
      |m3.faces| == n + 2
      && m3.faces[f].vertices == (v.0, v.1, c)
      && m3.faces[n].vertices == (v.1, v.2, c)
      && m3.faces[n + 1].vertices == (v.2, v.0, c)
      && (forall g :: 0 <= g < n && g != f ==> m3.faces[g].vertices == m.faces[g].vertices)
      && m3.nFaces == m.nFaces + 2 && m3.nBoundaryEdges == m.nBoundaryEdges
      && m3.nVertices == m.nVertices && |m3.vertexToEdge| == |m.vertexToEdge|
      && VertexEdge(m3, c) == 3 * f + 2
  {
    SplitUpdatesShape(m1, f, c, m.faces[f].vertices, m.faces[f].neighbors);
    forall g | 0 <= g < |m.faces| && g != f
      ensures m3.faces[g].vertices == m.faces[g].vertices
    {
      SplitUpdatesKeep(m1, f, c, m.faces[f].vertices, m.faces[f].neighbors, g);
    }
  }


  /** One UPDATE step writes the vertices of face g and of no other face. */
  lemma SplitWriteVertices(m: Mesh, g: int, t: Triple, n0: int, a: int, b: int, h: int)
    requires 0 <= h < |m.faces|
    ensures SplitWrite(m, g, t, n0, a, b).faces[h].vertices == if h == g then t else m.faces[h].vertices
  {
    var m1 := SetVertices(m, g, t);
    assert m1.faces[h].vertices == if h == g then t else m.faces[h].vertices;
    var m2 := SetReverse(m1, g, 0, n0);
    var m3 := SetReverseOf(m2, 3 * g + 1, a);
    assert VerticesKept(m1, m2) && VerticesKept(m2, m3) && VerticesKept(m3, SetReverseOf(m3, 3 * g + 2, b));
  }

  lemma SplitUpdateVertices(m: Mesh, f: int, c: int, v: Triple, n: Triple, fs: Triple, i: int, h: int)
    requires 0 <= i < 3 && 0 <= h < |m.faces|
    ensures SplitUpdate(m, f, c, v, n, fs, i).faces[h].vertices ==
      if h == Get(fs, i) then (Get(v, i), Get(v, Succ3(i)), c) else m.faces[h].vertices
  {
    SplitWriteVertices(m, Get(fs, i), (Get(v, i), Get(v, Succ3(i)), c), Get(n, i),
                       3 * Get(fs, Succ3(i)) + 2, 3 * Get(fs, Pred3(i)) + 1, h);
  }

  /** The three updates give f and the two new faces their triangles, and touch no counter. */
  lemma SplitUpdatesShape(m: Mesh, f: int, c: int, v: Triple, n: Triple)
    requires 0 <= f < |m.faces| - 2
    ensures var r := SplitUpdates(m, f, c, v, n);
      r == m.(faces := r.faces, boundaries := r.boundaries, vertexToEdge := r.vertexToEdge)
      && |r.faces| == |m.faces| && |r.boundaries| == |m.boundaries| && |r.vertexToEdge| == |m.vertexToEdge|
      && r.faces[f].vertices == (v.0, v.1, c)
      && r.faces[|m.faces| - 2].vertices == (v.1, v.2, c)
      && r.faces[|m.faces| - 1].vertices == (v.2, v.0, c)
  {
    var fs := (f, |m.faces| - 2, |m.faces| - 1);
    var m1 := SplitUpdate(m, f, c, v, n, fs, 0);
    var m2 := SplitUpdate(m1, f, c, v, n, fs, 1);
    SplitUpdatesOld(m, f, c, v, n);
    SplitUpdatesFirstNew(m, f, c, v, n);
    SplitUpdateVertices(m2, f, c, v, n, fs, 2, fs.2);
  }

  /** The vertices of face h after the three UPDATE steps, each step given as its own mesh. */
  lemma SplitThreeVertices(m: Mesh, m1: Mesh, m2: Mesh, m3: Mesh, f: int, c: int, v: Triple, n: Triple, h: int)
    requires 0 <= f < |m.faces| - 2 && 0 <= h < |m.faces|
    requires m1 == SplitUpdate(m, f, c, v, n, (f, |m.faces| - 2, |m.faces| - 1), 0)
    requires m2 == SplitUpdate(m1, f, c, v, n, (f, |m.faces| - 2, |m.faces| - 1), 1)
    requires m3 == SplitUpdate(m2, f, c, v, n, (f, |m.faces| - 2, |m.faces| - 1), 2)
    ensures m3.faces[h].vertices ==
      if h == f then (v.0, v.1, c)
      else if h == |m.faces| - 2 then (v.1, v.2, c)
      else if h == |m.faces| - 1 then (v.2, v.0, c)
      else m.faces[h].vertices
  {
    var fs := (f, |m.faces| - 2, |m.faces| - 1);
    SplitUpdateVertices(m, f, c, v, n, fs, 0, h);
    SplitUpdateVertices(m1, f, c, v, n, fs, 1, h);
    SplitUpdateVertices(m2, f, c, v, n, fs, 2, h);
  }

  /** UPDATE(0) writes f, which UPDATE(1) and UPDATE(2) leave alone. */
  lemma SplitUpdatesOld(m: Mesh, f: int, c: int, v: Triple, n: Triple)
    requires 0 <= f < |m.faces| - 2
    ensures SplitUpdates(m, f, c, v, n).faces[f].vertices == (v.0, v.1, c)
  {
    var fs := (f, |m.faces| - 2, |m.faces| - 1);
    var m1 := SplitUpdate(m, f, c, v, n, fs, 0);
    var m2 := SplitUpdate(m1, f, c, v, n, fs, 1);
    SplitThreeVertices(m, m1, m2, SplitUpdate(m2, f, c, v, n, fs, 2), f, c, v, n, f);
  }

  /** UPDATE(1) writes the first new face, which UPDATE(2) leaves alone. */
  lemma SplitUpdatesFirstNew(m: Mesh, f: int, c: int, v: Triple, n: Triple)
    requires 0 <= f < |m.faces| - 2
    ensures SplitUpdates(m, f, c, v, n).faces[|m.faces| - 2].vertices == (v.1, v.2, c)
  {
    var fs := (f, |m.faces| - 2, |m.faces| - 1);
    var m1 := SplitUpdate(m, f, c, v, n, fs, 0);
    var m2 := SplitUpdate(m1, f, c, v, n, fs, 1);
    SplitThreeVertices(m, m1, m2, SplitUpdate(m2, f, c, v, n, fs, 2), f, c, v, n, |m.faces| - 2);
  }

  /** The three updates keep the vertices of every old face other than f. */
  lemma SplitUpdatesKeep(m: Mesh, f: int, c: int, v: Triple, n: Triple, g: int)
    requires 0 <= f < |m.faces| - 2 && 0 <= g < |m.faces| - 2 && g != f
    ensures SplitUpdates(m, f, c, v, n).faces[g].vertices == m.faces[g].vertices
  {
    var fs := (f, |m.faces| - 2, |m.faces| - 1);
    var m1 := SplitUpdate(m, f, c, v, n, fs, 0);
    var m2 := SplitUpdate(m1, f, c, v, n, fs, 1);
    SplitThreeVertices(m, m1, m2, SplitUpdate(m2, f, c, v, n, fs, 2), f, c, v, n, g);
  }

  /** split_face keeps 3*n_faces + n_boundary_edges even. */
  lemma SplitFaceParity(m: Mesh, f: int, c: int)
    requires Parity(m) && SplitFace(m, f, c).Ok?
    ensures Parity(SplitFace(m, f, c).value)
  {
    SplitFaceShape(m, f, c);
    ParityShift(m, SplitFace(m, f, c).value, 3);
  }

  // ---------------------------------------------------------------------------
  // unsafe_delete_face

  /** A face's neighbour entry is attached when it names a face corner or a boundary record slot. */
  predicate Attached(m: Mesh, n: int)
  {
    n >= 0 || BoundarySlot(m, n)
  }

  /** Deleting face f moves the last face into slot f and drops the last slot; each boundary
      neighbour's halfedge is freed and each interior neighbour gains a new boundary halfedge. */
  lemma UnsafeDeleteFaceShape(m: Mesh, f: int)
    requires 0 <= f < |m.faces|
    ensures var r := UnsafeDeleteFace(m, f);
      && |r.faces| == |m.faces| - 1 && r.nFaces == m.nFaces - 1
      && (forall g :: 0 <= g < |m.faces| - 1 ==>
            r.faces[g].vertices == if g == f then m.faces[|m.faces| - 1].vertices else m.faces[g].vertices)
      && r.nBoundaryEdges == m.nBoundaryEdges - BoundaryNeighbors(m, m.faces[f].neighbors)
                             + InteriorNeighbors(m.faces[f].neighbors)
  {
    var e := m.faces[f].neighbors;
    var p1 := DeleteNearAll(m, e); var m1 := p1.0;
    var p2 := DeleteNewAll(m1, f, e); var m2 := p2.0;
    var m3 := DeleteFixAll(m2, f, e, p1.1, p2.1);
    var m4 := RenameLast(m3, f);
    assert UnsafeDeleteFace(m, f) == m4.(faces := m4.faces[..|m4.faces| - 1], nFaces := m4.nFaces - 1);
    assert m1.faces == m.faces;
    assert VerticesKept(m1, m2) && m3.faces == m2.faces;
  }

  /** When every neighbour of f is a face corner or a boundary record, deleting f keeps the
      parity of 3 * n_faces + n_boundary_edges. */
  lemma UnsafeDeleteFaceParity(m: Mesh, f: int)
    requires 0 <= f < |m.faces| && Parity(m)
    requires Attached(m, m.faces[f].neighbors.0) && Attached(m, m.faces[f].neighbors.1)
             && Attached(m, m.faces[f].neighbors.2)
    ensures Parity(UnsafeDeleteFace(m, f))
  {
    var e := m.faces[f].neighbors;
    var r := UnsafeDeleteFace(m, f);
    UnsafeDeleteFaceShape(m, f);
    var k := BoundaryNeighbors(m, e);
    assert k + InteriorNeighbors(e) == 3;
    assert 3 * r.nFaces + r.nBoundaryEdges == 3 * m.nFaces + m.nBoundaryEdges - 2 * k;
    ParityShift(m, r, -k);
  }

  /** Moving the last face into slot f and dropping the last slot, on a mesh with no deleted faces. */
  lemma ElementsMoveLast(m: Mesh, r: Mesh, f: int)
    requires 0 <= f < |m.faces| && |r.faces| == |m.faces| - 1
    requires forall g :: 0 <= g < |m.faces| ==> m.faces[g].vertices.0 != DeletedId
    requires forall g :: 0 <= g < |m.faces| - 1 ==>
      r.faces[g].vertices == if g == f then m.faces[|m.faces| - 1].vertices else m.faces[g].vertices
    ensures var n := |m.faces| - 1;
      |Elements(m)| == n + 1 && Elements(r) == Elements(m)[f := Elements(m)[n]][..n]
  {
    var n := |m.faces| - 1;
    var em := Elements(m);
    var er := Elements(r);
    ElementsBelowAllLive(m, |m.faces|);
    assert forall g :: 0 <= g < n ==> r.faces[g].vertices.0 != DeletedId;
    ElementsBelowAllLive(r, |r.faces|);
    var want := em[f := em[n]][..n];
    assert |want| == n == |er|;
    assert forall g :: 0 <= g < n ==> want[g] == er[g];
  }

  /** On a mesh with no deleted faces, elements() after deleting f is elements() with entry f
      overwritten by the last entry, and the last entry dropped. */
  lemma UnsafeDeleteFaceElements(m: Mesh, f: int)
    requires 0 <= f < |m.faces|
    requires forall g :: 0 <= g < |m.faces| ==> m.faces[g].vertices.0 != DeletedId
    ensures var n := |m.faces| - 1;
      |Elements(m)| == n + 1 && Elements(UnsafeDeleteFace(m, f)) == Elements(m)[f := Elements(m)[n]][..n]
  {
    UnsafeDeleteFaceShape(m, f);
    ElementsMoveLast(m, UnsafeDeleteFace(m, f), f);
  }

  // ---------------------------------------------------------------------------
  // Edge flips

  /** is_flip_safe refuses an invalid or boundary halfedge, one whose reverse is a boundary,
      coinciding apexes o0, o1, and apexes already joined by a halfedge from o0 to o1;
      flip_edge throws exactly when it refuses, and otherwise performs the flip. */
  lemma FlipSafeMeaning(m: Mesh, e0: int)
    ensures var e1 := Reverse(m, e0);
      var o0 := Opposite(m, e0); var o1 := Opposite(m, e1);
      o1 != InvalidId ==>
        (IsFlipSafe(m, e0) <==>
           ValidHalfedge(m, e0) && !IsBoundary(e0) && !IsBoundary(e1) && o0 != o1
           && forall x :: x in Outgoing(m, o0) ==> Dst(m, x) != o1)
    ensures FlipEdge(m, e0).Err? <==> !IsFlipSafe(m, e0)
    ensures FlipEdge(m, e0).Err? ==> FlipEdge(m, e0).error == RuntimeError
    ensures FlipEdge(m, e0).Ok? ==> FlipEdge(m, e0).value == UnsafeFlipEdge(m, e0)
  {
    HalfedgeBetweenMeaning(m, Opposite(m, e0), Opposite(m, Reverse(m, e0)));
  }

  /** Writing the reverse of one slot changes reverse() there and nowhere else. */
  lemma ReverseAfterSetReverseOf(m: Mesh, e: int, r: int, x: int)
    ensures Reverse(SetReverseOf(m, e, r), x)
            == if x == e && (FaceSlot(m, e) || BoundarySlot(m, e)) then r else Reverse(m, x)
  {
  }

  /** unsafe_set_reverse(f, i, r) pairs corner i of f with r, both ways. */
  lemma ReverseAfterSetReverse(m: Mesh, f: int, i: int, r: int, x: int)
    requires 0 <= f < |m.faces| && 0 <= i < 3
    requires FaceSlot(m, r) || BoundarySlot(m, r)
    requires r != 3 * f + i
    ensures Reverse(SetReverse(m, f, i, r), x)
            == if x == 3 * f + i then r else if x == r then 3 * f + i else Reverse(m, x)
  {
    var m1 := SetReverseOf(m, 3 * f + i, r);
    ReverseAfterSetReverseOf(m, 3 * f + i, r, x);
    ReverseAfterSetReverseOf(m1, r, 3 * f + i, x);
  }

  /** The first two writes of the flip's rewiring: corners 0 of f0 and f1 become each other's reverse. */
  lemma ReverseAfterPairingCorners(m: Mesh, f0: int, f1: int, x: int)
    requires 0 <= f0 < |m.faces| && 0 <= f1 < |m.faces| && f0 != f1
    ensures Reverse(SetReverseOf(SetReverseOf(m, 3 * f0, 3 * f1), 3 * f1, 3 * f0), x)
            == PairedReverse(f0, f1, x, Reverse(m, x))
  {
    var m1 := SetReverseOf(m, 3 * f0, 3 * f1);
    assert FaceSlot(m, 3 * f0) && FaceSlot(m1, 3 * f1);
    ReverseAfterSetReverseOf(m, 3 * f0, 3 * f1, x);
    ReverseAfterSetReverseOf(m1, 3 * f1, 3 * f0, x);
  }

  /** Rewriting a face's vertices leaves every reverse() alone. */
  lemma ReverseAfterSetVertices(m: Mesh, f: int, t: Triple, x: int)
    ensures Reverse(SetVertices(m, f, t), x) == Reverse(m, x)
  {
  }

  /** y is none of the six corners of faces f0 and f1. */
  predicate Outside(y: int, f0: int, f1: int)
  {
    y != 3 * f0 && y != 3 * f0 + 1 && y != 3 * f0 + 2 && y != 3 * f1 && y != 3 * f1 + 1 && y != 3 * f1 + 2
  }

  /** An outer neighbour of the flip: an existing slot that is none of the six corners. */
  predicate OuterOk(m: Mesh, y: int, f0: int, f1: int)
  {
    (FaceSlot(m, y) || BoundarySlot(m, y)) && Outside(y, f0, f1)
  }

  /** reverse() at x after corners 1 and 2 of f are paired with a and b; r is the value before. */
  function TwoSetsReverse(f: int, a: int, b: int, x: int, r: int): int
  {
    if x == 3 * f + 1 then a else if x == a then 3 * f + 1
    else if x == 3 * f + 2 then b else if x == b then 3 * f + 2
    else r
  }

  /** reverse() at x after corners 0 of f0 and f1 are paired; r is the value before. */
  function PairedReverse(f0: int, f1: int, x: int, r: int): int
  {
    if x == 3 * f0 then 3 * f1 else if x == 3 * f1 then 3 * f0 else r
  }

  lemma ReverseAfterTwoSets(m: Mesh, f: int, f0: int, f1: int, a: int, b: int, x: int)
    requires 0 <= f0 < |m.faces| && 0 <= f1 < |m.faces| && (f == f0 || f == f1)
    requires OuterOk(m, a, f0, f1) && OuterOk(m, b, f0, f1) && a != b
    ensures Reverse(SetTwoReverses(m, f, a, b), x) == TwoSetsReverse(f, a, b, x, Reverse(m, x))
  {
    ReverseAfterSetReverse(m, f, 1, a, x);
    ReverseAfterSetReverse(SetReverse(m, f, 1, a), f, 2, b, x);
  }

  /** The four unsafe_set_reverse calls of unsafe_flip_edge, on distinct outer halfedges. */
  lemma ReverseAfterFourSets(m: Mesh, f0: int, f1: int, a: int, b: int, c: int, d: int, x: int)
    requires 0 <= f0 < |m.faces| && 0 <= f1 < |m.faces| && f0 != f1
    requires OuterOk(m, a, f0, f1) && OuterOk(m, b, f0, f1) && OuterOk(m, c, f0, f1) && OuterOk(m, d, f0, f1)
    requires a != b && a != c && a != d && b != c && b != d && c != d
    ensures Reverse(FlipReverses(m, f0, f1, a, b, c, d), x)
            == TwoSetsReverse(f0, a, b, x, TwoSetsReverse(f1, c, d, x, Reverse(m, x)))
  {
    var m2 := SetTwoReverses(m, f0, a, b);
    ReverseAfterTwoSets(m, f0, f0, f1, a, b, x);
    ReverseAfterTwoSets(m2, f1, f0, f1, c, d, x);
    TwoSetsCommute(f0, f1, a, b, c, d, x, Reverse(m, x));
  }

  /** The pairings of the two faces touch disjoint halfedges, so they commute. */
  lemma TwoSetsCommute(f0: int, f1: int, a: int, b: int, c: int, d: int, x: int, r: int)
    requires f0 != f1
    requires Outside(a, f0, f1) && Outside(b, f0, f1) && Outside(c, f0, f1) && Outside(d, f0, f1)
    requires a != b && a != c && a != d && b != c && b != d && c != d
    ensures TwoSetsReverse(f1, c, d, x, TwoSetsReverse(f0, a, b, x, r))
            == TwoSetsReverse(f0, a, b, x, TwoSetsReverse(f1, c, d, x, r))
  {
  }

  /** The halfedges across the four outer edges of the two triangles around e0, in the order
      unsafe_flip_edge attaches them: (rp1, rn0, rp0, rn1). */
  function OuterReverses(m: Mesh, e0: int): (int, int, int, int)
  {
    var e1 := Reverse(m, e0);
    (Reverse(m, Prev(m, e1)), Reverse(m, Next(m, e0)), Reverse(m, Prev(m, e0)), Reverse(m, Next(m, e1)))
  }

  /** The local shape unsafe_flip_edge relies on: e0 is flip-safe, its two faces differ, and the
      four outer neighbours are distinct existing slots outside both faces. */
  predicate FlipReady(m: Mesh, e0: int)
  {
    IsFlipSafe(m, e0)
    && var e1 := Reverse(m, e0);
    FaceSlot(m, e1) && Face(e0) != Face(e1)
    && var (a, b, c, d) := OuterReverses(m, e0);
    && OuterOk(m, a, Face(e0), Face(e1)) && OuterOk(m, b, Face(e0), Face(e1))
    && OuterOk(m, c, Face(e0), Face(e1)) && OuterOk(m, d, Face(e0), Face(e1))
    && a != b && a != c && a != d && b != c && b != d && c != d
  }

  /** The staged meshes of unsafe_flip_edge up to the reverse rewiring. */
  function FlipStages(m: Mesh, e0: int): (r: (Mesh, Mesh))
    ensures var f0 := Face(e0); var f1 := Face(Reverse(m, e0)); var (a, b, c, d) := OuterReverses(m, e0);
      r.1 == FlipReverses(SetReverseOf(SetReverseOf(r.0, 3 * f0, 3 * f1), 3 * f1, 3 * f0), f0, f1, a, b, c, d)
    ensures r.0 == m.(faces := r.0.faces) && |r.0.faces| == |m.faces|
    ensures forall x :: Reverse(r.0, x) == Reverse(m, x)
  {
    var e1 := Reverse(m, e0);
    var f0 := Face(e0); var f1 := Face(e1);
    var (a, b, c, d) := OuterReverses(m, e0);
    var m1 := SetVertices(SetVertices(m, f0, (Opposite(m, e0), Opposite(m, e1), Src(m, e1))), f1,
                          (Opposite(m, e1), Opposite(m, e0), Src(m, e0)));
    var m2 := SetReverseOf(SetReverseOf(m1, 3 * f0, 3 * f1), 3 * f1, 3 * f0);
    assert forall x :: Reverse(m1, x) == Reverse(m, x) by {
      forall x
        ensures Reverse(m1, x) == Reverse(m, x)
      {
        var t0 := (Opposite(m, e0), Opposite(m, e1), Src(m, e1));
        ReverseAfterSetVertices(m, f0, t0, x);
        ReverseAfterSetVertices(SetVertices(m, f0, t0), f1, (Opposite(m, e1), Opposite(m, e0), Src(m, e0)), x);
      }
    }
    (m1, FlipReverses(m2, f0, f1, a, b, c, d))
  }

  lemma UnsafeFlipEdgeStages(m: Mesh, e0: int)
    ensures var r := UnsafeFlipEdge(m, e0).0; var m3 := FlipStages(m, e0).1;
      r.faces == m3.faces && r.boundaries == m3.boundaries
  {
  }

  /** unsafe_flip_edge replaces the triangles (v0, v1, o0) and (v1, v0, o1) by (o0, o1, v1) and
      (o1, o0, v0), returns corner 0 of the first, and touches no other face or counter. */
  lemma UnsafeFlipEdgeVertices(m: Mesh, e0: int)
    requires FlipReady(m, e0)
    ensures var e1 := Reverse(m, e0);
      var f0 := Face(e0); var f1 := Face(e1);
      var o0 := Opposite(m, e0); var o1 := Opposite(m, e1);
      var v0 := Src(m, e0); var v1 := Src(m, e1);
      var r := UnsafeFlipEdge(m, e0).0;
      && UnsafeFlipEdge(m, e0).1 == 3 * f0
      && |r.faces| == |m.faces| && |r.boundaries| == |m.boundaries| && |r.vertexToEdge| == |m.vertexToEdge|
      && r.nFaces == m.nFaces && r.nBoundaryEdges == m.nBoundaryEdges && r.nVertices == m.nVertices
      && r.faces[f0].vertices == (o0, o1, v1) && r.faces[f1].vertices == (o1, o0, v0)
      && (forall g :: 0 <= g < |m.faces| && g != f0 && g != f1 ==> r.faces[g].vertices == m.faces[g].vertices)
  {
    var (m1, m3) := FlipStages(m, e0);
    UnsafeFlipEdgeStages(m, e0);
    FlipStagesKept(m, e0);
    FlipStagesVertices(m, e0);
  }

  /** The first stage of unsafe_flip_edge rewrites the vertices of f0 and f1 only. */
  lemma FlipStagesVertices(m: Mesh, e0: int)
    requires FlipReady(m, e0)
    ensures var e1 := Reverse(m, e0);
      var f0 := Face(e0); var f1 := Face(e1);
      var m1 := FlipStages(m, e0).0;
      && 0 <= f0 < |m1.faces| && 0 <= f1 < |m1.faces|
      && m1.faces[f0].vertices == (Opposite(m, e0), Opposite(m, e1), Src(m, e1))
      && m1.faces[f1].vertices == (Opposite(m, e1), Opposite(m, e0), Src(m, e0))
      && forall g :: 0 <= g < |m.faces| && g != f0 && g != f1 ==> m1.faces[g].vertices == m.faces[g].vertices
  {
    var e1 := Reverse(m, e0);
    var t0 := (Opposite(m, e0), Opposite(m, e1), Src(m, e1));
    var t1 := (Opposite(m, e1), Opposite(m, e0), Src(m, e0));
    assert FlipStages(m, e0).0 == SetVertices(SetVertices(m, Face(e0), t0), Face(e1), t1);
    SetVerticesTwice(m, Face(e0), Face(e1), t0, t1);
  }

  /** Rewriting the vertices of two distinct faces. */
  lemma SetVerticesTwice(m: Mesh, f0: int, f1: int, t0: Triple, t1: Triple)
    requires 0 <= f0 < |m.faces| && 0 <= f1 < |m.faces| && f0 != f1
    ensures var r := SetVertices(SetVertices(m, f0, t0), f1, t1);
      && |r.faces| == |m.faces| && r.faces[f0].vertices == t0 && r.faces[f1].vertices == t1
      && forall g :: 0 <= g < |m.faces| && g != f0 && g != f1 ==> r.faces[g].vertices == m.faces[g].vertices
  {
  }

  /** The reverse rewiring stages of unsafe_flip_edge keep every face's vertices. */
  lemma FlipStagesKept(m: Mesh, e0: int)
    ensures VerticesKept(FlipStages(m, e0).0, FlipStages(m, e0).1)
  {
    var f0 := Face(e0); var f1 := Face(Reverse(m, e0));
    var m1 := FlipStages(m, e0).0;
    var ma := SetReverseOf(m1, 3 * f0, 3 * f1);
    var mb := SetReverseOf(ma, 3 * f1, 3 * f0);
    var (a, b, c, d) := OuterReverses(m, e0);
    VerticesKeptTrans(m1, ma, mb);
    VerticesKeptTrans(m1, mb, FlipReverses(mb, f0, f1, a, b, c, d));
  }

  lemma VerticesKeptTrans(a: Mesh, b: Mesh, c: Mesh)
    requires VerticesKept(a, b) && VerticesKept(b, c)
    ensures VerticesKept(a, c)
  {
  }

  /** reverse() after the flip's rewiring: corners 0 of f0 and f1 paired with each other, corners
      1 and 2 paired with the outer neighbours a, b (of f0) and c, d (of f1), all else as before. */
  function Rewired(m: Mesh, f0: int, f1: int, a: int, b: int, c: int, d: int, x: int): int
  {
    PairedReverse(f0, f1, x, TwoSetsReverse(f0, a, b, x, TwoSetsReverse(f1, c, d, x, Reverse(m, x))))
  }

  /** The reverse rewiring of unsafe_flip_edge on any mesh where the outer halfedges are distinct
      slots outside the two faces. */
  lemma FlipRewiring(m1: Mesh, f0: int, f1: int, a: int, b: int, c: int, d: int)
    requires 0 <= f0 < |m1.faces| && 0 <= f1 < |m1.faces| && f0 != f1
    requires OuterOk(m1, a, f0, f1) && OuterOk(m1, b, f0, f1) && OuterOk(m1, c, f0, f1) && OuterOk(m1, d, f0, f1)
    requires a != b && a != c && a != d && b != c && b != d && c != d
    ensures var r := FlipReverses(SetReverseOf(SetReverseOf(m1, 3 * f0, 3 * f1), 3 * f1, 3 * f0), f0, f1, a, b, c, d);
      forall x :: Reverse(r, x) == Rewired(m1, f0, f1, a, b, c, d, x)
  {
    var m2 := SetReverseOf(SetReverseOf(m1, 3 * f0, 3 * f1), 3 * f1, 3 * f0);
    PairingCornersShape(m1, f0, f1);
    OuterOkKept(m1, m2, a, f0, f1);
    OuterOkKept(m1, m2, b, f0, f1);
    OuterOkKept(m1, m2, c, f0, f1);
    OuterOkKept(m1, m2, d, f0, f1);
    var r := FlipReverses(m2, f0, f1, a, b, c, d);
    forall x
      ensures Reverse(r, x) == Rewired(m1, f0, f1, a, b, c, d, x)
    {
      ReverseAfterPairingCorners(m1, f0, f1, x);
      ReverseAfterFourSets(m2, f0, f1, a, b, c, d, x);
      RewiredGlue(f0, f1, a, b, c, d, x, Reverse(m1, x), Reverse(m2, x), Reverse(r, x));
    }
  }

  /** Pairing the two corners 0 changes only face records. */
  lemma PairingCornersShape(m: Mesh, f0: int, f1: int)
    requires 0 <= f0 < |m.faces| && 0 <= f1 < |m.faces|
    ensures var m2 := SetReverseOf(SetReverseOf(m, 3 * f0, 3 * f1), 3 * f1, 3 * f0);
      |m2.faces| == |m.faces| && m2.boundaries == m.boundaries
  {
    var m1 := SetReverseOf(m, 3 * f0, 3 * f1);
    assert 3 * f0 / 3 == f0 && 3 * f1 / 3 == f1;
    assert |m1.faces| == |m.faces| && m1.boundaries == m.boundaries;
  }

  /** The two rewirings of unsafe_flip_edge compose into Rewired, given only the values of reverse(). */
  lemma RewiredGlue(f0: int, f1: int, a: int, b: int, c: int, d: int, x: int, r0: int, r1: int, r2: int)
    requires f0 != f1
    requires Outside(a, f0, f1) && Outside(b, f0, f1) && Outside(c, f0, f1) && Outside(d, f0, f1)
    requires r1 == PairedReverse(f0, f1, x, r0)
    requires r2 == TwoSetsReverse(f0, a, b, x, TwoSetsReverse(f1, c, d, x, r1))
    ensures r2 == PairedReverse(f0, f1, x, TwoSetsReverse(f0, a, b, x, TwoSetsReverse(f1, c, d, x, r0)))
  {
  }

  lemma OuterOkKept(m: Mesh, m': Mesh, y: int, f0: int, f1: int)
    requires |m'.faces| == |m.faces| && m'.boundaries == m.boundaries && OuterOk(m, y, f0, f1)
    ensures OuterOk(m', y, f0, f1)
  {
  }

  lemma RewiredAgree(m: Mesh, m': Mesh, f0: int, f1: int, a: int, b: int, c: int, d: int, x: int)
    requires Reverse(m, x) == Reverse(m', x)
    ensures Rewired(m, f0, f1, a, b, c, d, x) == Rewired(m', f0, f1, a, b, c, d, x)
  {
  }

  /** The staged mesh after the rewiring, described by Rewired. */
  lemma FlipStagesRewired(m: Mesh, e0: int)
    requires FlipReady(m, e0)
    ensures var f0 := Face(e0); var f1 := Face(Reverse(m, e0));
      var (a, b, c, d) := OuterReverses(m, e0);
      forall x :: Reverse(FlipStages(m, e0).1, x) == Rewired(m, f0, f1, a, b, c, d, x)
  {
    var f0 := Face(e0); var f1 := Face(Reverse(m, e0));
    var (a, b, c, d) := OuterReverses(m, e0);
    var (m1, m3) := FlipStages(m, e0);
    OuterOkKept(m, m1, a, f0, f1);
    OuterOkKept(m, m1, b, f0, f1);
    OuterOkKept(m, m1, c, f0, f1);
    OuterOkKept(m, m1, d, f0, f1);
    FlipRewiring(m1, f0, f1, a, b, c, d);
    forall x
      ensures Reverse(m3, x) == Rewired(m, f0, f1, a, b, c, d, x)
    {
      RewiredAgree(m1, m, f0, f1, a, b, c, d, x);
    }
  }

  /** After unsafe_flip_edge the two corners 0 are each other's reverse, the other four corners
      are paired, both ways, with the outer neighbours (rp1, rn0, rp0, rn1), and every other
      halfedge keeps its reverse. */
  lemma UnsafeFlipEdgeReverses(m: Mesh, e0: int)
    requires FlipReady(m, e0)
    ensures var f0 := Face(e0); var f1 := Face(Reverse(m, e0));
      var (a, b, c, d) := OuterReverses(m, e0);
      var r := UnsafeFlipEdge(m, e0).0;
      forall x :: Reverse(r, x) == Rewired(m, f0, f1, a, b, c, d, x)
  {
    var r := UnsafeFlipEdge(m, e0).0;
    var m3 := FlipStages(m, e0).1;
    UnsafeFlipEdgeStages(m, e0);
    forall x
      ensures Reverse(r, x) == Reverse(m3, x)
    {
      ReverseSameRecords(r, m3, x);
    }
    FlipStagesRewired(m, e0);
  }

  /** reverse() reads only the face and boundary records. */
  lemma ReverseSameRecords(a: Mesh, b: Mesh, x: int)
    requires a.faces == b.faces && a.boundaries == b.boundaries
    ensures Reverse(a, x) == Reverse(b, x)
  {
  }

  // ---------------------------------------------------------------------------
  // permute_vertices

  /** Every entry of perm is a vertex id below |perm|. */
  predicate InRange(perm: seq<int>)
  {
    forall v :: 0 <= v < |perm| ==> 0 <= perm[v] < |perm|
  }

  predicate Injective(perm: seq<int>)
  {
    forall i, j :: 0 <= i < j < |perm| ==> perm[i] != perm[j]
  }

  /** perm is a permutation of 0 .. |perm|-1. */
  predicate IsPermutation(perm: seq<int>)
  {
    InRange(perm) && Injective(perm)
  }

  /** The first k entries of perm as a set. */
  function Image(perm: seq<int>, k: nat): set<int>
    requires k <= |perm|
  {
    set i | 0 <= i < k :: perm[i]
  }

  /** The vertex ids 0 .. n-1. */
  function Below(n: nat): (r: set<int>)
    ensures forall j :: j in r <==> 0 <= j < n
  {
    if n == 0 then {} else Below(n - 1) + {n - 1}
  }

  /** perm sends some vertex to j. */
  predicate Hit(perm: seq<int>, j: int)
  {
    exists i :: 0 <= i < |perm| && perm[i] == j
  }

  lemma {:induction false} BelowCard(n: nat)
    ensures |Below(n)| == n
  {
    if n > 0 {
      BelowCard(n - 1);
    }
  }

  lemma SubsetCard(a: set<int>, b: set<int>)
    requires a <= b
    ensures |a| <= |b|
  {
    assert b == a + (b - a);
    assert a * (b - a) == {};
  }

  lemma {:induction false} ImageCard(perm: seq<int>, k: nat)
    requires k <= |perm|
    ensures |Image(perm, k)| <= k
    ensures (exists i, j :: 0 <= i < j < k && perm[i] == perm[j]) ==> |Image(perm, k)| < k
  {
    if k > 0 {
      ImageCard(perm, k - 1);
      assert Image(perm, k) == Image(perm, k - 1) + {perm[k - 1]};
      if exists i, j :: 0 <= i < j < k && perm[i] == perm[j] {
        var i, j :| 0 <= i < j < k && perm[i] == perm[j];
        if j == k - 1 {
          assert perm[k - 1] in Image(perm, k - 1);
        }
      }
    }
  }

  /** Pigeonhole: |perm| entries below |perm| that hit every value are pairwise distinct. */
  lemma Pigeonhole(perm: seq<int>)
    requires InRange(perm)
    requires forall j :: 0 <= j < |perm| ==> Hit(perm, j)
    ensures Injective(perm)
  {
    var n := |perm|;
    assert Below(n) <= Image(perm, n) by {
      forall j | j in Below(n)
        ensures j in Image(perm, n)
      {
        assert Hit(perm, j);
        var i :| 0 <= i < n && perm[i] == j;
      }
    }
    BelowCard(n);
    ImageCard(perm, n);
    SubsetCard(Below(n), Image(perm, n));
  }

  /** An injective perm with entries below n hits all of 0 .. n-1. */
  lemma InjectiveHitsAll(perm: seq<int>)
    requires IsPermutation(perm)
    ensures forall j :: 0 <= j < |perm| ==> Hit(perm, j)
  {
    var n := |perm|;
    InjectiveImageCard(perm, n);
    BelowCard(n);
    assert Image(perm, n) <= Below(n);
    assert Below(n) - Image(perm, n) == {} by {
      SubsetCard(Image(perm, n), Below(n));
      assert |Below(n)| == |Image(perm, n)| + |Below(n) - Image(perm, n)| by {
        assert Below(n) == Image(perm, n) + (Below(n) - Image(perm, n));
        assert Image(perm, n) * (Below(n) - Image(perm, n)) == {};
      }
    }
    forall j | 0 <= j < n
      ensures Hit(perm, j)
    {
      assert j in Below(n);
      assert j in Image(perm, n);
    }
  }

  lemma {:induction false} InjectiveImageCard(perm: seq<int>, k: nat)
    requires k <= |perm| && Injective(perm)
    ensures |Image(perm, k)| == k
  {
    if k > 0 {
      InjectiveImageCard(perm, k - 1);
      assert Image(perm, k) == Image(perm, k - 1) + {perm[k - 1]};
      assert perm[k - 1] !in Image(perm, k - 1);
    }
  }

  /** A slot no entry of perm[..k] names keeps the fill value. */
  lemma {:induction false} ScatterMiss(perm: seq<int>, src: seq<int>, init: int, k: nat, j: int)
    requires k <= |perm| && k <= |src| && 0 <= j < |src|
    requires forall i :: 0 <= i < k ==> perm[i] != j
    ensures Scatter(perm, src, init, k)[j] == init
  {
    if k > 0 {
      ScatterMiss(perm, src, init, k - 1, j);
    }
  }

  /** The slot named by exactly one entry perm[i] of perm[..k] receives src[i]. */
  lemma {:induction false} ScatterHit(perm: seq<int>, src: seq<int>, init: int, k: nat, i: int)
    requires k <= |perm| && k <= |src| && 0 <= i < k && 0 <= perm[i] < |src|
    requires forall i' :: 0 <= i' < k && i' != i ==> perm[i'] != perm[i]
    ensures Scatter(perm, src, init, k)[perm[i]] == src[i]
  {
    if i < k - 1 {
      ScatterHit(perm, src, init, k - 1, i);
    }
  }

  /** Every slot holds the fill value or the source entry of a vertex sent there. */
  lemma {:induction false} ScatterFrom(perm: seq<int>, src: seq<int>, init: int, k: nat, j: int)
    requires k <= |perm| && k <= |src| && 0 <= j < |src|
    ensures var r := Scatter(perm, src, init, k);
      r[j] == init || exists i :: 0 <= i < k && perm[i] == j && r[j] == src[i]
  {
    if k > 0 {
      ScatterFrom(perm, src, init, k - 1, j);
    }
  }

  /** permute_vertices with checking succeeds exactly when the vertex count matches and the
      permutation is a bijection on the vertex ids (given no stored halfedge is the deleted marker). */
  lemma PermuteVerticesAccepts(m: Mesh, perm: seq<int>)
    requires DeletedId !in m.vertexToEdge
    ensures PermuteVertices(m, perm, true).Ok?
            <==> m.nVertices == |perm| == |m.vertexToEdge| && IsPermutation(perm)
  {
    var n := |perm|;
    if m.nVertices == n == |m.vertexToEdge| && InRange(perm) {
      var vte := Scatter(perm, m.vertexToEdge, DeletedId, n);
      if Injective(perm) {
        InjectiveHitsAll(perm);
        forall j | 0 <= j < n
          ensures vte[j] != DeletedId
        {
          assert Hit(perm, j);
          var i :| 0 <= i < n && perm[i] == j;
          ScatterHit(perm, m.vertexToEdge, DeletedId, n, i);
        }
        assert DeletedId !in vte;
      } else if DeletedId !in vte {
        forall j | 0 <= j < n
          ensures Hit(perm, j)
        {
          ScatterFrom(perm, m.vertexToEdge, DeletedId, n, j);
          assert vte[j] != DeletedId;
        }
        Pigeonhole(perm);
      }
    }
  }

  /** On success with a permutation, the stored halfedge of v moves to perm[v]. */
  lemma PermuteVerticesMovesEdges(m: Mesh, perm: seq<int>, check: bool)
    requires IsPermutation(perm) && PermuteVertices(m, perm, check).Ok?
    ensures var r := PermuteVertices(m, perm, check).value;
      |r.vertexToEdge| == |m.vertexToEdge|
      && forall v :: 0 <= v < |perm| ==> r.vertexToEdge[perm[v]] == m.vertexToEdge[v]
  {
    var r := PermuteVertices(m, perm, check).value;
    forall v | 0 <= v < |perm|
      ensures r.vertexToEdge[perm[v]] == m.vertexToEdge[v]
    {
      ScatterHit(perm, m.vertexToEdge, if check then DeletedId else InvalidId, |perm|, v);
    }
  }

  /** A live halfedge stays live after relabelling, and its source is relabelled. */
  lemma PermuteSrc(m: Mesh, perm: seq<int>, check: bool, e: int)
    requires PermuteVertices(m, perm, check).Ok? && InRange(perm) && |perm| <= DeletedId
    requires ValidHalfedge(m, e) && 0 <= Src(m, e) < |perm|
    ensures var r := PermuteVertices(m, perm, check).value;
      ValidHalfedge(r, e) && Src(r, e) == perm[Src(m, e)]
  {
    var r := PermuteVertices(m, perm, check).value;
    if e >= 0 {
      assert r.faces[e / 3] == MapFace(perm, m.faces[e / 3]);
    } else {
      assert r.boundaries[-1 - e] == MapBoundary(perm, m.boundaries[-1 - e]);
    }
  }

  /** Relabelling by a permutation keeps every stored halfedge valid and leaving its vertex. */
  lemma PermuteVerticesKeepsVertexProps(m: Mesh, perm: seq<int>)
    requires VertexProps(m) && DeletedId !in m.vertexToEdge && |perm| <= DeletedId
    requires PermuteVertices(m, perm, true).Ok?
    ensures VertexProps(PermuteVertices(m, perm, true).value)
  {
    var r := PermuteVertices(m, perm, true).value;
    PermuteVerticesAccepts(m, perm);
    PermuteVerticesMovesEdges(m, perm, true);
    InjectiveHitsAll(perm);
    forall w | 0 <= w < |r.vertexToEdge| && r.vertexToEdge[w] != InvalidId
      ensures ValidHalfedge(r, r.vertexToEdge[w]) && Src(r, r.vertexToEdge[w]) == w
    {
      assert Hit(perm, w);
      var v :| 0 <= v < |perm| && perm[v] == w;
      PermuteSrc(m, perm, true, m.vertexToEdge[v]);
    }
  }

  // ---------------------------------------------------------------------------
  // The free list of boundary records

  /** unsafe_new_boundary takes the head of the free list when there is one, and otherwise
      appends a record; either way the record (whose id fits in 32 bits) gets src and reverse,
      and one more boundary edge is counted. */
  lemma NewBoundaryReuse(m: Mesh, src: int, rev: int)
    ensures var (r, e) := NewBoundary(m, src, rev);
      && r.nBoundaryEdges == m.nBoundaryEdges + 1
      && (BoundarySlot(m, m.deletedBoundaries) ==>
            e == m.deletedBoundaries && |r.boundaries| == |m.boundaries|
            && r.deletedBoundaries == Next(m, e))
      && (m.deletedBoundaries == InvalidId ==>
            e == -1 - |m.boundaries| && |r.boundaries| == |m.boundaries| + 1
            && r.deletedBoundaries == InvalidId)
      && (BoundarySlot(m, m.deletedBoundaries) || (m.deletedBoundaries == InvalidId && |m.boundaries| < DeletedId) ==>
            BoundarySlot(r, e) && Src(r, e) == src && Reverse(r, e) == rev && Next(r, e) == Next(m, e)
            && forall b :: BoundarySlot(m, b) && b != e ==> r.boundaries[-1 - b] == m.boundaries[-1 - b])
  {
  }

  /** The walk only needs as many steps as the list is long. */
  lemma {:induction false} FreeChainLimit(m: Mesh, x: int, limit: nat, limit': nat)
    requires FreeChain(m, x, limit).Some? && |FreeChain(m, x, limit).value| <= limit'
    ensures FreeChain(m, x, limit') == FreeChain(m, x, limit)
    decreases limit
  {
    if x != InvalidId {
      FreeChainLimit(m, Next(m, x), limit - 1, limit' - 1);
    }
  }

  lemma {:induction false} FreeChainLength(m: Mesh, x: int, limit: nat)
    requires FreeChain(m, x, limit).Some?
    ensures |FreeChain(m, x, limit).value| <= limit
    decreases limit
  {
    if x != InvalidId {
      FreeChainLength(m, Next(m, x), limit - 1);
    }
  }

  /** The walk reads only the next fields of the records. */
  lemma {:induction false} FreeChainSameNext(m: Mesh, m': Mesh, x: int, limit: nat)
    requires |m'.boundaries| == |m.boundaries|
    requires forall i :: 0 <= i < |m.boundaries| ==> m'.boundaries[i].next == m.boundaries[i].next
    ensures FreeChain(m', x, limit) == FreeChain(m, x, limit)
    decreases limit
  {
    if x != InvalidId && limit > 0 {
      FreeChainSameNext(m, m', Next(m, x), limit - 1);
    }
  }

  /** The walk reads only the next fields of the records it visits. */
  lemma {:induction false} FreeChainAvoid(m: Mesh, m': Mesh, x: int, limit: nat, b: int)
    requires |m'.boundaries| == |m.boundaries|
    requires forall i :: 0 <= i < |m.boundaries| && i != -1 - b ==> m'.boundaries[i].next == m.boundaries[i].next
    requires FreeChain(m, x, limit).Some? && b !in FreeChain(m, x, limit).value
    ensures FreeChain(m', x, limit) == FreeChain(m, x, limit)
    decreases limit
  {
    if x != InvalidId {
      FreeChainAvoid(m, m', Next(m, x), limit - 1, b);
    }
  }

  /** unsafe_new_boundary keeps n_boundary_edges + (free-list length) == |boundaries|: it either
      pops the head of the free list or grows the arena by one record. */
  lemma NewBoundaryFreeList(m: Mesh, src: int, rev: int)
    requires FreeListProps(m)
    ensures FreeListProps(NewBoundary(m, src, rev).0)
  {
    var (r, e) := NewBoundary(m, src, rev);
    var chain := FreeChain(m, m.deletedBoundaries, |m.boundaries|).value;
    if m.deletedBoundaries != InvalidId {
      var rest := FreeChain(m, Next(m, e), |m.boundaries| - 1).value;
      assert chain == [e] + rest;
      assert r.deletedBoundaries == Next(m, e);
      FreeChainSameNext(m, r, Next(m, e), |m.boundaries| - 1);
      FreeChainLength(m, Next(m, e), |m.boundaries| - 1);
      FreeChainLimit(r, Next(m, e), |m.boundaries| - 1, |r.boundaries|);
    }
  }

  /** unsafe_set_deleted(b) on a live record pushes b on the free list: its source becomes the
      deleted marker and the invariant n_boundary_edges + (free-list length) == |boundaries| holds. */
  lemma SetDeletedFreeList(m: Mesh, b: int)
    requires FreeListProps(m) && BoundarySlot(m, b) && m.nBoundaryEdges >= 1
    requires b !in FreeChain(m, m.deletedBoundaries, |m.boundaries|).value
    ensures var r := SetDeleted(m, b);
      && FreeListProps(r) && r.deletedBoundaries == b && Src(r, b) == DeletedId
      && FreeChain(r, b, |r.boundaries|).value == [b] + FreeChain(m, m.deletedBoundaries, |m.boundaries|).value
  {
    var r := SetDeleted(m, b);
    var L := |m.boundaries|;
    var chain := FreeChain(m, m.deletedBoundaries, L).value;
    FreeChainAvoid(m, r, m.deletedBoundaries, L, b);
    FreeChainLimit(r, m.deletedBoundaries, L, L - 1);
    assert FreeChain(r, b, L) == Some([b] + chain);
  }

  // ---------------------------------------------------------------------------
  // degree, boundary_loops

  /** A vertex has degree 0 exactly when it is isolated, when its stored halfedge is either
      invalid or a valid halfedge. */
  lemma DegreeZeroIffIsolated(m: Mesh, v: int)
    requires VertexEdge(m, v) == InvalidId || ValidHalfedge(m, VertexEdge(m, v))
    ensures Degree(m, v) == 0 <==> Isolated(m, v)
  {
    var start := VertexEdge(m, v);
    if start != InvalidId {
      if start >= 0 {
        assert 0 <= start / 3 < |m.faces|;
      }
      assert Slots(m) > 0;
      assert |RingFrom(m, start, start, Slots(m))| > 0;
    }
  }

  /** The do-while of boundary_loops visits e, next(e), next(next(e)), ...; when it stops before
      its fuel runs out, the last one leads back to start. */
  lemma {:induction false} LoopFromChain(m: Mesh, start: int, e: int, fuel: nat)
    requires fuel > 0
    ensures var l := LoopFrom(m, start, e, fuel);
      && 0 < |l| <= fuel && l[0] == e
      && (forall i :: 0 <= i < |l| - 1 ==> l[i + 1] == Next(m, l[i]))
      && (|l| < fuel ==> Next(m, l[|l| - 1]) == start)
    decreases fuel
  {
    if Next(m, e) != start && fuel > 1 {
      LoopFromChain(m, start, Next(m, e), fuel - 1);
    }
  }

  /** Every start is either already seen or lies on one of the loops produced. */
  lemma {:induction false} LoopsFromCover(m: Mesh, starts: seq<int>, seen: set<int>)
    requires |m.boundaries| > 0
    ensures forall e :: e in starts ==> e in seen || exists l :: l in LoopsFrom(m, starts, seen) && e in l
    decreases |starts|
  {
    if |starts| > 0 {
      var rest := starts[1..];
      if starts[0] in seen {
        LoopsFromCover(m, rest, seen);
        assert forall e :: e in starts ==> e == starts[0] || e in rest;
      } else {
        var loop := LoopFrom(m, starts[0], starts[0], |m.boundaries|);
        var seen' := seen + set x | x in loop;
        LoopFromChain(m, starts[0], starts[0], |m.boundaries|);
        LoopsFromCover(m, rest, seen');
        var ls := LoopsFrom(m, starts, seen);
        assert ls == [loop] + LoopsFrom(m, rest, seen');
        forall e | e in starts
          ensures e in seen || exists l :: l in ls && e in l
        {
          if e == starts[0] {
            assert loop in ls && e in loop;
          } else {
            assert e in rest;
            if e in seen' && e !in seen {
              assert loop in ls && e in loop;
            } else if e !in seen' {
              var l :| l in LoopsFrom(m, rest, seen') && e in l;
              assert l in ls;
            }
          }
        }
      }
    }
  }

  /** boundary_loops covers every live boundary halfedge. */
  lemma BoundaryLoopsCover(m: Mesh)
    ensures forall e :: e in LiveBoundaries(m) ==> exists l :: l in BoundaryLoops(m) && e in l
  {
    if |m.boundaries| > 0 {
      LoopsFromCover(m, LiveBoundaries(m), {});
    } else {
      assert LiveBoundaries(m) == [];
    }
  }
}

