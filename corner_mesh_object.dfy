/**
 * The corner mesh as the mutable object of mesh/CornerMesh.cpp: the face records, the
 * vertex-to-halfedge table, the boundary record arena, the free-list head and the three
 * counters are fields that the methods overwrite step by step, in the order the source
 * does. Every method is proved against the value model of module CornerMesh: a query
 * returns what the corresponding function computes on State(), and a mutation leaves
 * State() equal to the function applied to the old state. The properties of those
 * functions are proved in CornerMeshLemmas.
 */
module CornerMeshObjects {
  import M = CornerMesh
  import L = CornerMeshLemmas

  /** The elements of a sequence grown by one. */
  lemma ElementsStep(s: seq<int>, e: int)
    ensures (set x | x in s + [e]) == (set x | x in s) + {e}
  {
  }

  /** One step of the walk around a boundary loop. */
  lemma WalkStep(m: M.Mesh, start: int, e: int, fuel: nat, loop: seq<int>)
    requires fuel > 0
    ensures loop + M.LoopFrom(m, start, e, fuel) ==
            (loop + [e]) + (if M.Next(m, e) == start then [] else M.LoopFrom(m, start, M.Next(m, e), fuel - 1))
  {
  }

  /** UPDATE(i) as its two stages: the write of the new face, then, for i > 0, the redirect. */
  lemma SplitUpdateStages(m: M.Mesh, m4: M.Mesh, r: M.Mesh, f: int, c: int, v: M.Triple, n: M.Triple, fs: M.Triple, i: int)
    requires 0 <= i < 3
    requires m4 == M.SplitWrite(m, M.Get(fs, i), (M.Get(v, i), M.Get(v, M.Succ3(i)), c), M.Get(n, i),
                                3 * M.Get(fs, M.Succ3(i)) + 2, 3 * M.Get(fs, M.Pred3(i)) + 1)
    requires r == if i == 0 then m4 else M.Redirect(m4, M.Get(v, i), {3 * f + i}, 3 * M.Get(fs, i))
    ensures r == M.SplitUpdate(m, f, c, v, n, fs, i)
  {
  }

  class CornerMesh {
    var faces: seq<M.FaceInfo>
    var vertexToEdge: seq<int>
    var boundaries: seq<M.BoundaryInfo>
    var deletedBoundaries: int
    var nVertices: int
    var nFaces: int
    var nBoundaryEdges: int

    /** The fields as a value of the model. */
    function State(): M.Mesh
      reads this
    {
      M.Mesh(faces, vertexToEdge, boundaries, deletedBoundaries, nVertices, nFaces, nBoundaryEdges)
    }

    /** The default constructor (mesh/CornerMesh.cpp:37-40). */
    constructor()
      ensures State() == M.NewMesh()
    {
      faces := [];
      vertexToEdge := [];
      boundaries := [];
      deletedBoundaries := M.InvalidId;
      nVertices := 0;
      nFaces := 0;
      nBoundaryEdges := 0;
    }

    // -------------------------------------------------------------------------
    // Primitive writers

    method SetVertexEdge(v: int, e: int)
      modifies this
      ensures State() == M.SetVertexEdge(old(State()), v, e)
    {
      if 0 <= v < |vertexToEdge| {
        vertexToEdge := vertexToEdge[v := e];
      }
    }

    /** unsafe_boundary_link(p, n). */
    method BoundaryLink(p: int, n: int)
      modifies this
      ensures State() == M.BoundaryLink(old(State()), p, n)
    {
      if M.InvalidId < p < 0 && -1 - p < |boundaries| {
        boundaries := boundaries[-1 - p := boundaries[-1 - p].(next := n)];
      }
      if M.InvalidId < n < 0 && -1 - n < |boundaries| {
        boundaries := boundaries[-1 - n := boundaries[-1 - n].(prev := p)];
      }
    }

    /** Set the reverse stored for halfedge e, in its face record or its boundary record. */
    method SetReverseOf(e: int, r: int)
      modifies this
      ensures State() == M.SetReverseOf(old(State()), e, r)
    {
      if e >= 0 {
        if e / 3 < |faces| {
          faces := faces[e / 3 := faces[e / 3].(neighbors := M.Set(faces[e / 3].neighbors, e % 3, r))];
        }
      } else if M.InvalidId < e && -1 - e < |boundaries| {
        boundaries := boundaries[-1 - e := boundaries[-1 - e].(reverse := r)];
      }
    }

    /** unsafe_set_reverse(f, i, r). */
    method SetReverse(f: int, i: int, r: int)
      modifies this
      ensures State() == M.SetReverse(old(State()), f, i, r)
    {
      SetReverseOf(3 * f + i, r);
      SetReverseOf(r, 3 * f + i);
    }

    /** Point v at e when its stored halfedge is one of olds. */
    method Redirect(v: int, olds: set<int>, e: int)
      modifies this
      ensures State() == M.Redirect(old(State()), v, olds, e)
    {
      if M.VertexEdge(State(), v) in olds {
        SetVertexEdge(v, e);
      }
    }

    /** Overwrite the vertices of face f. */
    method SetVertices(f: int, t: M.Triple)
      modifies this
      ensures State() == M.SetVertices(old(State()), f, t)
    {
      if 0 <= f < |faces| {
        faces := faces[f := faces[f].(vertices := t)];
      }
    }

    /** unsafe_set_deleted(b). */
    method SetDeleted(b: int)
      modifies this
      ensures State() == M.SetDeleted(old(State()), b)
    {
      if M.InvalidId < b < 0 && -1 - b < |boundaries| {
        boundaries := boundaries[-1 - b := boundaries[-1 - b].(src := M.DeletedId, next := deletedBoundaries)];
        deletedBoundaries := b;
        nBoundaryEdges := nBoundaryEdges - 1;
      }
    }

    /** unsafe_new_boundary (mesh/CornerMesh.cpp:116-130). */
    method NewBoundary(src: int, rev: int) returns (e: int)
      modifies this
      ensures (State(), e) == M.NewBoundary(old(State()), src, rev)
    {
      nBoundaryEdges := nBoundaryEdges + 1;
      if deletedBoundaries != M.InvalidId {
        e := deletedBoundaries;
        deletedBoundaries := M.Next(State(), e);
      } else {
        e := -1 - |boundaries|;
        boundaries := boundaries + [M.BlankBoundary];
      }
      if M.InvalidId < e < 0 && -1 - e < |boundaries| {
        boundaries := boundaries[-1 - e := boundaries[-1 - e].(src := src, reverse := rev)];
      }
    }

    // -------------------------------------------------------------------------
    // Ring walks

    /** halfedge(v0,v1) (mesh/CornerMesh.cpp:57-69). */
    method Halfedge(v0: int, v1: int) returns (r: int)
      ensures r == M.HalfedgeBetween(State(), v0, v1)
    {
      var m := State();
      var start := M.VertexEdge(m, v0);
      if start == M.InvalidId {
        return M.InvalidId;
      }
      var e := start;
      var fuel := M.Slots(m);
      while fuel > 0
        invariant M.RingFind(m, start, e, v1, fuel) == M.HalfedgeBetween(m, v0, v1)
        decreases fuel
      {
        if M.Dst(m, e) == v1 {
          return e;
        }
        e := M.Left(m, e);
        if e == start {
          return M.InvalidId;
        }
        fuel := fuel - 1;
      }
      return M.InvalidId;
    }

    /** right_around_dst_to_boundary (mesh/CornerMesh.cpp:94-99). */
    method RightAroundDstToBoundary(e0: int) returns (e: int)
      ensures e == M.RightAroundDstToBoundary(State(), e0)
    {
      var m := State();
      e := M.Reverse(m, M.Next(m, M.Reverse(m, e0)));
      var fuel := M.Slots(m);
      while !M.IsBoundary(e)
        invariant M.SwingToBoundary(m, e, fuel) == M.RightAroundDstToBoundary(m, e0)
        decreases fuel
      {
        if fuel == 0 {
          return M.InvalidId;
        }
        e := M.Reverse(m, M.Next(m, e));
        fuel := fuel - 1;
      }
    }

    /** fix_vertex_to_edge (mesh/CornerMesh.cpp:103-113). */
    method FixVertexToEdge(v: int, start: int)
      modifies this
      ensures State() == M.FixVertexToEdge(old(State()), v, start)
    {
      var m := State();
      var e := start;
      var fuel := M.Slots(m);
      while fuel > 0
        invariant M.FirstBoundaryAround(m, start, e, fuel) == M.FirstBoundaryAround(m, start, start, M.Slots(m))
        decreases fuel
      {
        if M.IsBoundary(e) {
          break;
        }
        e := M.Left(m, e);
        if e == start {
          break;
        }
        fuel := fuel - 1;
      }
      SetVertexEdge(v, e);
    }

    // -------------------------------------------------------------------------
    // Vertices

    /** add_vertex (mesh/CornerMesh.cpp:84-87). */
    method AddVertex() returns (v: int)
      modifies this
      ensures (State(), v) == M.AddVertex(old(State()))
    {
      nVertices := nVertices + 1;
      v := |vertexToEdge|;
      vertexToEdge := vertexToEdge + [M.InvalidId];
    }

    /** add_vertices (mesh/CornerMesh.cpp:89-92). */
    method AddVertices(n: nat)
      modifies this
      ensures State() == M.AddVertices(old(State()), n)
    {
      nVertices := nVertices + n;
      vertexToEdge := vertexToEdge + seq(n, _ => M.InvalidId);
    }

    // -------------------------------------------------------------------------
    // add_face (mesh/CornerMesh.cpp:136-228)

    /** PREPARE(a,b,c). */
    method Prepare(a: int, b: int) returns (c: int)
      ensures c == M.Prepare(State(), a, b)
    {
      if a != M.InvalidId && b != M.InvalidId && M.Next(State(), a) != b {
        c := RightAroundDstToBoundary(b);
      } else {
        c := M.InvalidId;
      }
    }

    /** RELINK(a,b,c). */
    method Relink(a: int, b: int, c: int)
      modifies this
      ensures State() == M.Relink(old(State()), a, b, c)
    {
      if c != M.InvalidId {
        var na := M.Next(State(), a);
        var pb := M.Prev(State(), b);
        var nc := M.Next(State(), c);
        BoundaryLink(a, b);
        BoundaryLink(c, na);
        BoundaryLink(pb, nc);
      }
    }

    /** REVERSE(i). */
    method ReverseOrNew(e: int, src: int, rev: int) returns (r: int)
      modifies this
      ensures (State(), r) == M.ReverseOrNew(old(State()), e, src, rev)
    {
      if e != M.InvalidId {
        r := M.Reverse(State(), e);
      } else {
        r := NewBoundary(src, rev);
      }
    }

    /** LINK(i). */
    method Link(f: int, i: int, ei: int, ri: int, near: (int, int))
      modifies this
      ensures State() == M.Link(old(State()), f, i, ei, ri, near)
    {
      SetReverse(f, i, ri);
      if ei == M.InvalidId {
        BoundaryLink(near.0, ri);
        BoundaryLink(ri, near.1);
      }
    }

    method DeleteIfValid(e: int)
      modifies this
      ensures State() == M.DeleteIfValid(old(State()), e)
    {
      if e != M.InvalidId {
        SetDeleted(e);
      }
    }

    /** The RELINK steps for the three corners. */
    method RelinkAll(e: M.Triple, c: M.Triple)
      modifies this
      ensures State() == M.RelinkAll(old(State()), e, c)
    {
      Relink(e.0, e.1, c.0);
      Relink(e.1, e.2, c.1);
      Relink(e.2, e.0, c.2);
    }

    /** Append the face, then REVERSE(0), REVERSE(1), REVERSE(2). */
    method NewFace(v: M.Triple, e: M.Triple) returns (f: int, rs: M.Triple)
      modifies this
      ensures (State(), f, rs) == M.NewFace(old(State()), v, e)
    {
      nFaces := nFaces + 1;
      f := |faces|;
      faces := faces + [M.FaceInfo(v, (M.InvalidId, M.InvalidId, M.InvalidId))];
      var r0 := ReverseOrNew(e.0, v.1, 3 * f);
      var r1 := ReverseOrNew(e.1, v.2, 3 * f + 1);
      var r2 := ReverseOrNew(e.2, v.0, 3 * f + 2);
      rs := (r0, r1, r2);
    }

    /** NEAR(0..2), then LINK(0..2). */
    method LinkFace(f: int, e: M.Triple, rs: M.Triple, ve: M.Triple)
      modifies this
      ensures State() == M.LinkFace(old(State()), f, e, rs, ve)
    {
      var m := State();
      var near0 := M.Near(m, e.0, e.1, e.2, ve.0, ve.1, rs.1, rs.2);
      var near1 := M.Near(m, e.1, e.2, e.0, ve.1, ve.2, rs.2, rs.0);
      var near2 := M.Near(m, e.2, e.0, e.1, ve.2, ve.0, rs.0, rs.1);
      Link(f, 0, e.0, rs.0, near0);
      Link(f, 1, e.1, rs.1, near1);
      Link(f, 2, e.2, rs.2, near2);
    }

    /** Everything add_face does once its checks have passed. */
    method AddFaceSurgery(v: M.Triple, e: M.Triple, c: M.Triple) returns (f: int)
      requires e.0 == M.InvalidId || M.BoundarySlot(State(), e.0)
      requires e.1 == M.InvalidId || M.BoundarySlot(State(), e.1)
      requires e.2 == M.InvalidId || M.BoundarySlot(State(), e.2)
      modifies this
      ensures (State(), f) == M.AddFaceSurgery(old(State()), v, e, c)
    {
      RelinkAll(e, c);
      var ve := (M.VertexEdge(State(), v.0), M.VertexEdge(State(), v.1), M.VertexEdge(State(), v.2));
      var rs;
      f, rs := NewFace(v, e);
      LinkFace(f, e, rs, ve);
      DeleteIfValid(e.0);
      DeleteIfValid(e.1);
      DeleteIfValid(e.2);
      FixVertexToEdge(v.0, rs.2);
      FixVertexToEdge(v.1, rs.0);
      FixVertexToEdge(v.2, rs.1);
    }

    /** add_face (mesh/CornerMesh.cpp:136-228), with the closed-ring check comparing the far
        side of the fan with a (see CornerMeshFindings). On an error nothing changes. */
    method AddFace(v: M.Triple) returns (r: M.Result<int>)
      modifies this
      ensures M.AddFace(old(State()), v).Ok? ==>
        r == M.Ok(M.AddFace(old(State()), v).value.1) && State() == M.AddFace(old(State()), v).value.0
      ensures M.AddFace(old(State()), v).Err? ==>
        r == M.Err(M.AddFace(old(State()), v).error) && State() == old(State())
    {
      var m := State();
      if !M.ValidVertex(m, v.0) || !M.ValidVertex(m, v.1) || !M.ValidVertex(m, v.2) {
        return M.Err(M.RuntimeError);
      }
      if v.0 == v.1 || v.1 == v.2 || v.2 == v.0 {
        return M.Err(M.RuntimeError);
      }
      if !M.IsBoundaryVertex(m, v.0) || !M.IsBoundaryVertex(m, v.1) || !M.IsBoundaryVertex(m, v.2) {
        return M.Err(M.RuntimeError);
      }
      var e0 := Halfedge(v.0, v.1);
      var e1 := Halfedge(v.1, v.2);
      var e2 := Halfedge(v.2, v.0);
      if (e0 != M.InvalidId && !M.IsBoundary(e0)) || (e1 != M.InvalidId && !M.IsBoundary(e1))
         || (e2 != M.InvalidId && !M.IsBoundary(e2)) {
        return M.Err(M.RuntimeError);
      }
      var c0 := Prepare(e0, e1);
      var c1 := Prepare(e1, e2);
      var c2 := Prepare(e2, e0);
      if M.ClosesRing(e0, e1, c0) || M.ClosesRing(e1, e2, c1) || M.ClosesRing(e2, e0, c2) {
        return M.Err(M.RuntimeError);
      }
      var e := (e0, e1, e2);
      var c := (c0, c1, c2);
      assert M.AddFaceChecks(m, v, false) == M.Ok((e, c));
      var f := AddFaceSurgery(v, e, c);
      return M.Ok(f);
    }

    /** add_faces (mesh/CornerMesh.cpp:230-234): add_face on each triple in turn. An error
        stops the loop and leaves the faces added before it in place. */
    method AddFaces(vs: seq<M.Triple>) returns (failed: bool)
      modifies this
      ensures !failed <==> M.AddFaces(old(State()), vs).Ok?
      ensures !failed ==> State() == M.AddFaces(old(State()), vs).value
      ensures failed ==> exists k :: 0 <= k < |vs| && M.AddFaces(old(State()), vs[..k]) == M.Ok(State())
                                     && M.AddFace(State(), vs[k]).Err?
    {
      var k := 0;
      while k < |vs|
        invariant 0 <= k <= |vs|
        invariant M.AddFaces(old(State()), vs[..k]) == M.Ok(State())
      {
        L.AddFacesPrefix(old(State()), vs, k, State());
        var r := AddFace(vs[k]);
        if r.Err? {
          return true;
        }
        k := k + 1;
      }
      assert vs[..k] == vs;
      return false;
    }

    // -------------------------------------------------------------------------
    // split_face (mesh/CornerMesh.cpp:236-263)

    /** The writes of one UPDATE step of split_face to face g. */
    method SplitWrite(g: int, t: M.Triple, n0: int, a: int, b: int)
      modifies this
      ensures State() == M.SplitWrite(old(State()), g, t, n0, a, b)
    {
      SetVertices(g, t);
      SetReverse(g, 0, n0);
      SetReverseOf(3 * g + 1, a);
      SetReverseOf(3 * g + 2, b);
    }

    /** The UPDATE(i) macro of split_face. */
    method SplitUpdate(f: int, c: int, v: M.Triple, n: M.Triple, fs: M.Triple, i: int)
      requires 0 <= i < 3
      modifies this
      ensures State() == M.SplitUpdate(old(State()), f, c, v, n, fs, i)
    {
      ghost var m := State();
      var g := M.Get(fs, i);
      var t := (M.Get(v, i), M.Get(v, M.Succ3(i)), c);
      var a, b := 3 * M.Get(fs, M.Succ3(i)) + 2, 3 * M.Get(fs, M.Pred3(i)) + 1;
      SplitWrite(g, t, M.Get(n, i), a, b);
      ghost var m4 := State();
      if i != 0 {
        Redirect(M.Get(v, i), {3 * f + i}, 3 * g);
      }
      SplitUpdateStages(m, m4, State(), f, c, v, n, fs, i);
    }

    /** UPDATE(0), UPDATE(1), UPDATE(2), with the two new faces last. */
    method SplitUpdates(f: int, c: int, v: M.Triple, n: M.Triple)
      requires 0 <= f < |faces| - 2
      modifies this
      ensures State() == M.SplitUpdates(old(State()), f, c, v, n)
    {
      var fs := (f, |faces| - 2, |faces| - 1);
      SplitUpdate(f, c, v, n, fs, 0);
      SplitUpdate(f, c, v, n, fs, 1);
      SplitUpdate(f, c, v, n, fs, 2);
    }

    /** n_faces_ += 2 and the resize of the face array. */
    method SplitGrow()
      modifies this
      ensures State() == M.SplitGrow(old(State()))
    {
      nFaces := nFaces + 2;
      faces := faces + [M.BlankFace, M.BlankFace];
    }

    /** split_face(f,c): replace face f by three triangles around the isolated vertex c.
        A failed assertion leaves the mesh as it was. */
    method SplitFace(f: int, c: int) returns (ok: bool)
      modifies this
      ensures ok <==> M.SplitFace(old(State()), f, c).Ok?
      ensures ok ==> State() == M.SplitFace(old(State()), f, c).value
      ensures !ok ==> State() == old(State())
    {
      if !(M.ValidFace(State(), f) && M.ValidVertex(State(), c) && M.Isolated(State(), c)) {
        return false;
      }
      SplitValid(f, c);
      return true;
    }

    /** split_face(f,c) past its assertion. */
    method SplitValid(f: int, c: int)
      requires M.ValidFace(State(), f) && M.ValidVertex(State(), c) && M.Isolated(State(), c)
      modifies this
      ensures State() == M.SplitFace(old(State()), f, c).value
    {
      var v := faces[f].vertices;
      var n := faces[f].neighbors;
      SplitGrow();
      SplitFinish(f, c, v, n);
    }

    /** The three UPDATE steps on the grown face array, then vertex_to_edge_[c]. */
    method SplitFinish(f: int, c: int, v: M.Triple, n: M.Triple)
      requires 0 <= f < |faces| - 2
      modifies this
      ensures State() == M.SetVertexEdge(M.SplitUpdates(old(State()), f, c, v, n), c, 3 * f + 2)
    {
      SplitUpdates(f, c, v, n);
      SetVertexEdge(c, 3 * f + 2);
    }

    /** split_face(f): add a vertex and split f at it. The vertex stays even when the split
        fails its assertion. */
    method SplitFaceNew(f: int) returns (r: M.Result<int>)
      modifies this
      ensures r == (match M.SplitFaceNew(old(State()), f) case Ok((_, c)) => M.Ok(c) case Err(err) => M.Err(err))
      ensures r.Ok? ==> State() == M.SplitFaceNew(old(State()), f).value.0
      ensures r.Err? ==> State() == M.AddVertex(old(State())).0
    {
      var c := AddVertex();
      var ok := SplitFace(f, c);
      if !ok {
        return M.Err(M.AssertionError);
      }
      return M.Ok(c);
    }

    // -------------------------------------------------------------------------
    // Edge flips (mesh/CornerMesh.cpp:265-311)

    /** is_flip_safe(e0) (mesh/CornerMesh.cpp:265-274). */
    method IsFlipSafe(e0: int) returns (safe: bool)
      ensures safe == M.IsFlipSafe(State(), e0)
    {
      var m := State();
      if !M.ValidHalfedge(m, e0) || M.IsBoundary(e0) {
        return false;
      }
      var e1 := M.Reverse(m, e0);
      if M.IsBoundary(e1) {
        return false;
      }
      var o0 := M.Src(m, M.Prev(m, e0));
      var o1 := M.Src(m, M.Prev(m, e1));
      if o0 == o1 {
        return false;
      }
      var h := Halfedge(o0, o1);
      safe := h == M.InvalidId;
    }

    /** The four unsafe_set_reverse calls of unsafe_flip_edge. */
    method FlipReverses(f0: int, f1: int, a: int, b: int, c: int, d: int)
      modifies this
      ensures State() == M.FlipReverses(old(State()), f0, f1, a, b, c, d)
    {
      SetReverse(f0, 1, a);
      SetReverse(f0, 2, b);
      SetReverse(f1, 1, c);
      SetReverse(f1, 2, d);
    }

    /** The vertex_to_edge fixes at the end of unsafe_flip_edge. */
    method FlipRedirects(f0: int, f1: int, v0: int, v1: int, o0: int, o1: int,
                         e0: int, e1: int, n0: int, n1: int, p0: int, p1: int)
      modifies this
      ensures State() == M.FlipRedirects(old(State()), f0, f1, v0, v1, o0, o1, e0, e1, n0, n1, p0, p1)
    {
      Redirect(v0, {e0, n1}, 3 * f1 + 2);
      Redirect(v1, {e1, n0}, 3 * f0 + 2);
      Redirect(o0, {p0}, 3 * f0);
      Redirect(o1, {p1}, 3 * f1);
    }

    /** unsafe_flip_edge(e0) (mesh/CornerMesh.cpp:282-311): rewrite the two faces of e0 and
        return the new halfedge 3*f0. */
    method UnsafeFlipEdge(e0: int) returns (e: int)
      modifies this
      ensures (State(), e) == M.UnsafeFlipEdge(old(State()), e0)
    {
      var m := State();
      var e1 := M.Reverse(m, e0);
      var f0, f1 := M.Face(e0), M.Face(e1);
      var n0, p0 := M.Next(m, e0), M.Prev(m, e0);
      var n1, p1 := M.Next(m, e1), M.Prev(m, e1);
      var rn0, rp0 := M.Reverse(m, n0), M.Reverse(m, p0);
      var rn1, rp1 := M.Reverse(m, n1), M.Reverse(m, p1);
      var v0, o0 := M.Src(m, e0), M.Src(m, p0);
      var v1, o1 := M.Src(m, e1), M.Src(m, p1);
      SetVertices(f0, (o0, o1, v1));
      SetVertices(f1, (o1, o0, v0));
      SetReverseOf(3 * f0, 3 * f1);
      SetReverseOf(3 * f1, 3 * f0);
      FlipReverses(f0, f1, rp1, rn0, rp0, rn1);
      FlipRedirects(f0, f1, v0, v1, o0, o1, e0, e1, n0, n1, p0, p1);
      e := 3 * f0;
    }

    /** flip_edge(e) (mesh/CornerMesh.cpp:276-280): an unsafe flip raises a runtime error and
        leaves the mesh as it was. */
    method FlipEdge(e: int) returns (r: M.Result<int>)
      modifies this
      ensures r == (match M.FlipEdge(old(State()), e) case Ok((_, h)) => M.Ok(h) case Err(err) => M.Err(err))
      ensures r.Ok? ==> State() == M.FlipEdge(old(State()), e).value.0
      ensures r.Err? ==> State() == old(State())
    {
      var safe := IsFlipSafe(e);
      if !safe {
        return M.Err(M.RuntimeError);
      }
      var h := UnsafeFlipEdge(e);
      return M.Ok(h);
    }

    // -------------------------------------------------------------------------
    // Queries (mesh/CornerMesh.cpp:395-458)

    /** elements() (mesh/CornerMesh.cpp:395-401). */
    method Elements() returns (tris: seq<M.Triple>)
      ensures tris == M.Elements(State())
    {
      var m := State();
      tris := [];
      var f := 0;
      while f < |faces|
        invariant 0 <= f <= |faces|
        invariant tris == M.ElementsBelow(m, f)
      {
        if faces[f].vertices.0 != M.DeletedId {
          tris := tris + [faces[f].vertices];
        }
        f := f + 1;
      }
    }

    /** is_manifold_with_boundary (mesh/CornerMesh.cpp:411-428). */
    method IsManifoldWithBoundary() returns (b: bool)
      ensures b == M.IsManifoldWithBoundary(State())
    {
      var m := State();
      if nBoundaryEdges == 0 {
        return true;
      }
      var v := 0;
      while v < |vertexToEdge|
        invariant 0 <= v <= |vertexToEdge|
        invariant forall u :: 0 <= u < v ==> !M.BadBoundaryVertex(m, u)
      {
        var start := vertexToEdge[v];
        if M.IsBoundary(start) {
          var e := start;
          var fuel := M.Slots(m);
          while true
            invariant M.SecondBoundary(m, start, e, fuel) == M.SecondBoundary(m, start, start, M.Slots(m))
            decreases fuel
          {
            if fuel <= 1 {
              break;
            }
            var next := M.Left(m, e);
            if next == start {
              break;
            }
            if M.IsBoundary(next) {
              assert M.BadBoundaryVertex(m, v);
              return false;
            }
            e := next;
            fuel := fuel - 1;
          }
        }
        v := v + 1;
      }
      return true;
    }

    /** has_isolated_vertices (mesh/CornerMesh.cpp:430-435). */
    method HasIsolatedVertices() returns (b: bool)
      ensures b == M.HasIsolatedVertices(State())
    {
      var v := 0;
      while v < |vertexToEdge|
        invariant 0 <= v <= |vertexToEdge|
        invariant forall u :: 0 <= u < v ==> vertexToEdge[u] != M.InvalidId
      {
        if vertexToEdge[v] == M.InvalidId {
          return true;
        }
        v := v + 1;
      }
      return false;
    }

    /** degree(v) (mesh/CornerMesh.cpp:437-442): the length of the ring around v. */
    method Degree(v: int) returns (d: nat)
      ensures d == M.Degree(State(), v)
    {
      var m := State();
      var start := M.VertexEdge(m, v);
      d := 0;
      if start == M.InvalidId {
        return;
      }
      var e := start;
      var fuel := M.Slots(m);
      while fuel > 0
        invariant d + |M.RingFrom(m, start, e, fuel)| == M.Degree(m, v)
        decreases fuel
      {
        d := d + 1;
        e := M.Left(m, e);
        if e == start {
          return;
        }
        fuel := fuel - 1;
      }
    }

    /** The inner do-while of boundary_loops: follow next from start until it comes back,
        marking each halfedge seen. */
    method WalkLoop(start: int, seen0: set<int>) returns (loop: seq<int>, seen: set<int>)
      ensures loop == M.LoopFrom(State(), start, start, |boundaries|)
      ensures seen == seen0 + set x | x in loop
    {
      var m := State();
      loop := [];
      seen := seen0;
      var e := start;
      var fuel: nat := |boundaries|;
      while fuel > 0
        invariant loop + M.LoopFrom(m, start, e, fuel) == M.LoopFrom(m, start, start, |boundaries|)
        invariant seen == seen0 + set x | x in loop
        decreases fuel
      {
        var n := M.Next(m, e);
        WalkStep(m, start, e, fuel, loop);
        ElementsStep(loop, e);
        loop := loop + [e];
        seen := seen + {e};
        fuel := fuel - 1;
        if n == start {
          break;
        }
        e := n;
      }
    }

    /** boundary_loops (mesh/CornerMesh.cpp:444-458). */
    method BoundaryLoops() returns (loops: seq<seq<int>>)
      ensures loops == M.BoundaryLoops(State())
    {
      var m := State();
      var starts := M.LiveBoundaries(m);
      var seen: set<int> := {};
      loops := [];
      var k := 0;
      while k < |starts|
        invariant 0 <= k <= |starts|
        invariant loops + M.LoopsFrom(m, starts[k..], seen) == M.BoundaryLoops(m)
      {
        var start := starts[k];
        var rest := starts[k + 1..];
        assert starts[k..] == [start] + rest;
        assert ([start] + rest)[0] == start && ([start] + rest)[1..] == rest;
        if start !in seen {
          var seen0 := seen;
          var loop;
          loop, seen := WalkLoop(start, seen);
          assert |m.boundaries| == |boundaries|;
          assert M.LoopsFrom(m, [start] + rest, seen0) == [loop] + M.LoopsFrom(m, rest, seen);
          loops := loops + [loop];
        } else {
          assert M.LoopsFrom(m, [start] + rest, seen) == M.LoopsFrom(m, rest, seen);
        }
        k := k + 1;
      }
      assert starts[k..] == [];
    }

    // -------------------------------------------------------------------------
    // Deletion (mesh/CornerMesh.cpp:460-519)

    /** First loop of unsafe_delete_face, neighbour ei: a boundary neighbour hands back its
        (prev, next) and goes to the free list. */
    method DeleteNear(ei: int) returns (near: (int, int))
      modifies this
      ensures (State(), near) == M.DeleteNear(old(State()), ei)
    {
      if ei < 0 {
        near := (M.Prev(State(), ei), M.Next(State(), ei));
        SetDeleted(ei);
      } else {
        near := (M.InvalidId, M.InvalidId);
      }
    }

    method DeleteNearAll(e: M.Triple) returns (near: ((int, int), (int, int), (int, int)))
      modifies this
      ensures (State(), near) == M.DeleteNearAll(old(State()), e)
    {
      var near0 := DeleteNear(e.0);
      var near1 := DeleteNear(e.1);
      var near2 := DeleteNear(e.2);
      near := (near0, near1, near2);
    }

    /** Second loop of unsafe_delete_face, corner i: an interior neighbour ei gets a fresh
        boundary halfedge leaving vertex i of f as its reverse. */
    method DeleteNew(f: int, i: int, ei: int) returns (b: int)
      requires 0 <= f < |faces|
      modifies this
      ensures (State(), b) == M.DeleteNew(old(State()), f, i, ei)
    {
      if ei >= 0 {
        b := NewBoundary(M.Get(faces[f].vertices, i), ei);
        SetReverseOf(ei, b);
      } else {
        b := M.InvalidId;
      }
    }

    method DeleteNewAll(f: int, e: M.Triple) returns (b: M.Triple)
      requires 0 <= f < |faces|
      modifies this
      ensures (State(), b) == M.DeleteNewAll(old(State()), f, e)
    {
      var b0 := DeleteNew(f, 0, e.0);
      var b1 := DeleteNew(f, 1, e.1);
      var b2 := DeleteNew(f, 2, e.2);
      b := (b0, b1, b2);
    }

    /** Third loop of unsafe_delete_face, corner i: link the boundary around vertex i and
        fix its stored halfedge. */
    method DeleteFix(f: int, i: int, e: M.Triple, near: ((int, int), (int, int), (int, int)), b: M.Triple)
      requires 0 <= f < |faces| && 0 <= i < 3
      modifies this
      ensures State() == M.DeleteFix(old(State()), f, i, e, near, b)
    {
      var ip := if i > 0 then i - 1 else 2;
      var nearI := if i == 0 then near.0 else if i == 1 then near.1 else near.2;
      var nearP := if ip == 0 then near.0 else if ip == 1 then near.1 else near.2;
      var v := M.Get(faces[f].vertices, i);
      var prev := if M.Get(e, ip) >= 0 then M.Get(b, ip) else nearP.0;
      var next := if M.Get(e, i) >= 0 then M.Get(b, i) else nearI.1;
      if M.Get(e, i) >= 0 || M.Get(e, ip) >= 0 || prev != M.Get(e, i) {
        BoundaryLink(prev, next);
        SetVertexEdge(v, next);
      } else if M.VertexEdge(State(), v) == M.Get(e, ip) {
        SetVertexEdge(v, M.InvalidId);
      }
    }

    method DeleteFixAll(f: int, e: M.Triple, near: ((int, int), (int, int), (int, int)), b: M.Triple)
      requires 0 <= f < |faces|
      modifies this
      ensures State() == M.DeleteFixAll(old(State()), f, e, near, b)
    {
      DeleteFix(f, 0, e, near, b);
      DeleteFix(f, 1, e, near, b);
      DeleteFix(f, 2, e, near, b);
    }

    /** Corner i of the renaming of face f1 to f. */
    method RenameCorner(f: int, f1: int, info: M.FaceInfo, i: int)
      requires 0 <= i < 3
      modifies this
      ensures State() == M.RenameCorner(old(State()), f, f1, info, i)
    {
      SetReverse(f, i, M.Get(info.neighbors, i));
      Redirect(M.Get(info.vertices, i), {3 * f1 + i}, 3 * f + i);
    }

    /** Move the last face into slot f, unless f is the last. */
    method RenameLast(f: int)
      requires 0 <= f < |faces|
      modifies this
      ensures State() == M.RenameLast(old(State()), f)
    {
      var f1 := |faces| - 1;
      if f < f1 {
        var info := faces[f1];
        SetVertices(f, info.vertices);
        RenameCorner(f, f1, info, 0);
        RenameCorner(f, f1, info, 1);
        RenameCorner(f, f1, info, 2);
      }
    }

    /** unsafe_delete_face(f) (mesh/CornerMesh.cpp:470-519). */
    method UnsafeDeleteFace(f: int)
      requires 0 <= f < |faces|
      modifies this
      ensures State() == M.UnsafeDeleteFace(old(State()), f)
    {
      var e := faces[f].neighbors;
      var near := DeleteNearAll(e);
      var b := DeleteNewAll(f, e);
      DeleteFixAll(f, e, near, b);
      RenameLast(f);
      faces := faces[..|faces| - 1];
      nFaces := nFaces - 1;
    }

    /** unsafe_delete_last_vertex() (mesh/CornerMesh.cpp:460-468): delete the faces around the
        last vertex until it is isolated, then drop it. */
    method UnsafeDeleteLastVertex()
      requires |vertexToEdge| > 0
      modifies this
      ensures State() == M.UnsafeDeleteLastVertex(old(State()))
    {
      var v := |vertexToEdge| - 1;
      while true
        invariant |vertexToEdge| == v + 1
        invariant M.DeleteIncidentFaces(State(), v) == M.DeleteIncidentFaces(old(State()), v)
        decreases |faces|
      {
        var f := M.Face(M.Reverse(State(), M.VertexEdge(State(), v)));
        if M.Isolated(State(), v) || !(0 <= f < |faces|) {
          break;
        }
        UnsafeDeleteFace(f);
      }
      vertexToEdge := vertexToEdge[..v];
      nVertices := nVertices - 1;
    }

    // -------------------------------------------------------------------------
    // permute_vertices (mesh/CornerMesh.cpp:560-587)

    /** The scatter of vertex_to_edge_ into a new array, with the range assertion of the
        checked mode. */
    method ScatterEdges(perm: seq<int>, check: bool) returns (r: M.Result<seq<int>>)
      requires |perm| == |vertexToEdge|
      ensures r.Err? <==> check && exists v :: 0 <= v < |perm| && !(0 <= perm[v] < |perm|)
      ensures r.Ok? ==> r.value == M.Scatter(perm, vertexToEdge, if check then M.DeletedId else M.InvalidId, |perm|)
    {
      var init := if check then M.DeletedId else M.InvalidId;
      var a := new int[|perm|](_ => init);
      assert a[..] == M.Scatter(perm, vertexToEdge, init, 0);
      var v := 0;
      while v < |perm|
        invariant 0 <= v <= |perm|
        invariant a[..] == M.Scatter(perm, vertexToEdge, init, v)
        invariant check ==> forall u :: 0 <= u < v ==> 0 <= perm[u] < |perm|
      {
        var pv := perm[v];
        if 0 <= pv < a.Length {
          a[pv] := vertexToEdge[v];
        } else if check {
          return M.Err(M.AssertionError);
        }
        v := v + 1;
      }
      return M.Ok(a[..]);
    }

    /** The in-place renaming of the vertices of every live face. */
    method MapFaces(perm: seq<int>)
      modifies this
      ensures State() == old(State()).(faces := seq(|old(faces)|, f requires 0 <= f < |old(faces)| => M.MapFace(perm, old(faces)[f])))
    {
      ghost var before := faces;
      var f := 0;
      while f < |faces|
        invariant 0 <= f <= |faces| == |before|
        invariant forall g :: 0 <= g < f ==> faces[g] == M.MapFace(perm, before[g])
        invariant forall g :: f <= g < |faces| ==> faces[g] == before[g]
        invariant State() == old(State()).(faces := faces)
      {
        faces := faces[f := M.MapFace(perm, faces[f])];
        f := f + 1;
      }
    }

    /** The in-place renaming of the source of every live boundary record. */
    method MapBoundaries(perm: seq<int>)
      modifies this
      ensures State() == old(State()).(boundaries := seq(|old(boundaries)|, b requires 0 <= b < |old(boundaries)| => M.MapBoundary(perm, old(boundaries)[b])))
    {
      ghost var before := boundaries;
      var b := 0;
      while b < |boundaries|
        invariant 0 <= b <= |boundaries| == |before|
        invariant forall g :: 0 <= g < b ==> boundaries[g] == M.MapBoundary(perm, before[g])
        invariant forall g :: b <= g < |boundaries| ==> boundaries[g] == before[g]
        invariant State() == old(State()).(boundaries := boundaries)
      {
        boundaries := boundaries[b := M.MapBoundary(perm, boundaries[b])];
        b := b + 1;
      }
    }

    /** permute_vertices(permutation, check) (mesh/CornerMesh.cpp:560-587). A failed assertion
        leaves the mesh as it was. */
    method PermuteVertices(perm: seq<int>, check: bool) returns (ok: bool)
      modifies this
      ensures ok <==> M.PermuteVertices(old(State()), perm, check).Ok?
      ensures ok ==> State() == M.PermuteVertices(old(State()), perm, check).value
      ensures !ok ==> State() == old(State())
    {
      if nVertices != |perm| || nVertices != |vertexToEdge| {
        return false;
      }
      var vte := ScatterEdges(perm, check);
      if vte.Err? || (check && M.DeletedId in vte.value) {
        return false;
      }
      vertexToEdge := vte.value;
      MapFaces(perm);
      MapBoundaries(perm);
      return true;
    }
  }
}
