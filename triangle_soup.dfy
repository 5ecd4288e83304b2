/**
 * The combinatorial queries of geode/mesh/TriangleSoup.cpp. A soup is a list of
 * oriented triangles over integer vertex ids. Every query is a function of the element
 * list only; the C++ memoises the answers in mutable cache fields, which the model
 * drops: each query is a method computing its answer with the source's loops, proved
 * equal to a pure specification, and the specifications' meaning is proved as lemmas.
 * Hash tables become Dafny maps and sets.
 */
module TriangleSoup {

  type Triangle = (int, int, int)
  type Segment = (int, int)

  datatype Error = ValueError | RuntimeError | KeyError
  datatype Result<T> = Ok(value: T) | Err(error: Error)

  /** Corner i (0, 1 or 2) of a triangle: t.x, t.y, t.z. */
  function Corner(t: Triangle, i: int): int
  {
    if i == 0 then t.0 else if i == 1 then t.1 else t.2
  }

  /** The corner following corner i around the triangle. */
  function Succ(i: int): int
  {
    if i == 0 then 1 else if i == 1 then 2 else 0
  }

  /** v is a corner of some element. */
  ghost predicate Uses(elements: seq<Triangle>, v: int)
  {
    exists t, i :: 0 <= t < |elements| && 0 <= i < 3 && Corner(elements[t], i) == v
  }

  /** Every vertex lies in [lo, hi). */
  predicate VerticesIn(elements: seq<Triangle>, lo: int, hi: int)
  {
    forall t, i :: 0 <= t < |elements| && 0 <= i < 3 ==> lo <= Corner(elements[t], i) < hi
  }

  /** The soup invariant the constructor establishes: no vertex is negative. */
  ghost predicate NonNegative(elements: seq<Triangle>)
  {
    forall t, i :: 0 <= t < |elements| && 0 <= i < 3 ==> Corner(elements[t], i) >= 0
  }

  // ---------------------------------------------------------------------------
  // The constructor: node count

  /**
   * The constructor's validity loop: ValueError at a negative vertex, otherwise the
   * node count, one more than the largest vertex (0 for an empty soup).
   */
  method NodeCount(elements: seq<Triangle>) returns (r: Result<nat>)
    ensures r.Err? <==> !NonNegative(elements)
    ensures r.Err? ==> r.error == ValueError
    ensures r.Ok? ==> VerticesIn(elements, 0, r.value)
    ensures r.Ok? && r.value > 0 ==> Uses(elements, r.value - 1)
    ensures r.Ok? ==> (r.value == 0 <==> |elements| == 0)
  {
    var count: nat := 0;
    ghost var wt, wi := 0, 0;
    var t := 0;
    while t < |elements|
      invariant 0 <= t <= |elements|
      invariant VerticesIn(elements[..t], 0, count)
      invariant count > 0 ==> 0 <= wt < t && 0 <= wi < 3 && Corner(elements[wt], wi) == count - 1
      invariant count == 0 <==> t == 0
    {
      var i := 0;
      while i < 3
        invariant 0 <= i <= 3
        invariant VerticesIn(elements[..t], 0, count)
        invariant forall k :: 0 <= k < i ==> 0 <= Corner(elements[t], k) < count
        invariant count > 0 ==> 0 <= wt <= t && 0 <= wi < 3 && Corner(elements[wt], wi) == count - 1
        invariant (wt == t && count > 0) ==> wi < i
        invariant count == 0 <==> (t == 0 && i == 0)
      {
        var v := Corner(elements[t], i);
        if v < 0 {
          return Err(ValueError);
        }
        if v + 1 > count {
          count := v + 1;
          wt, wi := t, i;
        }
        i := i + 1;
      }
      assert elements[..t + 1] == elements[..t] + [elements[t]];
      t := t + 1;
    }
    assert elements[..t] == elements;
    r := Ok(count);
  }

  // ---------------------------------------------------------------------------
  // The edge streams: (x,y), (y,z), (z,x) of every triangle, in element order

  /** The three directed edges of a triangle. */
  function Directed(t: Triangle): seq<Segment>
  {
    [(t.0, t.1), (t.1, t.2), (t.2, t.0)]
  }

  /** An edge with its ends in increasing order (Vector::sorted). */
  function SortedPair(a: int, b: int): (r: Segment)
    ensures r.0 <= r.1
    ensures (r.0 == a && r.1 == b) || (r.0 == b && r.1 == a)
  {
    if a <= b then (a, b) else (b, a)
  }

  /** The three undirected edges of a triangle, sorted: e0, e1, e2. */
  function Undirected(t: Triangle): seq<Segment>
  {
    [SortedPair(t.0, t.1), SortedPair(t.1, t.2), SortedPair(t.2, t.0)]
  }

  /** Every directed edge of the soup, three per triangle, in element order. */
  function DirectedStream(elements: seq<Triangle>): (r: seq<Segment>)
    ensures |r| == 3 * |elements|
  {
    if |elements| == 0 then [] else DirectedStream(elements[..|elements| - 1]) + Directed(elements[|elements| - 1])
  }

  /** Every sorted edge of the soup, three per triangle, in element order. */
  function EdgeStream(elements: seq<Triangle>): (r: seq<Segment>)
    ensures |r| == 3 * |elements|
  {
    if |elements| == 0 then [] else EdgeStream(elements[..|elements| - 1]) + Undirected(elements[|elements| - 1])
  }

  lemma EdgeStreamStep(elements: seq<Triangle>, t: nat)
    requires t < |elements|
    ensures EdgeStream(elements[..t + 1]) == EdgeStream(elements[..t]) + Undirected(elements[t])
    ensures DirectedStream(elements[..t + 1]) == DirectedStream(elements[..t]) + Directed(elements[t])
  {
    assert elements[..t + 1][..t] == elements[..t];
  }

  // ---------------------------------------------------------------------------
  // Deduplication in order of first occurrence (a Hashtable::set guarding an append)

  /** s with every repeat of an earlier entry dropped. */
  function Dedup<T(==)>(s: seq<T>): seq<T>
  {
    if |s| == 0 then []
    else
      var d := Dedup(s[..|s| - 1]);
      if s[|s| - 1] in d then d else d + [s[|s| - 1]]
  }

  /** One step of Dedup: x is appended unless already present. */
  function DedupNext<T(==)>(d: seq<T>, x: T): seq<T>
  {
    if x in d then d else d + [x]
  }

  lemma DedupStep<T>(s: seq<T>, x: T)
    ensures Dedup(s + [x]) == DedupNext(Dedup(s), x)
  {
    assert (s + [x])[..|s|] == s;
  }

  /** Deduplicating three more entries (one triangle's edges) is three steps. */
  lemma DedupTriple<T>(s: seq<T>, e: seq<T>)
    requires |e| == 3
    ensures Dedup(s + e) == DedupNext(DedupNext(DedupNext(Dedup(s), e[0]), e[1]), e[2])
  {
    DedupStep(s, e[0]);
    DedupStep(s + [e[0]], e[1]);
    DedupStep(s + [e[0]] + [e[1]], e[2]);
    assert s + [e[0]] + [e[1]] + [e[2]] == s + e;
  }

  predicate Distinct<T(==)>(s: seq<T>)
  {
    forall i, j :: 0 <= i < j < |s| ==> s[i] != s[j]
  }

  /** Dedup keeps exactly the values of s. */
  lemma {:induction false} DedupMembers<T>(s: seq<T>)
    ensures forall x :: x in Dedup(s) <==> x in s
  {
    if |s| > 0 {
      var p, x := s[..|s| - 1], s[|s| - 1];
      assert s == p + [x];
      DedupMembers(p);
    }
  }

  /** Dedup keeps each value once. */
  lemma {:induction false} DedupDistinct<T>(s: seq<T>)
    ensures Distinct(Dedup(s))
  {
    if |s| > 0 {
      DedupDistinct(s[..|s| - 1]);
    }
  }

  /** Dedup keeps exactly the values of s, each once, in order of first occurrence:
   *  deduplicating any prefix of s gives a prefix of the result. */
  lemma DedupProperties<T>(s: seq<T>)
    ensures forall x :: x in Dedup(s) <==> x in s
    ensures Distinct(Dedup(s))
    ensures forall k :: 0 <= k <= |s| ==> Dedup(s[..k]) <= Dedup(s)
  {
    DedupMembers(s);
    DedupDistinct(s);
    forall k | 0 <= k <= |s|
      ensures Dedup(s[..k]) <= Dedup(s)
    {
      assert s == s[..k] + s[k..];
      DedupPrefix(s[..k], s[k..]);
    }
  }

  /** Deduplicating a prefix gives a prefix of the deduplicated whole. */
  lemma {:induction false} DedupPrefix<T>(s: seq<T>, u: seq<T>)
    ensures Dedup(s) <= Dedup(s + u)
    decreases |u|
  {
    if |u| > 0 {
      var w := u[..|u| - 1];
      assert s + u == (s + w) + [u[|u| - 1]];
      DedupPrefix(s, w);
      DedupStep(s + w, u[|u| - 1]);
    } else {
      assert s + u == s;
    }
  }

  // ---------------------------------------------------------------------------
  // segment_soup

  /** The edges of segment_soup(): each undirected edge once, sorted, in first-seen order. */
  function SegmentSoup(elements: seq<Triangle>): seq<Segment>
  {
    Dedup(EdgeStream(elements))
  }

  /**
   * segment_soup lists every edge of every triangle exactly once, as a sorted pair, in
   * the order the edges are first met.
   */
  lemma SegmentSoupProperties(elements: seq<Triangle>)
    ensures forall s :: s in SegmentSoup(elements) <==> s in EdgeStream(elements)
    ensures Distinct(SegmentSoup(elements))
    ensures forall s :: s in SegmentSoup(elements) ==> s.0 <= s.1
  {
    DedupMembers(EdgeStream(elements));
    DedupDistinct(EdgeStream(elements));
    SegmentSoupSorted(elements);
  }

  lemma SegmentSoupSorted(elements: seq<Triangle>)
    ensures forall s :: s in SegmentSoup(elements) ==> s.0 <= s.1
  {
    DedupMembers(EdgeStream(elements));
    forall s | s in EdgeStream(elements)
      ensures s.0 <= s.1
    {
      EdgeStreamSorted(elements, s);
    }
  }

  /**
   * Edges are numbered in order of first occurrence: the edges of the first k triangles
   * come first, in the order they would have on their own.
   */
  lemma SegmentSoupPrefix(elements: seq<Triangle>, k: nat)
    requires k <= |elements|
    ensures SegmentSoup(elements[..k]) <= SegmentSoup(elements)
  {
    EdgeStreamPrefix(elements, k);
    DedupPrefix(EdgeStream(elements[..k]), EdgeStream(elements)[3 * k..]);
  }

  /** The stream of a prefix of the soup is a prefix of the stream. */
  lemma {:induction false} EdgeStreamPrefix(elements: seq<Triangle>, k: nat)
    requires k <= |elements|
    ensures EdgeStream(elements) == EdgeStream(elements[..k]) + EdgeStream(elements)[3 * k..]
    decreases |elements|
  {
    if k < |elements| {
      var p := elements[..|elements| - 1];
      assert p[..k] == elements[..k];
      EdgeStreamPrefix(p, k);
    } else {
      assert elements[..k] == elements;
    }
  }

  lemma {:induction false} EdgeStreamSorted(elements: seq<Triangle>, s: Segment)
    requires s in EdgeStream(elements)
    ensures s.0 <= s.1
  {
    if |elements| > 0 {
      var p := elements[..|elements| - 1];
      if s in EdgeStream(p) {
        EdgeStreamSorted(p, s);
      }
    }
  }

  /** `if (hash.set(e)) edges.append(e)`: append e unless the hash set already holds it. */
  method SetAppend(hash: set<Segment>, edges: seq<Segment>, e: Segment)
    returns (hash': set<Segment>, edges': seq<Segment>)
    requires forall s :: s in hash <==> s in edges
    ensures edges' == DedupNext(edges, e)
    ensures forall s :: s in hash' <==> s in edges'
  {
    if e in hash {
      hash', edges' := hash, edges;
    } else {
      hash', edges' := hash + {e}, edges + [e];
    }
  }

  /** segment_soup(): one pass appending each edge when the hash set first takes it. */
  method ComputeSegmentSoup(elements: seq<Triangle>) returns (edges: seq<Segment>)
    ensures edges == SegmentSoup(elements)
  {
    var hash: set<Segment> := {};
    edges := [];
    var t := 0;
    while t < |elements|
      invariant 0 <= t <= |elements|
      invariant edges == Dedup(EdgeStream(elements[..t]))
      invariant forall s :: s in hash <==> s in edges
    {
      EdgeStreamStep(elements, t);
      DedupTriple(EdgeStream(elements[..t]), Undirected(elements[t]));
      var e := Undirected(elements[t]);
      hash, edges := SetAppend(hash, edges, e[0]);
      hash, edges := SetAppend(hash, edges, e[1]);
      hash, edges := SetAppend(hash, edges, e[2]);
      t := t + 1;
    }
    assert elements[..t] == elements;
  }

  // ---------------------------------------------------------------------------
  // triangle_edges

  /** The numbering kept by triangle_edges' hash: every edge of `edges` maps to its index. */
  ghost predicate Numbering(hash: map<Segment, int>, edges: seq<Segment>)
  {
    |hash| == |edges| &&
    (forall s :: s in hash <==> s in edges) &&
    (forall s :: s in hash ==> 0 <= hash[s] < |edges| && edges[hash[s]] == s)
  }

  /** `hash.get_or_insert(e, hash.size())`: the index of e, numbering it next if new. */
  method GetOrInsert(hash: map<Segment, int>, ghost edges: seq<Segment>, e: Segment)
    returns (hash': map<Segment, int>, ghost edges': seq<Segment>, id: int)
    requires Numbering(hash, edges)
    ensures edges' == DedupNext(edges, e)
    ensures Numbering(hash', edges')
    ensures edges <= edges'
    ensures 0 <= id < |edges'| && edges'[id] == e
  {
    if e in hash {
      hash', edges' := hash, edges;
    } else {
      hash', edges' := hash[e := |hash|], edges + [e];
    }
    id := hash'[e];
  }

  /** The edge indices r give triangle k's edges, as numbered by `edges`. */
  ghost predicate Numbered(elements: seq<Triangle>, r: seq<(int, int, int)>, edges: seq<Segment>)
    requires |r| <= |elements|
  {
    forall k :: 0 <= k < |r| ==>
      0 <= r[k].0 < |edges| && edges[r[k].0] == Undirected(elements[k])[0] &&
      0 <= r[k].1 < |edges| && edges[r[k].1] == Undirected(elements[k])[1] &&
      0 <= r[k].2 < |edges| && edges[r[k].2] == Undirected(elements[k])[2]
  }

  lemma NumberedStep(elements: seq<Triangle>, r: seq<(int, int, int)>, edges: seq<Segment>, edges': seq<Segment>, ids: (int, int, int))
    requires |r| < |elements|
    requires Numbered(elements, r, edges)
    requires edges <= edges'
    requires 0 <= ids.0 < |edges'| && edges'[ids.0] == Undirected(elements[|r|])[0]
    requires 0 <= ids.1 < |edges'| && edges'[ids.1] == Undirected(elements[|r|])[1]
    requires 0 <= ids.2 < |edges'| && edges'[ids.2] == Undirected(elements[|r|])[2]
    ensures Numbered(elements, r + [ids], edges')
  {
    forall k | 0 <= k < |r|
      ensures edges'[r[k].0] == edges[r[k].0] && edges'[r[k].1] == edges[r[k].1] && edges'[r[k].2] == edges[r[k].2]
    {
    }
  }

  /** The three get_or_insert calls for one triangle's edges e0, e1, e2. */
  method TriangleIds(hash: map<Segment, int>, ghost edges: seq<Segment>, tri: Triangle)
    returns (hash': map<Segment, int>, ghost edges': seq<Segment>, ids: (int, int, int))
    requires Numbering(hash, edges)
    ensures edges' == DedupNext(DedupNext(DedupNext(edges, Undirected(tri)[0]), Undirected(tri)[1]), Undirected(tri)[2])
    ensures Numbering(hash', edges')
    ensures edges <= edges'
    ensures 0 <= ids.0 < |edges'| && edges'[ids.0] == Undirected(tri)[0]
    ensures 0 <= ids.1 < |edges'| && edges'[ids.1] == Undirected(tri)[1]
    ensures 0 <= ids.2 < |edges'| && edges'[ids.2] == Undirected(tri)[2]
  {
    var e := Undirected(tri);
    var e0, e1, e2;
    hash', edges', e0 := GetOrInsert(hash, edges, e[0]);
    ghost var edges1 := edges';
    hash', edges', e1 := GetOrInsert(hash', edges', e[1]);
    ghost var edges2 := edges';
    hash', edges', e2 := GetOrInsert(hash', edges', e[2]);
    PrefixesKeep(edges, edges1, edges2, edges', e0, e1);
    ids := (e0, e1, e2);
  }

  /** Entries of the first and second of three growing prefixes keep their index in the last. */
  lemma PrefixesKeep<T>(a: seq<T>, b: seq<T>, c: seq<T>, d: seq<T>, i: int, j: int)
    requires a <= b <= c <= d && 0 <= i < |b| && 0 <= j < |c|
    ensures a <= d && i < |d| && d[i] == b[i] && j < |d| && d[j] == c[j]
  {
  }

  /**
   * triangle_edges(): for each triangle the indices of its edges e0, e1, e2 in the same
   * numbering as segment_soup(), handed out by get_or_insert(edge, hash.size()).
   */
  method TriangleEdges(elements: seq<Triangle>) returns (r: seq<(int, int, int)>)
    ensures |r| == |elements|
    ensures Numbered(elements, r, SegmentSoup(elements))
  {
    var hash: map<Segment, int> := map[];
    ghost var edges: seq<Segment> := [];
    r := [];
    var t := 0;
    while t < |elements|
      invariant 0 <= t <= |elements|
      invariant |r| == t
      invariant edges == Dedup(EdgeStream(elements[..t]))
      invariant Numbering(hash, edges)
      invariant Numbered(elements, r, edges)
    {
      EdgeStreamStep(elements, t);
      DedupTriple(EdgeStream(elements[..t]), Undirected(elements[t]));
      ghost var edges0 := edges;
      var ids;
      hash, edges, ids := TriangleIds(hash, edges, elements[t]);
      NumberedStep(elements, r, edges0, edges, ids);
      r := r + [ids];
      t := t + 1;
    }
    assert elements[..t] == elements;
  }

  // ---------------------------------------------------------------------------
  // Element lists keyed by a per-corner key (incident_elements, bending_tuples' edge_to_face)

  /** n copies of x. */
  function Repeat(x: int, n: nat): (r: seq<int>)
    ensures |r| == n
    ensures forall k :: 0 <= k < n ==> r[k] == x
  {
    if n == 0 then [] else Repeat(x, n - 1) + [x]
  }

  /** How many of the first n keys of an element equal key. */
  function Hits<K(==)>(keys: seq<K>, key: K, n: nat): nat
    requires n <= |keys|
  {
    if n == 0 then 0 else Hits(keys, key, n - 1) + (if keys[n - 1] == key then 1 else 0)
  }

  /**
   * The list of element indices t, once for every key of element t equal to key, in
   * increasing t: what appending t under each of its keys builds.
   */
  function Grouped<K(==)>(slots: seq<seq<K>>, key: K): seq<int>
  {
    if |slots| == 0 then []
    else Grouped(slots[..|slots| - 1], key) + Repeat(|slots| - 1, Hits(slots[|slots| - 1], key, |slots[|slots| - 1]|))
  }

  lemma GroupedStep<K>(slots: seq<seq<K>>, key: K, t: nat)
    requires t < |slots|
    ensures Grouped(slots[..t + 1], key) == Grouped(slots[..t], key) + Repeat(t, Hits(slots[t], key, |slots[t]|))
  {
    assert slots[..t + 1][..t] == slots[..t];
  }

  /** The list for a prefix of the elements is a prefix of the whole list. */
  lemma {:induction false} GroupedPrefix<K>(slots: seq<seq<K>>, key: K, t: nat)
    requires t <= |slots|
    ensures Grouped(slots[..t], key) <= Grouped(slots, key)
    decreases |slots|
  {
    if t < |slots| {
      var p := slots[..|slots| - 1];
      assert p[..t] == slots[..t];
      GroupedPrefix(p, key, t);
    } else {
      assert slots[..t] == slots;
    }
  }

  lemma {:induction false} HitsBound<K>(keys: seq<K>, key: K, n: nat)
    requires n <= |keys|
    ensures Hits(keys, key, n) <= n
    ensures Hits(keys, key, n) > 0 <==> exists c :: 0 <= c < n && keys[c] == key
  {
    if n > 0 {
      HitsBound(keys, key, n - 1);
    }
  }

  /** t is listed exactly when one of element t's keys is key. */
  lemma {:induction false} GroupedMembers<K>(slots: seq<seq<K>>, key: K, t: int)
    ensures t in Grouped(slots, key) <==> 0 <= t < |slots| && key in slots[t]
  {
    if |slots| > 0 {
      var n := |slots| - 1;
      var p := slots[..n];
      GroupedMembers(p, key, t);
      HitsBound(slots[n], key, |slots[n]|);
      var rep := Repeat(n, Hits(slots[n], key, |slots[n]|));
      assert t in Grouped(slots, key) <==> t in Grouped(p, key) || t in rep;
      if t == n && key in slots[n] {
        var c :| 0 <= c < |slots[n]| && slots[n][c] == key;
        assert rep[0] == t;
      }
    }
  }

  /** The list is in increasing element order. */
  lemma {:induction false} GroupedSorted<K>(slots: seq<seq<K>>, key: K)
    ensures forall a, b :: 0 <= a < b < |Grouped(slots, key)| ==> Grouped(slots, key)[a] <= Grouped(slots, key)[b]
    ensures forall a :: 0 <= a < |Grouped(slots, key)| ==> 0 <= Grouped(slots, key)[a] < |slots|
  {
    if |slots| > 0 {
      var n := |slots| - 1;
      GroupedSorted(slots[..n], key);
    }
  }

  /** Element t is listed once for each of its keys equal to key. */
  lemma {:induction false} GroupedCount<K>(slots: seq<seq<K>>, key: K, t: nat)
    requires t < |slots|
    ensures multiset(Grouped(slots, key))[t] == Hits(slots[t], key, |slots[t]|)
  {
    var n := |slots| - 1;
    var p := slots[..n];
    var rep := Repeat(n, Hits(slots[n], key, |slots[n]|));
    assert multiset(Grouped(slots, key)) == multiset(Grouped(p, key)) + multiset(rep);
    RepeatCount(n, Hits(slots[n], key, |slots[n]|), t);
    if t < n {
      GroupedCount(p, key, t);
    } else {
      GroupedMembers(p, key, t);
      assert t !in multiset(Grouped(p, key));
    }
  }

  lemma {:induction false} RepeatCount(x: int, n: nat, y: int)
    ensures multiset(Repeat(x, n))[y] == if x == y then n else 0
  {
    if n > 0 {
      RepeatCount(x, n - 1, y);
    }
  }

  // ---------------------------------------------------------------------------
  // incident_elements

  /** The corners of each element, as keys. */
  function CornerSlots(elements: seq<Triangle>): (r: seq<seq<int>>)
    ensures |r| == |elements|
    ensures forall t :: 0 <= t < |r| ==> r[t] == [elements[t].0, elements[t].1, elements[t].2]
  {
    seq(|elements|, t requires 0 <= t < |elements| => [elements[t].0, elements[t].1, elements[t].2])
  }

  /** incident_elements()[v]: every element containing v, once per such corner, in increasing order. */
  function Incident(elements: seq<Triangle>, v: int): seq<int>
  {
    Grouped(CornerSlots(elements), v)
  }

  /**
   * incident_elements lists, in increasing order, exactly the elements with v as a
   * corner, each as many times as v occurs in it.
   */
  lemma IncidentProperties(elements: seq<Triangle>, v: int)
    ensures forall t :: t in Incident(elements, v) <==> 0 <= t < |elements| && v in [elements[t].0, elements[t].1, elements[t].2]
    ensures forall a, b :: 0 <= a < b < |Incident(elements, v)| ==> Incident(elements, v)[a] <= Incident(elements, v)[b]
    ensures forall t :: 0 <= t < |elements| ==>
              multiset(Incident(elements, v))[t] == Hits([elements[t].0, elements[t].1, elements[t].2], v, 3)
  {
    forall t
      ensures t in Incident(elements, v) <==> 0 <= t < |elements| && v in [elements[t].0, elements[t].1, elements[t].2]
    {
      GroupedMembers(CornerSlots(elements), v, t);
    }
    GroupedSorted(CornerSlots(elements), v);
    forall t | 0 <= t < |elements|
      ensures multiset(Incident(elements, v))[t] == Hits([elements[t].0, elements[t].1, elements[t].2], v, 3)
    {
      GroupedCount(CornerSlots(elements), v, t);
    }
  }

  /** The incidence counts after corner i of element t: lengths[p] in the counting pass. */
  function Filled(slots: seq<seq<int>>, t: nat, i: nat, v: int): seq<int>
    requires t < |slots| && i <= |slots[t]|
  {
    Grouped(slots[..t], v) + Repeat(t, Hits(slots[t], v, i))
  }

  /** The part filled so far is a prefix of the finished row. */
  lemma FilledPrefix(slots: seq<seq<int>>, t: nat, i: nat, v: int)
    requires t < |slots| && i <= |slots[t]|
    ensures Filled(slots, t, i, v) <= Grouped(slots, v)
  {
    GroupedStep(slots, v, t);
    GroupedPrefix(slots, v, t + 1);
    HitsMonotone(slots[t], v, i, |slots[t]|);
  }

  /** After the last corner of element t, the filled part is the row for elements 0..t. */
  lemma FilledEnd(slots: seq<seq<int>>, t: nat, v: int)
    requires t < |slots| && |slots[t]| == 3
    ensures t + 1 < |slots| ==> Filled(slots, t, 3, v) == Filled(slots, t + 1, 0, v)
    ensures t + 1 == |slots| ==> Filled(slots, t, 3, v) == Grouped(slots, v)
  {
    GroupedStep(slots, v, t);
    if t + 1 == |slots| {
      assert slots[..t + 1] == slots;
    }
  }

  lemma {:induction false} HitsMonotone<K>(keys: seq<K>, key: K, i: nat, j: nat)
    requires i <= j <= |keys|
    ensures Hits(keys, key, i) <= Hits(keys, key, j)
    decreases j
  {
    if i < j {
      HitsMonotone(keys, key, i, j - 1);
    }
  }

  /** The counting pass: lengths[v] is the number of corners equal to v. */
  method CountCorners(elements: seq<Triangle>, nodes: nat) returns (lengths: array<int>)
    requires VerticesIn(elements, 0, nodes)
    ensures fresh(lengths)
    ensures lengths.Length == nodes
    ensures forall v :: 0 <= v < nodes ==> lengths[v] == |Incident(elements, v)|
  {
    var slots := CornerSlots(elements);
    lengths := new int[nodes](_ => 0);
    var t := 0;
    while t < |elements|
      invariant 0 <= t <= |elements|
      invariant forall v :: 0 <= v < nodes ==> lengths[v] == |Grouped(slots[..t], v)|
    {
      var i := 0;
      while i < 3
        invariant 0 <= i <= 3
        invariant forall v :: 0 <= v < nodes ==> lengths[v] == |Filled(slots, t, i, v)|
      {
        var p := Corner(elements[t], i);
        lengths[p] := lengths[p] + 1;
        i := i + 1;
      }
      forall v | 0 <= v < nodes
        ensures lengths[v] == |Grouped(slots[..t + 1], v)|
      {
        GroupedStep(slots, v, t);
      }
      t := t + 1;
    }
    assert slots[..t] == slots;
  }

  /**
   * The fill pass of incident_elements has stored the elements before corner i of
   * element t: every row has its final length, its front holds the listing so far, and
   * lengths[v] counts the places still free.
   */
  ghost predicate FillState(rows: array<seq<int>>, lengths: array<int>, slots: seq<seq<int>>, t: nat, i: nat)
    reads rows, lengths
    requires t < |slots| && i <= |slots[t]|
  {
    rows.Length == lengths.Length &&
    forall v :: 0 <= v < rows.Length ==>
      |rows[v]| == |Grouped(slots, v)| &&
      |Filled(slots, t, i, v)| <= |rows[v]| &&
      lengths[v] == |rows[v]| - |Filled(slots, t, i, v)| &&
      rows[v][..|Filled(slots, t, i, v)|] == Filled(slots, t, i, v)
  }

  /** `incident_elements_(p, incident_elements_.size(p) - lengths[p]--) = t` for corner i of element t. */
  method PlaceCorner(rows: array<seq<int>>, lengths: array<int>, slots: seq<seq<int>>, t: nat, i: nat)
    requires t < |slots| && i < |slots[t]|
    requires 0 <= slots[t][i] < rows.Length
    requires FillState(rows, lengths, slots, t, i)
    modifies rows, lengths
    ensures FillState(rows, lengths, slots, t, i + 1)
  {
    var p := slots[t][i];
    FilledPrefix(slots, t, i + 1, p);
    ghost var before := Filled(slots, t, i, p);
    assert Filled(slots, t, i + 1, p) == before + [t];
    var pos := |rows[p]| - lengths[p];
    rows[p] := rows[p][pos := t];
    lengths[p] := lengths[p] - 1;
    assert rows[p][..|before| + 1] == before + [t];
  }

  /** The three corners of element t placed in their rows in turn. */
  method FillElement(rows: array<seq<int>>, lengths: array<int>, slots: seq<seq<int>>, t: nat)
    requires t < |slots| && |slots[t]| == 3
    requires forall i :: 0 <= i < 3 ==> 0 <= slots[t][i] < rows.Length
    requires FillState(rows, lengths, slots, t, 0)
    modifies rows, lengths
    ensures FillState(rows, lengths, slots, t, 3)
  {
    var i := 0;
    while i < 3
      invariant 0 <= i <= 3
      invariant FillState(rows, lengths, slots, t, i)
    {
      PlaceCorner(rows, lengths, slots, t, i);
      i := i + 1;
    }
  }

  /** Past the last corner of element t the state is the one before element t + 1, or the finished rows. */
  lemma FillStateNext(rows: array<seq<int>>, lengths: array<int>, slots: seq<seq<int>>, t: nat)
    requires t < |slots| && |slots[t]| == 3
    requires FillState(rows, lengths, slots, t, 3)
    ensures t + 1 < |slots| ==> |slots[t + 1]| >= 0 && FillState(rows, lengths, slots, t + 1, 0)
    ensures t + 1 == |slots| ==> forall v :: 0 <= v < rows.Length ==> rows[v] == Grouped(slots, v)
  {
    forall v | 0 <= v < rows.Length
      ensures t + 1 < |slots| ==> Filled(slots, t, 3, v) == Filled(slots, t + 1, 0, v)
      ensures t + 1 == |slots| ==> rows[v] == Grouped(slots, v)
    {
      FilledEnd(slots, t, v);
      if t + 1 == |slots| {
        assert rows[v][..|rows[v]|] == rows[v];
      }
    }
  }

  /**
   * incident_elements(): count each node's corners, allocate the rows, then store element
   * t at position size(p) - lengths[p]-- of row p for each corner p, which fills every
   * row from the front. Nothing is built when there are no nodes.
   */
  method IncidentElements(elements: seq<Triangle>, nodes: nat) returns (r: seq<seq<int>>)
    requires VerticesIn(elements, 0, nodes)
    ensures |r| == nodes
    ensures forall v :: 0 <= v < nodes ==> r[v] == Incident(elements, v)
  {
    if nodes == 0 {
      return [];
    }
    var slots := CornerSlots(elements);
    var lengths := CountCorners(elements, nodes);
    var rows := new seq<int>[nodes](v requires 0 <= v < nodes reads lengths => Repeat(0, if lengths[v] < 0 then 0 else lengths[v]));
    if |elements| == 0 {
      return rows[..];
    }
    assert slots[..0] == [];
    assert FillState(rows, lengths, slots, 0, 0);
    var t := 0;
    while t < |elements|
      invariant 0 <= t <= |elements|
      invariant t < |elements| ==> FillState(rows, lengths, slots, t, 0)
      invariant t == |elements| ==> forall v :: 0 <= v < nodes ==> rows[v] == Grouped(slots, v)
      modifies rows, lengths
    {
      assert forall i :: 0 <= i < 3 ==> slots[t][i] == Corner(elements[t], i);
      FillElement(rows, lengths, slots, t);
      FillStateNext(rows, lengths, slots, t);
      t := t + 1;
    }
    r := rows[..];
  }

  // ---------------------------------------------------------------------------
  // adjacent_elements

  /** The corners of a triangle as a sequence. */
  function Corners(t: Triangle): seq<int>
  {
    [t.0, t.1, t.2]
  }

  /** Vector::find: the first corner equal to v, or -1. */
  function Find(t: Triangle, v: int): int
  {
    if t.0 == v then 0 else if t.1 == v then 1 else if t.2 == v then 2 else -1
  }

  /** The test of adjacent_elements: the corner before v's first occurrence in t2 is w. */
  predicate Matches(t2: Triangle, v: int, w: int)
  {
    Corner(t2, (Find(t2, v) + 2) % 3) == w
  }

  /** No two corners of t are equal. */
  predicate NonDegenerate(t: Triangle)
  {
    t.0 != t.1 && t.0 != t.2 && t.1 != t.2
  }

  /** In a non-degenerate triangle holding v, the test holds exactly when the directed edge w -> v is one of its edges. */
  lemma MatchesReversedEdge(t2: Triangle, v: int, w: int)
    requires NonDegenerate(t2) && v in Corners(t2)
    ensures Matches(t2, v, w) <==> (w, v) in Directed(t2)
  {
  }

  /** The inner search of adjacent_elements over the incident list `inc` of v. */
  function FirstAdjacent(elements: seq<Triangle>, inc: seq<int>, t: int, v: int, w: int): int
    requires forall k :: 0 <= k < |inc| ==> 0 <= inc[k] < |elements|
  {
    if |inc| == 0 then -1
    else if inc[0] != t && Matches(elements[inc[0]], v, w) then inc[0]
    else FirstAdjacent(elements, inc[1..], t, v, w)
  }

  /** The search finds the first listed t2 != t passing the test, and -1 when none does. */
  lemma {:induction false} FirstAdjacentSpec(elements: seq<Triangle>, inc: seq<int>, t: int, v: int, w: int)
    requires forall k :: 0 <= k < |inc| ==> 0 <= inc[k] < |elements|
    requires forall a, b :: 0 <= a < b < |inc| ==> inc[a] <= inc[b]
    ensures var r := FirstAdjacent(elements, inc, t, v, w);
            (r == -1 <==> forall x :: x in inc && x != t ==> !Matches(elements[x], v, w)) &&
            (r != -1 ==> r in inc && r != t && Matches(elements[r], v, w) &&
                         forall x :: x in inc && x < r && x != t ==> !Matches(elements[x], v, w))
  {
    if |inc| > 0 {
      FirstAdjacentSpec(elements, inc[1..], t, v, w);
      assert forall x :: x in inc <==> x == inc[0] || x in inc[1..];
      if !(inc[0] != t && Matches(elements[inc[0]], v, w)) {
        var r := FirstAdjacent(elements, inc[1..], t, v, w);
        if r != -1 {
          assert forall x :: x in inc[1..] ==> inc[0] <= x;
        }
      }
    }
  }

  /** incident_elements' rows are in range and increasing. */
  lemma IncidentRange(elements: seq<Triangle>, v: int)
    ensures forall k :: 0 <= k < |Incident(elements, v)| ==> 0 <= Incident(elements, v)[k] < |elements|
    ensures forall a, b :: 0 <= a < b < |Incident(elements, v)| ==> Incident(elements, v)[a] <= Incident(elements, v)[b]
  {
    GroupedSorted(CornerSlots(elements), v);
  }

  /** adjacent_elements()[t][i]: the search for the neighbour across the edge tri[i] -> tri[(i+1)%3]. */
  function Adjacent(elements: seq<Triangle>, t: nat, i: int): int
    requires t < |elements|
  {
    var v := Corner(elements[t], i);
    IncidentRange(elements, v);
    FirstAdjacent(elements, Incident(elements, v), t, v, Corner(elements[t], Succ(i)))
  }

  /**
   * adjacent_elements()[t][i] is -1 when no other element holding v = tri[i] passes the
   * test, and otherwise the lowest-numbered one that does; for non-degenerate elements,
   * passing the test means holding the reversed edge tri[(i+1)%3] -> tri[i].
   */
  lemma AdjacentMeaning(elements: seq<Triangle>, t: nat, i: int)
    requires t < |elements|
    ensures var v, w, r := Corner(elements[t], i), Corner(elements[t], Succ(i)), Adjacent(elements, t, i);
            (r == -1 <==> forall t2 :: 0 <= t2 < |elements| && t2 != t && v in Corners(elements[t2]) ==> !Matches(elements[t2], v, w)) &&
            (r != -1 ==> 0 <= r < |elements| && r != t && v in Corners(elements[r]) && Matches(elements[r], v, w) &&
                         forall t2 :: 0 <= t2 < r && t2 != t && v in Corners(elements[t2]) ==> !Matches(elements[t2], v, w))
  {
    var v := Corner(elements[t], i);
    IncidentRange(elements, v);
    IncidentProperties(elements, v);
    FirstAdjacentSpec(elements, Incident(elements, v), t, v, Corner(elements[t], Succ(i)));
  }

  /** The loop over incident[tri[i]], leaving at the first hit (`goto found`). */
  method SearchAdjacent(elements: seq<Triangle>, inc: seq<int>, t: int, v: int, w: int) returns (r: int)
    requires forall k :: 0 <= k < |inc| ==> 0 <= inc[k] < |elements|
    ensures r == FirstAdjacent(elements, inc, t, v, w)
  {
    var k := 0;
    while k < |inc|
      invariant 0 <= k <= |inc|
      invariant FirstAdjacent(elements, inc, t, v, w) == FirstAdjacent(elements, inc[k..], t, v, w)
    {
      var t2 := inc[k];
      if t != t2 {
        var a := Find(elements[t2], v);
        if Corner(elements[t2], (a + 2) % 3) == w {
          return t2;
        }
      }
      assert inc[k..][1..] == inc[k + 1..];
      k := k + 1;
    }
    return -1;
  }

  /**
   * adjacent_elements(): for each element, its neighbours across the edges starting at
   * corners 2, 0 and 1 (the loop `j=0,i=2; j<3; i=j++`), stored by starting corner.
   */
  method AdjacentElements(elements: seq<Triangle>, nodes: nat) returns (r: seq<(int, int, int)>)
    requires VerticesIn(elements, 0, nodes)
    ensures |r| == |elements|
    ensures forall t :: 0 <= t < |r| ==> r[t] == (Adjacent(elements, t, 0), Adjacent(elements, t, 1), Adjacent(elements, t, 2))
  {
    assert |elements| > 0 ==> 0 <= Corner(elements[0], 0) < nodes;
    if nodes == 0 {
      return [];
    }
    var incident := IncidentElements(elements, nodes);
    r := [];
    var t := 0;
    while t < |elements|
      invariant 0 <= t <= |elements|
      invariant |r| == t
      invariant forall k :: 0 <= k < t ==> r[k] == (Adjacent(elements, k, 0), Adjacent(elements, k, 1), Adjacent(elements, k, 2))
    {
      var a2 := AdjacentAt(elements, incident, nodes, t, 2);
      var a0 := AdjacentAt(elements, incident, nodes, t, 0);
      var a1 := AdjacentAt(elements, incident, nodes, t, 1);
      r := r + [(a0, a1, a2)];
      t := t + 1;
    }
  }

  /** One search of adjacent_elements: corner i of triangle t against the elements incident to it. */
  method AdjacentAt(elements: seq<Triangle>, incident: seq<seq<int>>, nodes: nat, t: nat, i: int) returns (a: int)
    requires VerticesIn(elements, 0, nodes) && t < |elements| && 0 <= i < 3
    requires |incident| == nodes && forall v :: 0 <= v < nodes ==> incident[v] == Incident(elements, v)
    ensures a == Adjacent(elements, t, i)
  {
    var v := Corner(elements[t], i);
    IncidentRange(elements, v);
    a := SearchAdjacent(elements, incident[v], t, v, Corner(elements[t], Succ(i)));
  }

  // ---------------------------------------------------------------------------
  // boundary_mesh

  /** The segment with its ends swapped. */
  function Reversed(s: Segment): Segment
  {
    (s.1, s.0)
  }

  /**
   * The value boundary_mesh's hash holds for the directed edge (a, b) after the stream d:
   * 1 per occurrence of (a, b) and 2 per occurrence of (b, a).
   */
  function Code(d: seq<Segment>, s: Segment): nat
  {
    multiset(d)[s] + 2 * multiset(d)[Reversed(s)]
  }

  /** hash.get_default(s), 0 for a missing key. */
  function Get(hash: map<Segment, int>, s: Segment): int
  {
    if s in hash then hash[s] else 0
  }

  /** The kept orientation of one segment_soup edge (i, j), if any. */
  function Kept(d: seq<Segment>, s: Segment): seq<Segment>
  {
    if Code(d, s) == 1 then [s] else if Code(d, Reversed(s)) == 1 then [Reversed(s)] else []
  }

  /** The second loop of boundary_mesh over the segments segs. */
  function KeptAll(d: seq<Segment>, segs: seq<Segment>): seq<Segment>
  {
    if |segs| == 0 then [] else KeptAll(d, segs[..|segs| - 1]) + Kept(d, segs[|segs| - 1])
  }

  /** boundary_mesh(): the edges of segment_soup() that are used once, in the orientation used. */
  function BoundaryMesh(elements: seq<Triangle>): seq<Segment>
  {
    KeptAll(DirectedStream(elements), SegmentSoup(elements))
  }

  /** `hash.get_or_insert(vec(a,b))++; hash.get_or_insert(vec(b,a))+=2;` */
  method CountEdge(hash: map<Segment, int>, ghost d: seq<Segment>, a: int, b: int) returns (hash': map<Segment, int>)
    requires forall s :: Get(hash, s) == Code(d, s)
    ensures forall s :: Get(hash', s) == Code(d + [(a, b)], s)
  {
    hash' := hash[(a, b) := Get(hash, (a, b)) + 1];
    hash' := hash'[(b, a) := Get(hash', (b, a)) + 2];
    forall s
      ensures Get(hash', s) == Code(d + [(a, b)], s)
    {
      assert multiset(d + [(a, b)]) == multiset(d) + multiset{(a, b)};
      assert Get(hash, s) == Code(d, s);
    }
  }

  /** The first loop of boundary_mesh: the codes of every directed edge. */
  method EdgeCodes(elements: seq<Triangle>) returns (hash: map<Segment, int>)
    ensures forall s :: Get(hash, s) == Code(DirectedStream(elements), s)
  {
    hash := map[];
    var t := 0;
    while t < |elements|
      invariant 0 <= t <= |elements|
      invariant forall s :: Get(hash, s) == Code(DirectedStream(elements[..t]), s)
    {
      ghost var d := DirectedStream(elements[..t]);
      EdgeStreamStep(elements, t);
      var e := Directed(elements[t]);
      hash := CountEdge(hash, d, e[0].0, e[0].1);
      hash := CountEdge(hash, d + [e[0]], e[1].0, e[1].1);
      hash := CountEdge(hash, d + [e[0]] + [e[1]], e[2].0, e[2].1);
      assert d + [e[0]] + [e[1]] + [e[2]] == DirectedStream(elements[..t + 1]);
      t := t + 1;
    }
    assert elements[..t] == elements;
  }

  /** One step of the second loop: `if (get(i,j)==1) append (i,j); else if (get(j,i)==1) append (j,i);` */
  method KeepSegment(hash: map<Segment, int>, ghost d: seq<Segment>, s: Segment) returns (kept: seq<Segment>)
    requires forall s :: Get(hash, s) == Code(d, s)
    ensures kept == Kept(d, s)
  {
    var i, j := s.0, s.1;
    if Get(hash, (i, j)) == 1 {
      kept := [(i, j)];
    } else if Get(hash, (j, i)) == 1 {
      kept := [(j, i)];
    } else {
      kept := [];
    }
  }

  /**
   * boundary_mesh(): count directed edges, then walk segment_soup() keeping (i, j) if its
   * code is 1, else (j, i) if that code is 1.
   */
  method ComputeBoundaryMesh(elements: seq<Triangle>) returns (segments: seq<Segment>)
    ensures segments == BoundaryMesh(elements)
  {
    var hash := EdgeCodes(elements);
    var soup := ComputeSegmentSoup(elements);
    ghost var d := DirectedStream(elements);
    segments := [];
    var s := 0;
    while s < |soup|
      invariant 0 <= s <= |soup|
      invariant segments == KeptAll(d, soup[..s])
    {
      var kept := KeepSegment(hash, d, soup[s]);
      KeptAllStep(d, soup, s);
      segments := segments + kept;
      s := s + 1;
    }
    assert soup[..s] == soup;
  }

  lemma KeptAllStep(d: seq<Segment>, segs: seq<Segment>, s: int)
    requires 0 <= s < |segs|
    ensures KeptAll(d, segs[..s + 1]) == KeptAll(d, segs[..s]) + Kept(d, segs[s])
  {
    assert segs[..s + 1][..s] == segs[..s];
  }

  /** The sorted edge stream is the directed stream with each edge sorted. */
  lemma {:induction false} StreamsAligned(elements: seq<Triangle>)
    ensures forall k :: 0 <= k < |EdgeStream(elements)| ==>
              EdgeStream(elements)[k] == SortedPair(DirectedStream(elements)[k].0, DirectedStream(elements)[k].1)
  {
    if |elements| > 0 {
      StreamsAligned(elements[..|elements| - 1]);
    }
  }

  /** A directed edge occurs iff its sorted form is a segment_soup edge in that orientation or the other. */
  lemma DirectedInSoup(elements: seq<Triangle>, a: int, b: int)
    requires (a, b) in DirectedStream(elements)
    ensures SortedPair(a, b) in SegmentSoup(elements)
  {
    StreamsAligned(elements);
    var k :| 0 <= k < |DirectedStream(elements)| && DirectedStream(elements)[k] == (a, b);
    assert EdgeStream(elements)[k] == SortedPair(a, b);
    SegmentSoupProperties(elements);
  }

  /** What the second loop keeps, edge by edge. */
  lemma {:induction false} KeptAllMembers(d: seq<Segment>, segs: seq<Segment>, x: Segment)
    ensures x in KeptAll(d, segs) <==>
              (x in segs && Code(d, x) == 1) || (Reversed(x) in segs && Code(d, Reversed(x)) != 1 && Code(d, x) == 1)
  {
    if |segs| > 0 {
      var p := segs[..|segs| - 1];
      assert segs == p + [segs[|segs| - 1]];
      KeptAllMembers(d, p, x);
      assert Reversed(Reversed(x)) == x;
    }
  }

  /**
   * boundary_mesh keeps the directed edge (a, b) exactly when (a, b) occurs once among
   * the elements' edges and (b, a) does not occur.
   */
  lemma BoundaryMeshMembers(elements: seq<Triangle>, a: int, b: int)
    ensures (a, b) in BoundaryMesh(elements) <==>
              multiset(DirectedStream(elements))[(a, b)] == 1 && multiset(DirectedStream(elements))[(b, a)] == 0
  {
    var d := DirectedStream(elements);
    var soup := SegmentSoup(elements);
    KeptAllMembers(d, soup, (a, b));
    if multiset(d)[(a, b)] == 1 && multiset(d)[(b, a)] == 0 {
      assert (a, b) in d;
      DirectedInSoup(elements, a, b);
      SegmentSoupProperties(elements);
      assert Code(d, (a, b)) == 1;
      if a > b {
        assert Code(d, (b, a)) == 2;
      }
    }
  }

  // ---------------------------------------------------------------------------
  // bending_tuples

  type Quad = (int, int, int, int)

  /** The sorted edges of each element, as keys: (nodes[a], nodes[(a+1)%3]).sorted(). */
  function EdgeSlots(elements: seq<Triangle>): (r: seq<seq<Segment>>)
    ensures |r| == |elements|
    ensures forall t :: 0 <= t < |r| ==> r[t] == Undirected(elements[t])
  {
    seq(|elements|, t requires 0 <= t < |elements| => Undirected(elements[t]))
  }

  /** edge_to_face[sn]: the elements having sn as an edge, once per such edge, in increasing order. */
  function FacesOf(elements: seq<Triangle>, sn: Segment): (r: seq<int>)
    ensures forall k :: 0 <= k < |r| ==> 0 <= r[k] < |elements|
  {
    GroupedSorted(EdgeSlots(elements), sn);
    Grouped(EdgeSlots(elements), sn)
  }

  /** A face around an edge: its corner off the edge and whether it runs against the edge's order. */
  datatype Hinge = Hinge(other: int, flipped: bool)

  /** b: the first corner of tn not on the edge sn (2 when every corner is on it). */
  function OffCorner(tn: Triangle, sn: Segment): int
  {
    if !(tn.0 == sn.0 || tn.0 == sn.1) then 0 else if !(tn.1 == sn.0 || tn.1 == sn.1) then 1 else 2
  }

  /** other[a] = tn[b] and flipped[a] = tn[(b+1)%3] != sn[0]. */
  function HingeOf(tn: Triangle, sn: Segment): Hinge
  {
    var b := OffCorner(tn, sn);
    Hinge(Corner(tn, b), Corner(tn, Succ(b)) != sn.0)
  }

  /** The ends of sn in the order face h runs along them: (sn[flipped], sn[1-flipped]). */
  function Along(sn: Segment, h: Hinge): Segment
  {
    if h.flipped then (sn.1, sn.0) else (sn.0, sn.1)
  }

  /**
   * The debug assertion of bending_tuples: in a non-degenerate face with edge sn, the two
   * corners after the off-edge corner are sn in the order (sn[flipped], sn[1-flipped]),
   * and the off-edge corner is not on the edge.
   */
  lemma HingeOrientation(tn: Triangle, sn: Segment)
    requires NonDegenerate(tn) && sn in Undirected(tn)
    ensures var b, h := OffCorner(tn, sn), HingeOf(tn, sn);
            (Corner(tn, Succ(b)), Corner(tn, Succ(Succ(b)))) == Along(sn, h) &&
            h.other != sn.0 && h.other != sn.1
  {
  }

  /** The tuple for faces a < b around sn: (other[a], sn[flipped[a]], sn[1-flipped[a]], other[b]). */
  function Bend(sn: Segment, ha: Hinge, hb: Hinge): Quad
  {
    (ha.other, Along(sn, ha).0, Along(sn, ha).1, hb.other)
  }

  /** The hinges of the faces tris around sn. */
  function Hinges(elements: seq<Triangle>, sn: Segment, tris: seq<int>): (r: seq<Hinge>)
    requires forall k :: 0 <= k < |tris| ==> 0 <= tris[k] < |elements|
    ensures |r| == |tris|
    ensures forall k :: 0 <= k < |tris| ==> r[k] == HingeOf(elements[tris[k]], sn)
  {
    seq(|tris|, k requires 0 <= k < |tris| => HingeOf(elements[tris[k]], sn))
  }

  /** The tuples pairing face a with faces b, b+1, ... */
  function PairsFrom(sn: Segment, hs: seq<Hinge>, a: nat, b: nat): seq<Quad>
    requires a < |hs|
    decreases |hs| - b
  {
    if b >= |hs| then [] else [Bend(sn, hs[a], hs[b])] + PairsFrom(sn, hs, a, b + 1)
  }

  /** The tuples of every pair of faces a < b, a from a0 on. */
  function AllPairsFrom(sn: Segment, hs: seq<Hinge>, a0: nat): seq<Quad>
    decreases |hs| - a0
  {
    if a0 >= |hs| then [] else PairsFrom(sn, hs, a0, a0 + 1) + AllPairsFrom(sn, hs, a0 + 1)
  }

  /** The tuples of one edge sn of edge_to_face. */
  function EdgeBends(elements: seq<Triangle>, sn: Segment): seq<Quad>
  {
    AllPairsFrom(sn, Hinges(elements, sn, FacesOf(elements, sn)), 0)
  }

  /** bending_tuples() when edge_to_face is iterated in the order `order`. */
  function BendingTuples(elements: seq<Triangle>, order: seq<Segment>): seq<Quad>
  {
    if |order| == 0 then [] else BendingTuples(elements, order[..|order| - 1]) + EdgeBends(elements, order[|order| - 1])
  }

  /** The pairs from face a on number (m-a)(m-a-1)/2 for m faces. */
  lemma {:induction false} PairsCount(sn: Segment, hs: seq<Hinge>, a0: nat)
    requires a0 <= |hs|
    ensures 2 * |AllPairsFrom(sn, hs, a0)| == (|hs| - a0) * (|hs| - a0 - 1)
    decreases |hs| - a0
  {
    if a0 < |hs| {
      PairsFromCount(sn, hs, a0, a0 + 1);
      PairsCount(sn, hs, a0 + 1);
    }
  }

  lemma {:induction false} PairsFromCount(sn: Segment, hs: seq<Hinge>, a: nat, b: nat)
    requires a < |hs| && b <= |hs|
    ensures |PairsFrom(sn, hs, a, b)| == |hs| - b
    decreases |hs| - b
  {
    if b < |hs| {
      PairsFromCount(sn, hs, a, b + 1);
    }
  }

  /** Every tuple comes from a pair of faces a < b. */
  lemma {:induction false} PairsMembers(sn: Segment, hs: seq<Hinge>, a0: nat, q: Quad)
    requires q in AllPairsFrom(sn, hs, a0)
    ensures exists a, b :: a0 <= a < b < |hs| && q == Bend(sn, hs[a], hs[b])
    decreases |hs| - a0
  {
    if q in PairsFrom(sn, hs, a0, a0 + 1) {
      PairsFromMembers(sn, hs, a0, a0 + 1, q);
    } else {
      PairsMembers(sn, hs, a0 + 1, q);
    }
  }

  lemma {:induction false} PairsFromMembers(sn: Segment, hs: seq<Hinge>, a: nat, b0: nat, q: Quad)
    requires a < |hs|
    requires q in PairsFrom(sn, hs, a, b0)
    ensures exists b :: b0 <= b < |hs| && q == Bend(sn, hs[a], hs[b])
    decreases |hs| - b0
  {
    if q != Bend(sn, hs[a], hs[b0]) {
      PairsFromMembers(sn, hs, a, b0 + 1, q);
    }
  }

  /**
   * For an edge shared by m faces, bending_tuples emits m(m-1)/2 tuples, one for each
   * pair of faces a < b in element order: (other[a], the edge as face a runs along it,
   * other[b]).
   */
  lemma EdgeBendsMeaning(elements: seq<Triangle>, sn: Segment)
    ensures var m := |FacesOf(elements, sn)|; 2 * |EdgeBends(elements, sn)| == m * (m - 1)
    ensures forall q :: q in EdgeBends(elements, sn) ==>
              exists a, b :: 0 <= a < b < |FacesOf(elements, sn)| &&
                q == Bend(sn, HingeOf(elements[FacesOf(elements, sn)[a]], sn), HingeOf(elements[FacesOf(elements, sn)[b]], sn))
  {
    var hs := Hinges(elements, sn, FacesOf(elements, sn));
    PairsCount(sn, hs, 0);
    forall q | q in EdgeBends(elements, sn)
      ensures exists a, b :: 0 <= a < b < |FacesOf(elements, sn)| &&
                q == Bend(sn, HingeOf(elements[FacesOf(elements, sn)[a]], sn), HingeOf(elements[FacesOf(elements, sn)[b]], sn))
    {
      PairsMembers(sn, hs, 0, q);
    }
  }

  /** A sorted edge is a key of edge_to_face exactly when some element has it. */
  lemma {:induction false} EdgeStreamMembers(elements: seq<Triangle>, sn: Segment)
    ensures sn in EdgeStream(elements) <==> FacesOf(elements, sn) != []
  {
    GroupedMembers(EdgeSlots(elements), sn, FirstFace(elements, sn));
    if |elements| > 0 {
      var p := elements[..|elements| - 1];
      EdgeStreamMembers(p, sn);
      assert EdgeSlots(elements)[..|elements| - 1] == EdgeSlots(p);
      var n := |elements| - 1;
      HitsBound(Undirected(elements[n]), sn, 3);
      if sn in Undirected(elements[n]) {
        var c :| 0 <= c < 3 && Undirected(elements[n])[c] == sn;
      }
    }
  }

  /** Some index of an element with edge sn, when there is one. */
  function FirstFace(elements: seq<Triangle>, sn: Segment): int
  {
    if |FacesOf(elements, sn)| > 0 then FacesOf(elements, sn)[0] else -1
  }

  /** edge_to_face.get(k), the empty list for a missing key. */
  function Faces(m: map<Segment, seq<int>>, k: Segment): seq<int>
  {
    if k in m then m[k] else []
  }

  /** The state of edge_to_face after edge a of element t: every key's list so far, and keys only for non-empty lists. */
  ghost predicate EdgeToFaceState(m: map<Segment, seq<int>>, slots: seq<seq<Segment>>, t: nat, a: nat)
    requires t < |slots| && a <= |slots[t]|
  {
    forall k :: Faces(m, k) == Grouped(slots[..t], k) + Repeat(t, Hits(slots[t], k, a)) && (k in m <==> Faces(m, k) != [])
  }

  /** `edge_to_face.get_or_insert(vec(nodes[a],nodes[(a+1)%3]).sorted()).append(t)` */
  method AppendFace(m: map<Segment, seq<int>>, slots: seq<seq<Segment>>, t: nat, a: nat) returns (m': map<Segment, seq<int>>)
    requires t < |slots| && a < |slots[t]|
    requires EdgeToFaceState(m, slots, t, a)
    ensures EdgeToFaceState(m', slots, t, a + 1)
  {
    var key := slots[t][a];
    m' := m[key := Faces(m, key) + [t]];
    forall k
      ensures Faces(m', k) == Grouped(slots[..t], k) + Repeat(t, Hits(slots[t], k, a + 1))
    {
      assert Repeat(t, Hits(slots[t], k, a + 1)) == Repeat(t, Hits(slots[t], k, a)) + (if k == key then [t] else []);
    }
  }

  /** The first loop of bending_tuples: each sorted edge mapped to the faces having it. */
  method BuildEdgeToFace(elements: seq<Triangle>) returns (m: map<Segment, seq<int>>)
    ensures forall k :: k in m <==> FacesOf(elements, k) != []
    ensures forall k :: k in m ==> m[k] == FacesOf(elements, k)
  {
    var slots := EdgeSlots(elements);
    m := map[];
    if |elements| == 0 {
      return;
    }
    assert slots[..0] == [];
    var t := 0;
    while t < |elements|
      invariant 0 <= t <= |elements|
      invariant t < |elements| ==> EdgeToFaceState(m, slots, t, 0)
      invariant t == |elements| ==> forall k :: Faces(m, k) == Grouped(slots, k) && (k in m <==> Faces(m, k) != [])
    {
      var a := 0;
      while a < 3
        invariant 0 <= a <= 3
        invariant EdgeToFaceState(m, slots, t, a)
      {
        m := AppendFace(m, slots, t, a);
        a := a + 1;
      }
      forall k
        ensures Faces(m, k) == Grouped(slots[..t + 1], k)
      {
        GroupedStep(slots, k, t);
      }
      if t + 1 == |elements| {
        assert slots[..t + 1] == slots;
      }
      t := t + 1;
    }
  }

  /** The loop computing other[] and flipped[] for one edge. */
  method ComputeHinges(elements: seq<Triangle>, sn: Segment, tris: seq<int>) returns (hs: seq<Hinge>)
    requires forall k :: 0 <= k < |tris| ==> 0 <= tris[k] < |elements|
    ensures hs == Hinges(elements, sn, tris)
  {
    hs := [];
    var a := 0;
    while a < |tris|
      invariant 0 <= a <= |tris|
      invariant hs == Hinges(elements, sn, tris[..a])
    {
      var tn := elements[tris[a]];
      var b := if !(tn.0 == sn.0 || tn.0 == sn.1) then 0 else if !(tn.1 == sn.0 || tn.1 == sn.1) then 1 else 2;
      hs := hs + [Hinge(Corner(tn, b), Corner(tn, (b + 1) % 3) != sn.0)];
      a := a + 1;
    }
    assert tris[..a] == tris;
  }

  /** The double loop `for a; for b=a+1` appending one tuple per pair of faces. */
  method PairTuples(sn: Segment, hs: seq<Hinge>) returns (r: seq<Quad>)
    ensures r == AllPairsFrom(sn, hs, 0)
  {
    r := [];
    var a := 0;
    while a < |hs|
      invariant 0 <= a <= |hs|
      invariant r + AllPairsFrom(sn, hs, a) == AllPairsFrom(sn, hs, 0)
      decreases |hs| - a
    {
      var row := PairRow(sn, hs, a);
      assert r + AllPairsFrom(sn, hs, a) == (r + row) + AllPairsFrom(sn, hs, a + 1);
      r := r + row;
      a := a + 1;
    }
  }

  /** The inner loop `for b = a+1`: the tuples pairing face a with each later face. */
  method PairRow(sn: Segment, hs: seq<Hinge>, a: nat) returns (row: seq<Quad>)
    requires a < |hs|
    ensures row == PairsFrom(sn, hs, a, a + 1)
  {
    row := [];
    var b := a + 1;
    while b < |hs|
      invariant a + 1 <= b <= |hs|
      invariant row + PairsFrom(sn, hs, a, b) == PairsFrom(sn, hs, a, a + 1)
      decreases |hs| - b
    {
      var t := Bend(sn, hs[a], hs[b]);
      assert PairsFrom(sn, hs, a, b) == [t] + PairsFrom(sn, hs, a, b + 1);
      row := row + [t];
      b := b + 1;
    }
  }

  /**
   * bending_tuples(): group the faces by edge, then for each edge of edge_to_face, taken
   * in the table's iteration order `order` (any order listing each key once), emit the
   * tuples of every pair of its faces.
   */
  method ComputeBendingTuples(elements: seq<Triangle>, order: seq<Segment>) returns (r: seq<Quad>)
    requires Distinct(order)
    requires forall k :: k in order <==> k in EdgeStream(elements)
    ensures r == BendingTuples(elements, order)
  {
    var edgeToFace := BuildEdgeToFace(elements);
    r := [];
    var k := 0;
    while k < |order|
      invariant 0 <= k <= |order|
      invariant r == BendingTuples(elements, order[..k])
    {
      var sn := order[k];
      EdgeStreamMembers(elements, sn);
      var tris := edgeToFace[sn];
      var hs := ComputeHinges(elements, sn, tris);
      var tuples := PairTuples(sn, hs);
      assert order[..k + 1][..k] == order[..k];
      r := r + tuples;
      k := k + 1;
    }
    assert order[..k] == order;
  }

  // ---------------------------------------------------------------------------
  // nodes_touched

  /** Every vertex of the soup, three per element, in element order. */
  function VertexStream(elements: seq<Triangle>): (r: seq<int>)
    ensures |r| == 3 * |elements|
  {
    if |elements| == 0 then [] else VertexStream(elements[..|elements| - 1]) + Corners(elements[|elements| - 1])
  }

  lemma {:induction false} VertexStreamMembers(elements: seq<Triangle>, v: int)
    ensures v in VertexStream(elements) <==> Uses(elements, v)
  {
    if |elements| > 0 {
      var n := |elements| - 1;
      var p := elements[..n];
      VertexStreamMembers(p, v);
      assert VertexStream(elements) == VertexStream(p) + Corners(elements[n]);
      if v in Corners(elements[n]) {
        assert Corner(elements[n], Find(elements[n], v)) == v;
      }
      if Uses(elements, v) {
        var t, i :| 0 <= t < |elements| && 0 <= i < 3 && Corner(elements[t], i) == v;
        if t < n {
          assert Corner(p[t], i) == v;
        }
      }
    }
  }

  predicate Ascending(s: seq<int>)
  {
    forall i, j :: 0 <= i < j < |s| ==> s[i] <= s[j]
  }

  /** x put into place in the ascending s. */
  function Insert(s: seq<int>, x: int): seq<int>
  {
    if |s| == 0 then [x]
    else if x <= s[0] then [x] + s
    else [s[0]] + Insert(s[1..], x)
  }

  lemma {:induction false} InsertMembers(s: seq<int>, x: int)
    ensures forall y :: y in Insert(s, x) <==> y in s || y == x
  {
    if |s| > 0 && x > s[0] {
      InsertMembers(s[1..], x);
      assert s == [s[0]] + s[1..];
    }
  }

  lemma {:induction false} InsertCount(s: seq<int>, x: int)
    ensures multiset(Insert(s, x)) == multiset(s) + multiset{x}
  {
    if |s| > 0 && x > s[0] {
      InsertCount(s[1..], x);
      assert s == [s[0]] + s[1..];
    }
  }

  lemma {:induction false} InsertAscending(s: seq<int>, x: int)
    requires Ascending(s)
    ensures Ascending(Insert(s, x))
  {
    if |s| > 0 && x > s[0] {
      InsertAscending(s[1..], x);
      InsertMembers(s[1..], x);
      var r := Insert(s[1..], x);
      assert forall k :: 0 <= k < |r| ==> r[k] in r;
    }
  }

  /** Insertion keeps the sequence ascending and adds exactly x. */
  lemma InsertSpec(s: seq<int>, x: int)
    requires Ascending(s)
    ensures Ascending(Insert(s, x))
    ensures multiset(Insert(s, x)) == multiset(s) + multiset{x}
  {
    InsertAscending(s, x);
    InsertCount(s, x);
  }

  /** The sort of geode/array/sort.h, as an insertion sort: ascending, the same values. */
  method Sort(s: seq<int>) returns (r: seq<int>)
    ensures Ascending(r)
    ensures multiset(r) == multiset(s)
  {
    r := [];
    var i := 0;
    while i < |s|
      invariant 0 <= i <= |s|
      invariant Ascending(r)
      invariant multiset(r) == multiset(s[..i])
    {
      assert s[..i + 1] == s[..i] + [s[i]];
      InsertSpec(r, s[i]);
      r := Insert(r, s[i]);
      i := i + 1;
    }
    assert s[..i] == s;
  }

  /**
   * nodes_touched(): collect each vertex the first time the hash set takes it, then sort.
   * The result lists every used vertex once, in increasing order.
   */
  method NodesTouched(elements: seq<Triangle>) returns (r: seq<int>)
    ensures forall i, j :: 0 <= i < j < |r| ==> r[i] < r[j]
    ensures forall v :: v in r <==> Uses(elements, v)
  {
    var touched := CollectTouched(elements);
    DedupMembers(VertexStream(elements));
    DedupDistinct(VertexStream(elements));
    r := Sort(touched);
    forall v
      ensures v in r <==> Uses(elements, v)
    {
      VertexStreamMembers(elements, v);
      assert v in r <==> v in multiset(r);
      assert v in touched <==> v in multiset(touched);
    }
    DistinctSorted(touched, r);
  }

  /** The loop of nodes_touched() over the elements: each vertex kept the first time the hash set takes it. */
  method CollectTouched(elements: seq<Triangle>) returns (touched: seq<int>)
    ensures touched == Dedup(VertexStream(elements))
  {
    var hash: set<int> := {};
    touched := [];
    var t := 0;
    while t < |elements|
      invariant 0 <= t <= |elements|
      invariant touched == Dedup(VertexStream(elements[..t]))
      invariant forall v :: v in hash <==> v in touched
    {
      var c := Corners(elements[t]);
      assert VertexStream(elements[..t + 1]) == VertexStream(elements[..t]) + c by {
        assert elements[..t + 1][..t] == elements[..t];
      }
      hash, touched := TouchCorners(hash, touched, VertexStream(elements[..t]), c);
      t := t + 1;
    }
    assert elements[..t] == elements;
  }

  /** The three corners of one element offered to the hash set in turn. */
  method TouchCorners(hash: set<int>, touched: seq<int>, ghost d: seq<int>, c: seq<int>)
    returns (hash': set<int>, touched': seq<int>)
    requires touched == Dedup(d)
    requires forall v :: v in hash <==> v in touched
    ensures touched' == Dedup(d + c)
    ensures forall v :: v in hash' <==> v in touched'
  {
    hash', touched' := hash, touched;
    assert d + c[..0] == d;
    var i := 0;
    while i < |c|
      invariant 0 <= i <= |c|
      invariant forall v :: v in hash' <==> v in touched'
      invariant touched' == Dedup(d + c[..i])
    {
      DedupStep(d + c[..i], c[i]);
      assert d + c[..i + 1] == (d + c[..i]) + [c[i]];
      if c[i] !in hash' {
        hash' := hash' + {c[i]};
        touched' := touched' + [c[i]];
      }
      i := i + 1;
    }
    assert c[..i] == c;
  }

  /** Sorting distinct values gives a strictly increasing sequence. */
  lemma DistinctSorted(s: seq<int>, r: seq<int>)
    requires Distinct(s) && Ascending(r) && multiset(r) == multiset(s)
    ensures forall i, j :: 0 <= i < j < |r| ==> r[i] < r[j]
  {
    DistinctCounts(s);
    Strict(r);
  }

  /** An ascending sequence holding each value at most once is strictly increasing. */
  lemma {:induction false} Strict(r: seq<int>)
    requires Ascending(r)
    requires forall x :: multiset(r)[x] <= 1
    ensures forall i, j :: 0 <= i < j < |r| ==> r[i] < r[j]
  {
    if |r| > 0 {
      var rest := r[1..];
      assert r == [r[0]] + rest;
      forall x
        ensures multiset(rest)[x] <= 1
      {
        assert multiset(r)[x] == multiset{r[0]}[x] + multiset(rest)[x];
      }
      Strict(rest);
      assert multiset(rest)[r[0]] == 0 by {
        assert multiset(r)[r[0]] == 1 + multiset(rest)[r[0]];
      }
      assert r[0] !in rest;
      forall j | 0 < j < |r|
        ensures r[0] < r[j]
      {
        assert r[j] == rest[j - 1];
      }
    }
  }

  /** In a sequence without repeats every value occurs at most once. */
  lemma {:induction false} DistinctCounts(s: seq<int>)
    requires Distinct(s)
    ensures forall x :: multiset(s)[x] <= 1
  {
    if |s| > 0 {
      var p := s[..|s| - 1];
      assert s == p + [s[|s| - 1]];
      DistinctCounts(p);
      assert s[|s| - 1] !in p;
    }
  }

  // ---------------------------------------------------------------------------
  // sorted_neighbors

  /** next[(i,j)] = k for each triangle (i,j,k) and its rotations, the later element winning. */
  function NextMap(elements: seq<Triangle>): map<Segment, int>
  {
    if |elements| == 0 then map[]
    else
      var tri := elements[|elements| - 1];
      NextMap(elements[..|elements| - 1])[(tri.0, tri.1) := tri.2][(tri.1, tri.2) := tri.0][(tri.2, tri.0) := tri.1]
  }

  /** prev[(i,k)] = j for each triangle (i,j,k) and its rotations, the later element winning. */
  function PrevMap(elements: seq<Triangle>): map<Segment, int>
  {
    if |elements| == 0 then map[]
    else
      var tri := elements[|elements| - 1];
      PrevMap(elements[..|elements| - 1])[(tri.0, tri.2) := tri.1][(tri.1, tri.0) := tri.2][(tri.2, tri.1) := tri.0]
  }

  /** (i, j, k) is an element of the soup or one of its rotations. */
  ghost predicate Rotation(elements: seq<Triangle>, i: int, j: int, k: int)
  {
    exists t, c :: 0 <= t < |elements| && 0 <= c < 3 &&
      Corner(elements[t], c) == i && Corner(elements[t], Succ(c)) == j && Corner(elements[t], Succ(Succ(c))) == k
  }

  lemma RotationPrefix(elements: seq<Triangle>, n: nat, i: int, j: int, k: int)
    requires n <= |elements|
    requires Rotation(elements[..n], i, j, k)
    ensures Rotation(elements, i, j, k)
  {
    var t, c :| 0 <= t < n && 0 <= c < 3 &&
      Corner(elements[..n][t], c) == i && Corner(elements[..n][t], Succ(c)) == j && Corner(elements[..n][t], Succ(Succ(c))) == k;
    assert elements[..n][t] == elements[t];
  }

  lemma RotationLast(elements: seq<Triangle>, c: int)
    requires |elements| > 0 && 0 <= c < 3
    ensures var tri := elements[|elements| - 1];
            Rotation(elements, Corner(tri, c), Corner(tri, Succ(c)), Corner(tri, Succ(Succ(c))))
  {
    var t := |elements| - 1;
    assert 0 <= t < |elements| && 0 <= c < 3;
  }

  /** Every entry of next and prev comes from an element: next[(i,j)] = k and prev[(i,k)] = j only for a triangle (i,j,k). */
  lemma NextPrevSound(elements: seq<Triangle>)
    ensures forall s :: s in NextMap(elements) ==> Rotation(elements, s.0, s.1, NextMap(elements)[s])
    ensures forall s :: s in PrevMap(elements) ==> Rotation(elements, s.0, PrevMap(elements)[s], s.1)
  {
    NextSound(elements);
    PrevSound(elements);
  }

  lemma {:induction false} NextSound(elements: seq<Triangle>)
    ensures forall s :: s in NextMap(elements) ==> Rotation(elements, s.0, s.1, NextMap(elements)[s])
  {
    if |elements| > 0 {
      NextSound(elements[..|elements| - 1]);
      forall s | s in NextMap(elements)
        ensures Rotation(elements, s.0, s.1, NextMap(elements)[s])
      {
        NextSoundStep(elements, s);
      }
    }
  }

  lemma NextSoundStep(elements: seq<Triangle>, s: Segment)
    requires |elements| > 0
    requires var p := elements[..|elements| - 1];
             forall s :: s in NextMap(p) ==> Rotation(p, s.0, s.1, NextMap(p)[s])
    requires s in NextMap(elements)
    ensures Rotation(elements, s.0, s.1, NextMap(elements)[s])
  {
    var n := |elements| - 1;
    var tri := elements[n];
    if s == (tri.2, tri.0) {
      RotationLast(elements, 2);
    } else if s == (tri.1, tri.2) {
      RotationLast(elements, 1);
    } else if s == (tri.0, tri.1) {
      RotationLast(elements, 0);
    } else {
      RotationPrefix(elements, n, s.0, s.1, NextMap(elements)[s]);
    }
  }

  lemma {:induction false} PrevSound(elements: seq<Triangle>)
    ensures forall s :: s in PrevMap(elements) ==> Rotation(elements, s.0, PrevMap(elements)[s], s.1)
  {
    if |elements| > 0 {
      PrevSound(elements[..|elements| - 1]);
      forall s | s in PrevMap(elements)
        ensures Rotation(elements, s.0, PrevMap(elements)[s], s.1)
      {
        PrevSoundStep(elements, s);
      }
    }
  }

  lemma PrevSoundStep(elements: seq<Triangle>, s: Segment)
    requires |elements| > 0
    requires var p := elements[..|elements| - 1];
             forall s :: s in PrevMap(p) ==> Rotation(p, s.0, PrevMap(p)[s], s.1)
    requires s in PrevMap(elements)
    ensures Rotation(elements, s.0, PrevMap(elements)[s], s.1)
  {
    var n := |elements| - 1;
    var tri := elements[n];
    if s == (tri.2, tri.1) {
      RotationLast(elements, 2);
    } else if s == (tri.1, tri.0) {
      RotationLast(elements, 1);
    } else if s == (tri.0, tri.2) {
      RotationLast(elements, 0);
    } else {
      RotationPrefix(elements, n, s.0, PrevMap(elements)[s], s.1);
    }
  }

  /** The keys of next are exactly the directed edges of the soup. */
  lemma {:induction false} NextKeys(elements: seq<Triangle>, s: Segment)
    ensures s in NextMap(elements) <==> s in DirectedStream(elements)
  {
    if |elements| > 0 {
      NextKeys(elements[..|elements| - 1], s);
    }
  }

  /** The first loop of sorted_neighbors, filling next and prev. */
  method BuildNextPrev(elements: seq<Triangle>) returns (next: map<Segment, int>, prev: map<Segment, int>)
    ensures next == NextMap(elements) && prev == PrevMap(elements)
  {
    next, prev := map[], map[];
    var t := 0;
    while t < |elements|
      invariant 0 <= t <= |elements|
      invariant next == NextMap(elements[..t]) && prev == PrevMap(elements[..t])
    {
      var tri := elements[t];
      assert elements[..t + 1][..t] == elements[..t];
      next := next[(tri.0, tri.1) := tri.2];
      next := next[(tri.1, tri.2) := tri.0];
      next := next[(tri.2, tri.0) := tri.1];
      prev := prev[(tri.0, tri.2) := tri.1];
      prev := prev[(tri.1, tri.0) := tri.2];
      prev := prev[(tri.2, tri.1) := tri.0];
      t := t + 1;
    }
    assert elements[..t] == elements;
  }

  /** The first walk: follow prev from j at most `steps` times, stopping where there is no predecessor. */
  function WalkBack(prev: map<Segment, int>, i: int, j: int, steps: nat): int
    decreases steps
  {
    if steps == 0 || (i, j) !in prev then j else WalkBack(prev, i, prev[(i, j)], steps - 1)
  }

  /** The second walk: `steps` more calls next.get((i,j)) appended to acc; None where a key is missing. */
  function WalkForward(next: map<Segment, int>, i: int, j: int, steps: nat, acc: seq<int>): Option<seq<int>>
    decreases steps
  {
    if steps == 0 then Some(acc)
    else if (i, j) !in next then None
    else WalkForward(next, i, next[(i, j)], steps - 1, acc + [next[(i, j)]])
  }

  /** The sorted row of node i from its unsorted neighbours nb; None where the walk fails. */
  function SortedRow(next: map<Segment, int>, prev: map<Segment, int>, i: int, nb: seq<int>): Option<seq<int>>
  {
    if |nb| == 0 then Some([])
    else
      var j := WalkBack(prev, i, nb[0], |nb| - 1);
      WalkForward(next, i, j, |nb| - 1, [j])
  }

  datatype Option<T> = None | Some(value: T)

  /** The rows of sorted_neighbors() for the nodes 0..|rows|-1; RuntimeError when some walk fails. */
  function SortedRows(next: map<Segment, int>, prev: map<Segment, int>, neighbors: seq<seq<int>>): Result<seq<seq<int>>>
  {
    if |neighbors| == 0 then Ok([])
    else
      var i := |neighbors| - 1;
      match SortedRows(next, prev, neighbors[..i])
      case Err(e) => Err(e)
      case Ok(rows) =>
        match SortedRow(next, prev, i, neighbors[i])
        case None => Err(RuntimeError)
        case Some(row) => Ok(rows + [row])
  }

  /** sorted_neighbors(): nothing for an empty soup, else the rows walked around each node. */
  function SortedNeighbors(elements: seq<Triangle>, neighbors: seq<seq<int>>): Result<seq<seq<int>>>
  {
    if |elements| == 0 then Ok([]) else SortedRows(NextMap(elements), PrevMap(elements), neighbors)
  }

  /** A successful forward walk links each entry to the next through `next`. */
  lemma {:induction false} WalkForwardLinks(next: map<Segment, int>, i: int, j: int, steps: nat, acc: seq<int>)
    requires |acc| > 0 && acc[|acc| - 1] == j
    requires forall a :: 0 <= a < |acc| - 1 ==> (i, acc[a]) in next && next[(i, acc[a])] == acc[a + 1]
    requires WalkForward(next, i, j, steps, acc).Some?
    ensures var row := WalkForward(next, i, j, steps, acc).value;
            |row| == |acc| + steps &&
            row[..|acc|] == acc &&
            forall a :: 0 <= a < |row| - 1 ==> (i, row[a]) in next && next[(i, row[a])] == row[a + 1]
    decreases steps
  {
    if steps > 0 {
      var acc' := acc + [next[(i, j)]];
      WalkForwardLinks(next, i, next[(i, j)], steps - 1, acc');
      var row := WalkForward(next, i, j, steps, acc).value;
      assert row[..|acc'|][..|acc|] == acc;
    }
  }

  /** Row by row: the rows are the sorted rows of each node, and the whole fails iff some row does. */
  lemma {:induction false} SortedRowsMeaning(next: map<Segment, int>, prev: map<Segment, int>, neighbors: seq<seq<int>>)
    ensures SortedRows(next, prev, neighbors).Err? <==> exists i :: 0 <= i < |neighbors| && SortedRow(next, prev, i, neighbors[i]).None?
    ensures SortedRows(next, prev, neighbors).Err? ==> SortedRows(next, prev, neighbors).error == RuntimeError
    ensures SortedRows(next, prev, neighbors).Ok? ==>
              var rows := SortedRows(next, prev, neighbors).value;
              |rows| == |neighbors| && forall i :: 0 <= i < |rows| ==> Some(rows[i]) == SortedRow(next, prev, i, neighbors[i])
  {
    if |neighbors| > 0 {
      var i := |neighbors| - 1;
      SortedRowsMeaning(next, prev, neighbors[..i]);
      assert forall k :: 0 <= k < i ==> neighbors[..i][k] == neighbors[k];
    }
  }

  /** A sorted row has one entry per neighbour, and consecutive entries j, k come from an element (i, j, k). */
  lemma SortedRowLinks(elements: seq<Triangle>, i: int, nb: seq<int>, row: seq<int>)
    requires Some(row) == SortedRow(NextMap(elements), PrevMap(elements), i, nb)
    ensures |row| == |nb|
    ensures forall a :: 0 <= a < |row| - 1 ==> Rotation(elements, i, row[a], row[a + 1])
  {
    var next, prev := NextMap(elements), PrevMap(elements);
    if |nb| > 0 {
      var j := WalkBack(prev, i, nb[0], |nb| - 1);
      WalkForwardLinks(next, i, j, |nb| - 1, [j]);
      NextPrevSound(elements);
    }
  }

  /**
   * Each row of sorted_neighbors() has as many entries as the node has neighbours, and
   * consecutive entries j, k of row i always come from an element (i, j, k) of the soup
   * in its orientation: the row walks once around the node's fan.
   */
  lemma SortedNeighborsMeaning(elements: seq<Triangle>, neighbors: seq<seq<int>>, i: int)
    requires |elements| > 0
    requires SortedNeighbors(elements, neighbors).Ok?
    requires 0 <= i < |neighbors|
    ensures var rows := SortedNeighbors(elements, neighbors).value;
            |rows| == |neighbors| &&
            |rows[i]| == |neighbors[i]| &&
            forall a :: 0 <= a < |rows[i]| - 1 ==> Rotation(elements, i, rows[i][a], rows[i][a + 1])
  {
    SortedRowsMeaning(NextMap(elements), PrevMap(elements), neighbors);
    var rows := SortedNeighbors(elements, neighbors).value;
    SortedRowLinks(elements, i, neighbors[i], rows[i]);
  }

  /**
   * sorted_neighbors(): for each node with neighbours, walk back through prev to a node
   * with no predecessor (at most size-1 steps), then forward through next; a missing
   * key (a KeyError) is reported as RuntimeError.
   */
  method ComputeSortedNeighbors(elements: seq<Triangle>, neighbors: seq<seq<int>>) returns (r: Result<seq<seq<int>>>)
    ensures r == SortedNeighbors(elements, neighbors)
  {
    if |elements| == 0 {
      return Ok([]);
    }
    var next, prev := BuildNextPrev(elements);
    var rows: seq<seq<int>> := [];
    var i := 0;
    while i < |neighbors|
      invariant 0 <= i <= |neighbors|
      invariant SortedRows(next, prev, neighbors[..i]) == Ok(rows)
    {
      var row := SortRow(next, prev, i, neighbors[i]);
      if row.None? {
        SortedRowsMeaning(next, prev, neighbors);
        return Err(RuntimeError);
      }
      SortedRowsStep(next, prev, neighbors, i);
      rows := rows + [row.value];
      i := i + 1;
    }
    assert neighbors[..i] == neighbors;
    r := Ok(rows);
  }

  /** One row of sorted_neighbors(): walk back from the first neighbour, then forward collecting the row. */
  method SortRow(next: map<Segment, int>, prev: map<Segment, int>, i: int, nb: seq<int>) returns (row: Option<seq<int>>)
    ensures row == SortedRow(next, prev, i, nb)
  {
    if |nb| == 0 {
      return Some([]);
    }
    var j := nb[0];
    var a := 1;
    while a < |nb|
      invariant 1 <= a <= |nb|
      invariant WalkBack(prev, i, nb[0], |nb| - 1) == WalkBack(prev, i, j, |nb| - a)
    {
      if (i, j) in prev {
        j := prev[(i, j)];
      } else {
        break;
      }
      a := a + 1;
    }
    var acc := [j];
    a := 1;
    while a < |nb|
      invariant 1 <= a <= |nb|
      invariant SortedRow(next, prev, i, nb) == WalkForward(next, i, j, |nb| - a, acc)
    {
      if (i, j) !in next {
        return None;
      }
      j := next[(i, j)];
      acc := acc + [j];
      a := a + 1;
    }
    row := Some(acc);
  }

  /** Appending the row of node i to the rows of the nodes before it. */
  lemma SortedRowsStep(next: map<Segment, int>, prev: map<Segment, int>, neighbors: seq<seq<int>>, i: int)
    requires 0 <= i < |neighbors|
    requires SortedRows(next, prev, neighbors[..i]).Ok? && SortedRow(next, prev, i, neighbors[i]).Some?
    ensures SortedRows(next, prev, neighbors[..i + 1])
            == Ok(SortedRows(next, prev, neighbors[..i]).value + [SortedRow(next, prev, i, neighbors[i]).value])
  {
    assert neighbors[..i + 1][..i] == neighbors[..i];
  }

  // ---------------------------------------------------------------------------
  // nonmanifold_nodes

  /** The oriented segment of the one ring of i contributed by a triangle holding i. */
  function RingSegment(tri: Triangle, i: int): Segment
  {
    if tri.0 == i then (tri.1, tri.2) else if tri.1 == i then (tri.2, tri.0) else (tri.0, tri.1)
  }

  /** The elements incident to v, in incident_elements order. */
  function Fan(elements: seq<Triangle>, v: int): (r: seq<Triangle>)
    ensures |r| == |Incident(elements, v)|
    ensures forall k :: 0 <= k < |r| ==> 0 <= Incident(elements, v)[k] < |elements| && r[k] == elements[Incident(elements, v)[k]]
  {
    IncidentRange(elements, v);
    var inc := Incident(elements, v);
    seq(|inc|, k requires 0 <= k < |inc| => elements[inc[k]])
  }

  /** The one ring of i: one oriented segment per incident triangle. */
  function Ring(tris: seq<Triangle>, i: int): (r: seq<Segment>)
    ensures |r| == |tris|
    ensures forall t :: 0 <= t < |tris| ==> r[t] == RingSegment(tris[t], i)
  {
    seq(|tris|, t requires 0 <= t < |tris| => RingSegment(tris[t], i))
  }

  /** prev and next of a node of the ring, -1 where there is none. */
  datatype Link = Link(prev: int, next: int)

  const NoLink := Link(-1, -1)

  /** neighbors.get_or_insert(v, none), read only. */
  function LinkOf(links: map<int, Link>, v: int): Link
  {
    if v in links then links[v] else NoLink
  }

  /** Record a ring segment a -> b; None where a already has a next or b already has a prev. */
  function AddSegment(links: map<int, Link>, s: Segment): Option<map<int, Link>>
  {
    var nx := LinkOf(links, s.0);
    if nx.next >= 0 then None
    else
      var links1 := links[s.0 := Link(nx.prev, s.1)];
      var ny := LinkOf(links1, s.1);
      if ny.prev >= 0 then None else Some(links1[s.1 := Link(s.0, ny.next)])
  }

  /** The topology loop: the links of every ring segment in order, None at the first clash. */
  function Links(ring: seq<Segment>): Option<map<int, Link>>
  {
    if |ring| == 0 then Some(map[])
    else
      match Links(ring[..|ring| - 1])
      case None => None
      case Some(links) => AddSegment(links, ring[|ring| - 1])
  }

  /** The closed-loop check: Ok(true) where walking next from node meets start within `steps` steps. */
  function CloseWalk(links: map<int, Link>, start: int, node: int, steps: nat): Result<bool>
    decreases steps
  {
    if steps == 0 then Ok(false)
    else if node !in links then Err(KeyError)
    else if links[node].next == start then Ok(true)
    else CloseWalk(links, start, links[node].next, steps - 1)
  }

  /** The backward count from middle: Ok(None) where the walk comes back to middle (a closed loop). */
  function BackCount(links: map<int, Link>, middle: int, start: int, count: int, fuel: nat): Result<Option<int>>
    decreases fuel
  {
    if fuel == 0 then Ok(Some(count))
    else if start !in links then Err(KeyError)
    else if links[start].prev < 0 then Ok(Some(count))
    else if links[start].prev == middle then Ok(None)
    else BackCount(links, middle, links[start].prev, count + 1, fuel - 1)
  }

  /** The forward count from end until a node without a next. */
  function ForwardCount(links: map<int, Link>, end: int, count: int, fuel: nat): Result<int>
    decreases fuel
  {
    if fuel == 0 then Ok(count)
    else if end !in links then Err(KeyError)
    else if links[end].next < 0 then Ok(count)
    else ForwardCount(links, links[end].next, count + 1, fuel - 1)
  }

  /** The topology test of a non-empty ring of a non-degenerate fan: Ok(true) means non-manifold. */
  function LinkVerdict(ring: seq<Segment>, allow: bool): Result<bool>
    requires |ring| > 0
  {
    match Links(ring)
    case None => Ok(true)
    case Some(links) =>
      if |links| == |ring| then
        CloseWalk(links, ring[0].0, ring[0].1, if |ring| >= 2 then |ring| - 2 else 0)
      else if |links| > |ring| + 1 then Ok(true)
      else if !allow then Ok(true)
      else OpenCurveCheck(links, ring[0].0, ring[0].1)
  }

  /** The single-open-curve check from the segment middle -> first: count the nodes back from
      middle and forward from first, bad if the walk back closes or the count misses a node. */
  function OpenCurveCheck(links: map<int, Link>, middle: int, first: int): Result<bool>
  {
    match BackCount(links, middle, middle, 2, |links|)
    case Err(e) => Err(e)
    case Ok(None) => Ok(true)
    case Ok(Some(count)) =>
      match ForwardCount(links, first, count, |links|)
      case Err(e) => Err(e)
      case Ok(total) => Ok(total != |links|)
  }

  /** Whether node i, with incident triangles tris, is non-manifold. */
  function NodeVerdict(tris: seq<Triangle>, i: int, allow: bool): Result<bool>
  {
    if |tris| == 0 then Ok(false)
    else if exists t :: 0 <= t < |tris| && !NonDegenerate(tris[t]) then Ok(true)
    else LinkVerdict(Ring(tris, i), allow)
  }

  /** The verdict for node v of the soup. */
  function Verdict(elements: seq<Triangle>, v: int, allow: bool): Result<bool>
  {
    NodeVerdict(Fan(elements, v), v, allow)
  }

  /** The collecting loop: the nodes whose verdict is bad, in order, or the first error raised. */
  function Reported(verdicts: seq<Result<bool>>): Result<seq<int>>
  {
    if |verdicts| == 0 then Ok([])
    else
      var v := |verdicts| - 1;
      match Reported(verdicts[..v])
      case Err(e) => Err(e)
      case Ok(r) =>
        match verdicts[v]
        case Err(e) => Err(e)
        case Ok(bad) => Ok(if bad then r + [v] else r)
  }

  /** nonmanifold_nodes(allow_boundary) over the nodes 0..n-1. */
  function Nonmanifold(elements: seq<Triangle>, allow: bool, n: nat): Result<seq<int>>
  {
    Reported(seq(n, v requires 0 <= v < n => Verdict(elements, v, allow)))
  }

  /** The loop fails exactly when some verdict is an error. */
  lemma {:induction false} ReportedFails(verdicts: seq<Result<bool>>)
    ensures Reported(verdicts).Err? <==> exists v :: 0 <= v < |verdicts| && verdicts[v].Err?
  {
    if |verdicts| > 0 {
      var v := |verdicts| - 1;
      ReportedFails(verdicts[..v]);
      assert forall u :: 0 <= u < v ==> verdicts[..v][u] == verdicts[u];
    }
  }

  /** Otherwise it lists, in increasing order, exactly the nodes whose verdict is Ok(true). */
  lemma {:induction false} ReportedMembers(verdicts: seq<Result<bool>>)
    requires Reported(verdicts).Ok?
    ensures var r := Reported(verdicts).value;
            (forall a, b :: 0 <= a < b < |r| ==> r[a] < r[b]) &&
            (forall v :: v in r ==> 0 <= v < |verdicts|) &&
            forall v :: 0 <= v < |verdicts| ==> (v in r <==> verdicts[v] == Ok(true))
  {
    if |verdicts| > 0 {
      var v := |verdicts| - 1;
      ReportedMembers(verdicts[..v]);
      assert forall u :: 0 <= u < v ==> verdicts[..v][u] == verdicts[u];
      var r0 := Reported(verdicts[..v]).value;
      if verdicts[v] == Ok(true) {
        var r := r0 + [v];
        forall a, b | 0 <= a < b < |r| ensures r[a] < r[b] {
          if b == |r0| {
            assert r[a] == r0[a] && r0[a] in r0;
          }
        }
      }
    }
  }

  /**
   * nonmanifold_nodes raises exactly when some node's walk does, and otherwise lists, in
   * increasing order, exactly the nodes below n whose verdict is bad.
   */
  lemma NonmanifoldMembers(elements: seq<Triangle>, allow: bool, n: nat)
    ensures Nonmanifold(elements, allow, n).Err? <==> exists v :: 0 <= v < n && Verdict(elements, v, allow).Err?
    ensures Nonmanifold(elements, allow, n).Ok? ==>
              var r := Nonmanifold(elements, allow, n).value;
              (forall a, b :: 0 <= a < b < |r| ==> r[a] < r[b]) &&
              (forall v :: v in r ==> 0 <= v < n) &&
              forall v :: 0 <= v < n ==> (v in r <==> Verdict(elements, v, allow) == Ok(true))
  {
    var verdicts := seq(n, v requires 0 <= v < n => Verdict(elements, v, allow));
    assert forall v :: 0 <= v < n ==> verdicts[v] == Verdict(elements, v, allow);
    ReportedFails(verdicts);
    if Reported(verdicts).Ok? {
      ReportedMembers(verdicts);
    }
  }

  // Ring ends and the link map

  function Sources(ring: seq<Segment>): set<int>
  {
    set k | 0 <= k < |ring| :: ring[k].0
  }

  function Targets(ring: seq<Segment>): set<int>
  {
    set k | 0 <= k < |ring| :: ring[k].1
  }

  /** No node has two outgoing or two incoming ring segments. */
  predicate DistinctEnds(ring: seq<Segment>)
  {
    forall a, b :: 0 <= a < b < |ring| ==> ring[a].0 != ring[b].0 && ring[a].1 != ring[b].1
  }

  predicate RingNonNegative(ring: seq<Segment>)
  {
    forall k :: 0 <= k < |ring| ==> ring[k].0 >= 0 && ring[k].1 >= 0
  }

  /** links records exactly the ring's segments: its keys are their ends, next and prev follow them, -1 elsewhere. */
  ghost predicate LinkedBy(links: map<int, Link>, ring: seq<Segment>)
  {
    (forall v :: v in links <==> v in Sources(ring) || v in Targets(ring)) &&
    (forall k :: 0 <= k < |ring| ==>
       ring[k].0 in links && links[ring[k].0].next == ring[k].1 &&
       ring[k].1 in links && links[ring[k].1].prev == ring[k].0) &&
    (forall v :: v in links && v !in Sources(ring) ==> links[v].next == -1) &&
    (forall v :: v in links && v !in Targets(ring) ==> links[v].prev == -1)
  }

  lemma EndsStep(p: seq<Segment>, s: Segment)
    ensures Sources(p + [s]) == Sources(p) + {s.0}
    ensures Targets(p + [s]) == Targets(p) + {s.1}
    ensures DistinctEnds(p + [s]) <==> DistinctEnds(p) && s.0 !in Sources(p) && s.1 !in Targets(p)
  {
    var q := p + [s];
    assert forall k :: 0 <= k < |p| ==> q[k] == p[k];
    assert q[|p|] == s;
    if DistinctEnds(q) {
      assert DistinctEnds(p) by {
        forall a, b | 0 <= a < b < |p| ensures p[a].0 != p[b].0 && p[a].1 != p[b].1 {
          assert q[a] == p[a] && q[b] == p[b];
        }
      }
    }
  }

  lemma AddSegmentSpec(links: map<int, Link>, p: seq<Segment>, s: Segment)
    requires RingNonNegative(p) && s.0 >= 0 && s.1 >= 0
    requires LinkedBy(links, p)
    ensures AddSegment(links, s).None? <==> s.0 in Sources(p) || s.1 in Targets(p)
    ensures AddSegment(links, s).Some? ==> LinkedBy(AddSegment(links, s).value, p + [s])
  {
    EndsStep(p, s);
    assert s.0 in Sources(p) <==> LinkOf(links, s.0).next >= 0 by {
      if s.0 in Sources(p) {
        var k :| 0 <= k < |p| && p[k].0 == s.0;
      }
    }
    assert s.1 in Targets(p) <==> LinkOf(links, s.1).prev >= 0 by {
      if s.1 in Targets(p) {
        var k :| 0 <= k < |p| && p[k].1 == s.1;
      }
    }
    var q := p + [s];
    assert forall k :: 0 <= k < |p| ==> q[k] == p[k];
    assert q[|p|] == s;
  }

  /** The link map exists iff the ring's ends are distinct, and then it records exactly the ring. */
  lemma {:induction false} LinksSpec(ring: seq<Segment>)
    requires RingNonNegative(ring)
    ensures Links(ring).Some? <==> DistinctEnds(ring)
    ensures Links(ring).Some? ==> LinkedBy(Links(ring).value, ring)
  {
    if |ring| > 0 {
      var p, s := ring[..|ring| - 1], ring[|ring| - 1];
      assert ring == p + [s];
      assert forall k :: 0 <= k < |p| ==> p[k] == ring[k];
      LinksSpec(p);
      EndsStep(p, s);
      if Links(p).Some? {
        AddSegmentSpec(Links(p).value, p, s);
      }
    }
  }

  // Properties of nonmanifold_nodes

  /** Every vertex of a degenerate element is reported. */
  lemma DegenerateReported(elements: seq<Triangle>, t: nat, c: int, allow: bool)
    requires t < |elements| && 0 <= c < 3 && !NonDegenerate(elements[t])
    ensures Verdict(elements, Corner(elements[t], c), allow) == Ok(true)
  {
    var v := Corner(elements[t], c);
    IncidentProperties(elements, v);
    assert t in Incident(elements, v);
    var k :| 0 <= k < |Incident(elements, v)| && Incident(elements, v)[k] == t;
    assert Fan(elements, v)[k] == elements[t];
  }

  lemma SubsetCard(a: set<int>, b: set<int>)
    requires a <= b
    ensures |b| == |a| + |b - a|
  {
    assert b == a + (b - a);
    assert a * (b - a) == {};
  }

  lemma SubsetFull(a: set<int>, b: set<int>)
    requires a <= b && |a| == |b|
    ensures a == b
  {
    SubsetCard(a, b);
    assert b - a == {};
    assert b == a + (b - a);
  }

  /** With distinct ends, the ring has as many sources and as many targets as segments. */
  lemma {:induction false} EndsCard(ring: seq<Segment>)
    requires DistinctEnds(ring)
    ensures |Sources(ring)| == |ring| && |Targets(ring)| == |ring|
  {
    if |ring| > 0 {
      var p, s := ring[..|ring| - 1], ring[|ring| - 1];
      assert ring == p + [s];
      EndsStep(p, s);
      EndsCard(p);
    }
  }

  /** A ring with a node that has a next but no prev is reported when boundaries are not allowed. */
  lemma OpenRingReported(ring: seq<Segment>, k: int)
    requires RingNonNegative(ring) && 0 <= k < |ring| && ring[k].0 !in Targets(ring)
    ensures LinkVerdict(ring, false) == Ok(true)
  {
    LinksSpec(ring);
    if Links(ring).Some? {
      var links := Links(ring).value;
      EndsCard(ring);
      SubsetCard(Targets(ring) + {ring[k].0}, links.Keys);
      assert |Targets(ring) + {ring[k].0}| == |ring| + 1;
    }
  }

  /** The ring segment of a non-degenerate triangle at its corner c: the two corners after c. */
  lemma RingSegmentAt(tri: Triangle, c: int)
    requires NonDegenerate(tri) && 0 <= c < 3
    ensures RingSegment(tri, Corner(tri, c)) == (Corner(tri, Succ(c)), Corner(tri, Succ(Succ(c))))
  {
  }

  /** The directed edge a -> b occurs in some element. */
  ghost predicate HasEdge(elements: seq<Triangle>, a: int, b: int)
  {
    exists t, c :: 0 <= t < |elements| && 0 <= c < 3 && Corner(elements[t], c) == a && Corner(elements[t], Succ(c)) == b
  }

  /** The ring segment at v of a non-degenerate incident element: the two corners after v in it. */
  lemma FanSegment(elements: seq<Triangle>, v: int, j: int)
    requires 0 <= j < |Fan(elements, v)| && NonDegenerate(Fan(elements, v)[j])
    ensures exists d :: 0 <= d < 3 && Corner(Fan(elements, v)[j], d) == v &&
              RingSegment(Fan(elements, v)[j], v) == (Corner(Fan(elements, v)[j], Succ(d)), Corner(Fan(elements, v)[j], Succ(Succ(d))))
  {
    var u := Incident(elements, v)[j];
    IncidentProperties(elements, v);
    assert u in Incident(elements, v);
    assert v in [elements[u].0, elements[u].1, elements[u].2];
    var d := if elements[u].0 == v then 0 else if elements[u].1 == v then 1 else 2;
    assert Corner(elements[u], d) == v;
    RingSegmentAt(elements[u], d);
  }

  /** Where a -> v occurs in no element, a ends no ring segment of v. */
  lemma RingEntry(elements: seq<Triangle>, v: int, a: int, j: int)
    requires NonNegative(elements) && !HasEdge(elements, a, v)
    requires 0 <= j < |Fan(elements, v)| && NonDegenerate(Fan(elements, v)[j])
    ensures var s := RingSegment(Fan(elements, v)[j], v); s.0 >= 0 && s.1 >= 0 && s.1 != a
  {
    var tri := Fan(elements, v)[j];
    var u := Incident(elements, v)[j];
    assert tri == elements[u];
    FanSegment(elements, v, j);
    var d :| 0 <= d < 3 && Corner(tri, d) == v &&
             RingSegment(tri, v) == (Corner(tri, Succ(d)), Corner(tri, Succ(Succ(d))));
    assert Corner(elements[u], Succ(Succ(Succ(d)))) == v;
    assert Corner(elements[u], Succ(Succ(d))) != a;
  }

  /**
   * A vertex on a boundary edge (v -> a occurs, a -> v does not) is reported when
   * boundaries are not allowed.
   */
  lemma OpenFanReported(elements: seq<Triangle>, v: int, a: int)
    requires NonNegative(elements)
    requires HasEdge(elements, v, a) && !HasEdge(elements, a, v)
    ensures Verdict(elements, v, false) == Ok(true)
  {
    var fan := Fan(elements, v);
    if forall k :: 0 <= k < |fan| ==> NonDegenerate(fan[k]) {
      var ring := Ring(fan, v);
      var t, c :| 0 <= t < |elements| && 0 <= c < 3 && Corner(elements[t], c) == v && Corner(elements[t], Succ(c)) == a;
      IncidentProperties(elements, v);
      assert t in Incident(elements, v);
      var k :| 0 <= k < |Incident(elements, v)| && Incident(elements, v)[k] == t;
      assert fan[k] == elements[t];
      RingSegmentAt(elements[t], c);
      assert ring[k].0 == a;
      forall j | 0 <= j < |ring| ensures ring[j].0 >= 0 && ring[j].1 >= 0 && ring[j].1 != a {
        RingEntry(elements, v, a, j);
      }
      OpenRingReported(ring, k);
    }
  }

  /** The node reached from v after k steps along next (-1 once a node has no next). */
  function Iter(links: map<int, Link>, v: int, k: nat): int
    decreases k
  {
    if k == 0 then v else Iter(links, LinkOf(links, v).next, k - 1)
  }

  /** Where every node has a next, the closed-loop check succeeds, and finds start whenever the walk meets it within `steps` steps. */
  lemma {:induction false} CloseWalkFinds(links: map<int, Link>, start: int, node: int, steps: nat, k: nat)
    requires forall v :: v in links ==> links[v].next in links
    requires node in links
    requires 1 <= k <= steps && Iter(links, node, k) == start
    ensures CloseWalk(links, start, node, steps) == Ok(true)
    decreases steps
  {
    var n := links[node].next;
    if n != start {
      CloseWalkFinds(links, start, n, steps - 1, k - 1);
    }
  }

  /** ... and reports true only when the walk does meet start within `steps` steps. */
  lemma {:induction false} CloseWalkSound(links: map<int, Link>, start: int, node: int, steps: nat)
    requires forall v :: v in links ==> links[v].next in links
    requires node in links
    ensures CloseWalk(links, start, node, steps).Ok?
    ensures CloseWalk(links, start, node, steps).value ==> exists k: nat :: 1 <= k <= steps && Iter(links, node, k) == start
    decreases steps
  {
    if steps > 0 {
      var n := links[node].next;
      assert Iter(links, node, 1) == n;
      if n != start {
        CloseWalkSound(links, start, n, steps - 1);
        if CloseWalk(links, start, n, steps - 1).value {
          var k: nat :| 1 <= k <= steps - 1 && Iter(links, n, k) == start;
          assert Iter(links, node, k + 1) == start;
        }
      }
    }
  }

  /** In a closed ring every linked node has a next, itself linked. */
  lemma ClosedLinks(ring: seq<Segment>)
    requires |ring| >= 2 && RingNonNegative(ring)
    requires Links(ring).Some? && |Links(ring).value| == |ring|
    ensures var links := Links(ring).value;
            ring[0].0 in links && links[ring[0].0].next == ring[0].1 && ring[0].1 in links &&
            forall v :: v in links ==> links[v].next in links
  {
    LinksSpec(ring);
    LinkedAt(Links(ring).value, ring, 0);
    ClosedNext(ring);
  }

  /** In a closed ring every linked node's next is linked. */
  lemma ClosedNext(ring: seq<Segment>)
    requires RingNonNegative(ring)
    requires Links(ring).Some? && |Links(ring).value| == |ring|
    ensures var links := Links(ring).value;
            forall v :: v in links ==> links[v].next in links
  {
    var links := Links(ring).value;
    LinksSpec(ring);
    ClosedSources(ring);
    forall v | v in links ensures links[v].next in links {
      var k := SourceIndex(ring, v);
      LinkedAt(links, ring, k);
    }
  }

  /** The links of segment k of the ring. */
  lemma LinkedAt(links: map<int, Link>, ring: seq<Segment>, k: int)
    requires LinkedBy(links, ring) && 0 <= k < |ring|
    ensures ring[k].0 in links && links[ring[k].0].next == ring[k].1 && ring[k].1 in links
  {
  }

  /** A source of the ring is the source of one of its segments. */
  lemma SourceIndex(ring: seq<Segment>, v: int) returns (k: int)
    requires v in Sources(ring)
    ensures 0 <= k < |ring| && ring[k].0 == v
  {
    k :| 0 <= k < |ring| && ring[k].0 == v;
  }

  lemma ClosedSources(ring: seq<Segment>)
    requires RingNonNegative(ring)
    requires Links(ring).Some? && |Links(ring).value| == |ring|
    ensures Links(ring).value.Keys == Sources(ring)
  {
    var links := Links(ring).value;
    LinksSpec(ring);
    EndsCard(ring);
    assert Sources(ring) <= links.Keys;
    SubsetFull(Sources(ring), links.Keys);
  }

  /**
   * A closed ring (as many linked nodes as segments) is reported exactly when following
   * next from its first node comes back in fewer than |ring| steps, that is, when the
   * ring is more than one loop.
   */
  lemma ClosedRingVerdict(ring: seq<Segment>, allow: bool)
    requires |ring| >= 2 && RingNonNegative(ring)
    requires Links(ring).Some? && |Links(ring).value| == |ring|
    ensures var links := Links(ring).value;
            LinkVerdict(ring, allow).Ok? &&
            (LinkVerdict(ring, allow).value <==> exists j: nat :: 2 <= j < |ring| && Iter(links, ring[0].0, j) == ring[0].0)
  {
    ClosedLinks(ring);
    ClosedWalk(ring, allow);
    ClosedWalkMeaning(Links(ring).value, ring[0].0, ring[0].1, |ring|);
  }

  /** With as many linked nodes as segments, the verdict is the closed-loop check. */
  lemma ClosedWalk(ring: seq<Segment>, allow: bool)
    requires |ring| >= 2
    requires Links(ring).Some? && |Links(ring).value| == |ring|
    ensures LinkVerdict(ring, allow) == CloseWalk(Links(ring).value, ring[0].0, ring[0].1, |ring| - 2)
  {
  }

  /**
   * Where every node has a linked next, the closed-loop check from start's next succeeds,
   * and finds start exactly when start comes back after 2 to n - 1 steps.
   */
  lemma ClosedWalkMeaning(links: map<int, Link>, start: int, node: int, n: int)
    requires forall v :: v in links ==> links[v].next in links
    requires start in links && links[start].next == node && node in links && n >= 2
    ensures CloseWalk(links, start, node, n - 2).Ok?
    ensures CloseWalk(links, start, node, n - 2).value <==> exists j: nat :: 2 <= j < n && Iter(links, start, j) == start
  {
    assert LinkOf(links, start).next == node;
    CloseWalkSound(links, start, node, n - 2);
    if CloseWalk(links, start, node, n - 2).value {
      var k: nat :| 1 <= k <= n - 2 && Iter(links, node, k) == start;
      assert Iter(links, start, k + 1) == start;
      assert exists j: nat :: 2 <= j < n && Iter(links, start, j) == start;
    }
    if j: nat :| 2 <= j < n && Iter(links, start, j) == start {
      assert Iter(links, node, j - 1) == start;
      CloseWalkFinds(links, start, node, n - 2, j - 1);
    }
  }

  // The open-fan branch of the topology test

  /** Every linked node is non-negative, and next and prev are mutually inverse wherever they
      are set. */
  ghost predicate WellLinked(links: map<int, Link>)
  {
    (forall v :: v in links ==> v >= 0)
    && (forall v :: v in links && links[v].next >= 0 ==> links[v].next in links && links[links[v].next].prev == v)
    && (forall v :: v in links && links[v].prev >= 0 ==> links[v].prev in links && links[links[v].prev].next == v)
  }

  /** The node reached from v after k steps along prev (-1 once a node has no prev). */
  function Back(links: map<int, Link>, v: int, k: nat): int
    decreases k
  {
    if k == 0 then v else Back(links, LinkOf(links, v).prev, k - 1)
  }

  /** Walking next from h reaches every linked node in fewer than |links| steps. */
  ghost predicate ReachesAll(links: map<int, Link>, h: int)
  {
    forall v :: v in links ==> exists k :: 0 <= k < |links| && Iter(links, h, k) == v
  }

  /** The segments form one path: some node without a prev reaches every linked node along next. */
  ghost predicate OnePath(links: map<int, Link>)
  {
    exists h :: h in links && links[h].prev < 0 && ReachesAll(links, h)
  }

  /** The link map of a ring with distinct ends is well linked. */
  lemma LinksWell(ring: seq<Segment>)
    requires RingNonNegative(ring) && Links(ring).Some?
    ensures WellLinked(Links(ring).value)
  {
    var links := Links(ring).value;
    LinksSpec(ring);
    forall v | v in links ensures v >= 0 {
      if v in Sources(ring) {
        var k := SourceIndex(ring, v);
      } else {
        var k :| 0 <= k < |ring| && ring[k].1 == v;
      }
    }
    forall v | v in links && links[v].next >= 0
      ensures links[v].next in links && links[links[v].next].prev == v
    {
      LinkedNext(links, ring, v);
    }
    forall v | v in links && links[v].prev >= 0
      ensures links[v].prev in links && links[links[v].prev].next == v
    {
      LinkedPrev(links, ring, v);
    }
  }

  lemma LinkedNext(links: map<int, Link>, ring: seq<Segment>, v: int)
    requires LinkedBy(links, ring) && v in links && links[v].next >= 0
    ensures links[v].next in links && links[links[v].next].prev == v
  {
    assert v in Sources(ring);
    var k := SourceIndex(ring, v);
    assert links[ring[k].0].next == ring[k].1 && links[ring[k].1].prev == ring[k].0;
  }

  lemma LinkedPrev(links: map<int, Link>, ring: seq<Segment>, v: int)
    requires LinkedBy(links, ring) && v in links && links[v].prev >= 0
    ensures links[v].prev in links && links[links[v].prev].next == v
  {
    assert v in Targets(ring);
    var k :| 0 <= k < |ring| && ring[k].1 == v;
    assert links[ring[k].0].next == ring[k].1 && links[ring[k].1].prev == ring[k].0;
  }

  /** A walk that leaves the linked nodes stays out of them. */
  lemma {:induction false} IterOut(links: map<int, Link>, v: int, k: nat)
    requires WellLinked(links) && v !in links
    ensures Iter(links, v, k) !in links
    decreases k
  {
    if k > 0 {
      IterOut(links, -1, k - 1);
    }
  }

  lemma {:induction false} BackOut(links: map<int, Link>, v: int, k: nat)
    requires WellLinked(links) && v !in links
    ensures Back(links, v, k) !in links
    decreases k
  {
    if k > 0 {
      BackOut(links, -1, k - 1);
    }
  }

  lemma {:induction false} IterAdd(links: map<int, Link>, v: int, p: nat, q: nat)
    ensures Iter(links, v, p + q) == Iter(links, Iter(links, v, p), q)
    decreases p
  {
    if p > 0 {
      IterAdd(links, LinkOf(links, v).next, p - 1, q);
    }
  }

  /** A step back undoes a step forward inside the linked nodes. */
  lemma IterStepBack(links: map<int, Link>, v: int, k: nat)
    requires WellLinked(links) && Iter(links, v, k + 1) in links
    ensures Iter(links, v, k) in links && LinkOf(links, Iter(links, v, k + 1)).prev == Iter(links, v, k)
  {
    IterAdd(links, v, k, 1);
    if Iter(links, v, k) !in links {
      IterOut(links, Iter(links, v, k), 1);
    }
  }

  /** Walking forward from the node k steps back returns through the same nodes. */
  lemma {:induction false} BackThenIter(links: map<int, Link>, v: int, k: nat, n: nat)
    requires WellLinked(links) && n <= k
    requires forall i :: 0 <= i <= k ==> Back(links, v, i) in links
    ensures Iter(links, Back(links, v, k), n) == Back(links, v, k - n)
    decreases n
  {
    if n > 0 {
      var x := Back(links, v, k);
      assert Back(links, v, k) == Back(links, Back(links, v, k - 1), 1) by { BackAdd(links, v, k - 1, 1); }
      BackThenIter(links, v, k - 1, n - 1);
    }
  }

  lemma {:induction false} BackAdd(links: map<int, Link>, v: int, p: nat, q: nat)
    ensures Back(links, v, p + q) == Back(links, Back(links, v, p), q)
    decreases p
  {
    if p > 0 {
      BackAdd(links, LinkOf(links, v).prev, p - 1, q);
    }
  }

  /** The nodes on a forward walk from a node without a prev are distinct while they stay linked. */
  lemma {:induction false} HeadWalkDistinct(links: map<int, Link>, h: int, p: nat, q: nat)
    requires WellLinked(links) && h in links && links[h].prev < 0
    requires p < q && Iter(links, h, q) in links
    ensures Iter(links, h, p) != Iter(links, h, q)
    decreases p
  {
    IterStepBack(links, h, q - 1);
    if p > 0 && Iter(links, h, p) == Iter(links, h, q) {
      IterStepBack(links, h, p - 1);
      HeadWalkDistinct(links, h, p - 1, q - 1);
    }
  }

  /** The nodes on a backward walk that never comes back to its start are distinct while they stay linked. */
  lemma {:induction false} BackWalkDistinct(links: map<int, Link>, v: int, p: nat, q: nat)
    requires WellLinked(links) && p < q
    requires forall i :: 0 <= i <= q ==> Back(links, v, i) in links
    requires forall i :: 1 <= i <= q ==> Back(links, v, i) != v
    ensures Back(links, v, p) != Back(links, v, q)
    decreases p
  {
    if p > 0 {
      BackAdd(links, v, p - 1, 1);
      BackAdd(links, v, q - 1, 1);
      BackWalkDistinct(links, v, p - 1, q - 1);
    }
  }

  /** A sequence without repeats has as many distinct elements as entries. */
  lemma {:induction false} DistinctCard(s: seq<int>)
    requires forall p, q :: 0 <= p < q < |s| ==> s[p] != s[q]
    ensures |set x | x in s| == |s|
  {
    if |s| > 0 {
      var t := s[..|s| - 1];
      DistinctCard(t);
      assert (set x | x in s) == (set x | x in t) + {s[|s| - 1]};
    }
  }

  /** Distinct linked nodes are no more than the linked nodes, and as many only when they are all of them. */
  lemma DistinctLinked(links: map<int, Link>, s: seq<int>)
    requires forall p, q :: 0 <= p < q < |s| ==> s[p] != s[q]
    requires forall i :: 0 <= i < |s| ==> s[i] in links
    ensures |s| <= |links|
    ensures |s| == |links| ==> forall v :: v in links ==> v in s
  {
    DistinctCard(s);
    var e := set x | x in s;
    assert e <= links.Keys;
    SubsetCard(e, links.Keys);
    if |s| == |links| {
      SubsetFull(e, links.Keys);
    }
  }

  /** The backward count never fails on linked nodes; it returns None only where the walk comes
      back to middle, and otherwise count plus the steps taken, stopping at a node without a prev
      or when its fuel runs out. */
  lemma {:induction false} BackCountWalk(links: map<int, Link>, middle: int, v: int, count: int, fuel: nat)
    requires WellLinked(links) && v in links
    ensures BackCount(links, middle, v, count, fuel).Ok?
    ensures BackCount(links, middle, v, count, fuel) == Ok(None) ==>
              exists j :: 1 <= j <= fuel && Back(links, v, j) == middle
    ensures BackCount(links, middle, v, count, fuel).Ok? && BackCount(links, middle, v, count, fuel).value.Some? ==>
              var j := BackCount(links, middle, v, count, fuel).value.value - count;
              0 <= j <= fuel
              && (forall i :: 0 <= i <= j ==> Back(links, v, i) in links)
              && (forall i :: 1 <= i <= j ==> Back(links, v, i) != middle)
              && (j == fuel || links[Back(links, v, j)].prev < 0)
    decreases fuel
  {
    if fuel > 0 && links[v].prev >= 0 && links[v].prev != middle {
      var u := links[v].prev;
      BackCountWalk(links, middle, u, count + 1, fuel - 1);
      assert forall i :: 1 <= i <= fuel ==> Back(links, v, i) == Back(links, u, i - 1);
      var r := BackCount(links, middle, u, count + 1, fuel - 1);
      if r == Ok(None) {
        var j :| 1 <= j <= fuel - 1 && Back(links, u, j) == middle;
        assert Back(links, v, j + 1) == middle;
      }
    } else if fuel > 0 && links[v].prev >= 0 {
      assert Back(links, v, 1) == middle;
    }
  }

  /** The forward count never fails on linked nodes; it returns count plus the steps taken,
      stopping at a node without a next or when its fuel runs out. */
  lemma {:induction false} ForwardCountWalk(links: map<int, Link>, v: int, count: int, fuel: nat)
    requires WellLinked(links) && v in links
    ensures ForwardCount(links, v, count, fuel).Ok?
    ensures var j := ForwardCount(links, v, count, fuel).value - count;
              0 <= j <= fuel
              && (forall i :: 0 <= i <= j ==> Iter(links, v, i) in links)
              && (j == fuel || links[Iter(links, v, j)].next < 0)
    decreases fuel
  {
    if fuel > 0 && links[v].next >= 0 {
      var u := links[v].next;
      ForwardCountWalk(links, u, count + 1, fuel - 1);
      assert forall i :: 1 <= i <= fuel ==> Iter(links, v, i) == Iter(links, u, i - 1);
    }
  }

  lemma {:induction false} SeqSetCard(s: seq<int>)
    ensures |set x | x in s| <= |s|
  {
    if |s| > 0 {
      var t := s[..|s| - 1];
      SeqSetCard(t);
      assert (set x | x in s) == (set x | x in t) + {s[|s| - 1]};
    }
  }

  /** Along one path from its head h, every step of the walk up to |links| - 1 is linked and the
      walk leaves the linked nodes after |links| steps. */
  lemma OnePathWalk(links: map<int, Link>, h: int)
    requires WellLinked(links) && h in links && links[h].prev < 0 && ReachesAll(links, h)
    ensures forall i :: 0 <= i < |links| ==> Iter(links, h, i) in links
    ensures Iter(links, h, |links|) !in links
  {
    var n := |links|;
    forall i | 0 <= i < n ensures Iter(links, h, i) in links {
      if Iter(links, h, i) !in links {
        var s := seq(i, k requires 0 <= k < i => Iter(links, h, k));
        forall v | v in links ensures v in s {
          var k :| 0 <= k < n && Iter(links, h, k) == v;
          if k >= i {
            IterAdd(links, h, i, k - i);
            IterOut(links, Iter(links, h, i), k - i);
          }
          assert s[k] == v;
        }
        assert links.Keys <= set x | x in s;
        SeqSetCard(s);
        SubsetCard(links.Keys, set x | x in s);
      }
    }
    if Iter(links, h, n) in links {
      var s := seq(n + 1, k requires 0 <= k <= n => Iter(links, h, k));
      forall p, q | 0 <= p < q < |s| ensures s[p] != s[q] {
        HeadWalkDistinct(links, h, p, q);
      }
      DistinctLinked(links, s);
    }
  }

  /** Walking back from the node k steps along the path from its head retraces the path. */
  lemma {:induction false} PathBack(links: map<int, Link>, h: int, k: nat, i: nat)
    requires WellLinked(links) && i <= k
    requires forall j :: 0 <= j <= k ==> Iter(links, h, j) in links
    ensures Back(links, Iter(links, h, k), i) == Iter(links, h, k - i)
    decreases i
  {
    if i > 0 {
      PathBack(links, h, k, i - 1);
      BackAdd(links, Iter(links, h, k), i - 1, 1);
      IterStepBack(links, h, k - i);
    }
  }

  /** On one path from its head h, the walk back from the node ka steps along neither returns
      to it nor continues past h. */
  lemma PathBackStops(links: map<int, Link>, h: int, ka: nat, j: nat)
    requires WellLinked(links) && h in links && links[h].prev < 0
    requires forall i :: 0 <= i <= ka ==> Iter(links, h, i) in links
    requires 1 <= j
    ensures Back(links, Iter(links, h, ka), j) != Iter(links, h, ka)
    ensures j <= ka ==> Back(links, Iter(links, h, ka), j) == Iter(links, h, ka - j)
    ensures j > ka ==> Back(links, Iter(links, h, ka), j) !in links
  {
    var a := Iter(links, h, ka);
    if j <= ka {
      PathBack(links, h, ka, j);
      HeadWalkDistinct(links, h, ka - j, ka);
    } else {
      PathBack(links, h, ka, ka);
      BackAdd(links, a, ka, 1);
      BackAdd(links, a, ka + 1, j - ka - 1);
      BackOut(links, Back(links, a, ka + 1), j - ka - 1);
    }
  }

  /** On one path from its head h, the backward count from the node ka steps along counts
      exactly ka steps. */
  lemma PathBackCount(links: map<int, Link>, h: int, ka: nat)
    requires WellLinked(links) && h in links && links[h].prev < 0 && ka < |links|
    requires forall i :: 0 <= i <= ka ==> Iter(links, h, i) in links
    ensures BackCount(links, Iter(links, h, ka), Iter(links, h, ka), 2, |links|) == Ok(Some(2 + ka))
  {
    var a := Iter(links, h, ka);
    var n := |links|;
    BackCountWalk(links, a, a, 2, n);
    var bc := BackCount(links, a, a, 2, n);
    if bc == Ok(None) {
      var j :| 1 <= j <= n && Back(links, a, j) == a;
      PathBackStops(links, h, ka, j);
      assert false;
    }
    var jb := bc.value.value - 2;
    if jb > ka {
      PathBackStops(links, h, ka, ka + 1);
      assert false;
    }
    if jb < ka {
      PathBack(links, h, ka, jb);
      PathBack(links, h, ka, jb + 1);
      BackAdd(links, a, jb, 1);
      assert false;
    }
  }

  /** On one path through all n linked nodes, the forward count from the node kb steps along
      adds the n - 1 - kb remaining steps. */
  lemma PathForwardCount(links: map<int, Link>, h: int, kb: nat, count: int)
    requires WellLinked(links) && kb < |links|
    requires forall i :: 0 <= i < |links| ==> Iter(links, h, i) in links
    requires Iter(links, h, |links|) !in links
    ensures ForwardCount(links, Iter(links, h, kb), count, |links|) == Ok(count + |links| - 1 - kb)
  {
    var n := |links|;
    var b := Iter(links, h, kb);
    ForwardCountWalk(links, b, count, n);
    var jf := ForwardCount(links, b, count, n).value - count;
    IterAdd(links, h, kb, jf);
    if kb + jf >= n {
      IterAdd(links, h, n, kb + jf - n);
      IterOut(links, Iter(links, h, n), kb + jf - n);
      assert false;
    }
    if kb + jf < n - 1 {
      IterStepBack(links, h, kb + jf);
      assert false;
    }
  }

  /** A single path through every linked node passes the open-curve check. */
  lemma OnePathPasses(links: map<int, Link>, a: int, b: int, h: int)
    requires WellLinked(links) && a in links && links[a].next == b && b in links
    requires h in links && links[h].prev < 0 && ReachesAll(links, h)
    ensures OpenCurveCheck(links, a, b) == Ok(false)
  {
    var n := |links|;
    OnePathWalk(links, h);
    var ka :| 0 <= ka < n && Iter(links, h, ka) == a;
    IterAdd(links, h, ka, 1);
    assert Iter(links, h, ka + 1) == b;
    PathBackCount(links, h, ka);
    PathForwardCount(links, h, ka + 1, 2 + ka);
  }

  /** The backward count from a linked node never runs out of fuel: that would take more
      distinct nodes than there are. */
  lemma BackCountEnds(links: map<int, Link>, a: int)
    requires WellLinked(links) && a in links
    requires BackCount(links, a, a, 2, |links|).Ok? && BackCount(links, a, a, 2, |links|).value.Some?
    ensures var jb := BackCount(links, a, a, 2, |links|).value.value - 2;
      0 <= jb < |links| && (forall i :: 0 <= i <= jb ==> Back(links, a, i) in links)
      && links[Back(links, a, jb)].prev < 0
  {
    var n := |links|;
    BackCountWalk(links, a, a, 2, n);
    var jb := BackCount(links, a, a, 2, n).value.value - 2;
    if jb == n {
      var s := seq(n + 1, k requires 0 <= k <= n => Back(links, a, k));
      forall p, q | 0 <= p < q < |s| ensures s[p] != s[q] {
        BackWalkDistinct(links, a, p, q);
      }
      DistinctLinked(links, s);
    }
  }

  /** The walk back jb steps from a, then on through a -> b and jf steps from b, is one walk
      forward from the node reached. */
  lemma JoinedWalk(links: map<int, Link>, a: int, b: int, jb: nat, jf: nat)
    requires WellLinked(links) && LinkOf(links, a).next == b
    requires forall i :: 0 <= i <= jb ==> Back(links, a, i) in links
    requires forall i :: 0 <= i <= jf ==> Iter(links, b, i) in links
    ensures forall k :: 0 <= k < jb + 2 + jf ==> Iter(links, Back(links, a, jb), k) in links
  {
    var h := Back(links, a, jb);
    forall k | 0 <= k < jb + 2 + jf ensures Iter(links, h, k) in links {
      if k <= jb {
        BackThenIter(links, a, jb, k);
      } else {
        BackThenIter(links, a, jb, jb);
        IterAdd(links, h, jb, 1);
        IterAdd(links, h, jb + 1, k - jb - 1);
      }
    }
  }

  /** A walk forward from a node without a prev that stays on linked nodes for |links| steps
      reaches every linked node. */
  lemma HeadPathCovers(links: map<int, Link>, h: int)
    requires WellLinked(links) && h in links && links[h].prev < 0
    requires forall k :: 0 <= k < |links| ==> Iter(links, h, k) in links
    ensures ReachesAll(links, h)
  {
    var n := |links|;
    var s := seq(n, k requires 0 <= k < n => Iter(links, h, k));
    forall p, q | 0 <= p < q < |s| ensures s[p] != s[q] {
      assert s[q] in links;
      HeadWalkDistinct(links, h, p, q);
    }
    DistinctLinked(links, s);
    forall v | v in links ensures exists k :: 0 <= k < n && Iter(links, h, k) == v {
      var k :| 0 <= k < n && s[k] == v;
    }
  }

  /** Passing the open-curve check means the walk traced a single path through every linked node. */
  lemma PassesOnePath(links: map<int, Link>, a: int, b: int)
    requires WellLinked(links) && a in links && links[a].next == b && b in links
    requires OpenCurveCheck(links, a, b) == Ok(false)
    ensures OnePath(links)
  {
    var n := |links|;
    BackCountWalk(links, a, a, 2, n);
    BackCountEnds(links, a);
    var c := BackCount(links, a, a, 2, n).value.value;
    ForwardCountWalk(links, b, c, n);
    var jf := ForwardCount(links, b, c, n).value - c;
    JoinedWalk(links, a, b, c - 2, jf);
    HeadPathCovers(links, Back(links, a, c - 2));
  }

  /** The open-curve check from a linked segment a -> b is bad exactly when the segments are
      not one path. */
  lemma OpenCurveMeaning(links: map<int, Link>, a: int, b: int)
    requires WellLinked(links) && a in links && links[a].next == b && b in links
    ensures OpenCurveCheck(links, a, b).Ok?
    ensures OpenCurveCheck(links, a, b).value <==> !OnePath(links)
  {
    BackCountWalk(links, a, a, 2, |links|);
    var bc := BackCount(links, a, a, 2, |links|);
    if bc.value.Some? {
      ForwardCountWalk(links, b, bc.value.value, |links|);
    }
    if OnePath(links) {
      var h :| h in links && links[h].prev < 0 && ReachesAll(links, h);
      OnePathPasses(links, a, b, h);
    } else if OpenCurveCheck(links, a, b) == Ok(false) {
      PassesOnePath(links, a, b);
    }
  }

  /**
   * One open curve (one more linked node than segments) with boundaries allowed: the node
   * is bad exactly when the segments do not form a single path from the node without a prev
   * through every linked node, that is, when there is a second curve (a closed loop beside
   * the open one).
   */
  lemma OpenRingVerdict(ring: seq<Segment>)
    requires |ring| >= 1 && RingNonNegative(ring)
    requires Links(ring).Some? && |Links(ring).value| == |ring| + 1
    ensures LinkVerdict(ring, true).Ok?
    ensures LinkVerdict(ring, true).value <==> !OnePath(Links(ring).value)
  {
    var links := Links(ring).value;
    assert LinkVerdict(ring, true) == OpenCurveCheck(links, ring[0].0, ring[0].1);
    LinksWell(ring);
    LinksSpec(ring);
    LinkedAt(links, ring, 0);
    OpenCurveMeaning(links, ring[0].0, ring[0].1);
  }

  /** A lone non-degenerate triangle is a manifold fan with boundary: reported only when boundaries are not allowed. */
  lemma LoneTriangle(tri: Triangle, i: int)
    requires NonDegenerate(tri) && i in Corners(tri)
    requires tri.0 >= 0 && tri.1 >= 0 && tri.2 >= 0
    ensures NodeVerdict([tri], i, true) == Ok(false)
    ensures NodeVerdict([tri], i, false) == Ok(true)
  {
    var s := RingSegment(tri, i);
    var ring := Ring([tri], i);
    assert ring == [s];
    assert s.0 != s.1 && s.0 >= 0 && s.1 >= 0;
    assert ring[..0] == [];
    var links := map[s.0 := Link(-1, s.1), s.1 := Link(s.0, -1)];
    assert Links(ring) == Some(links);
    assert links.Keys == {s.0, s.1};
    assert |links| == 2;
  }

  // The nonmanifold_nodes loops

  lemma {:induction false} LinksNonePrefix(ring: seq<Segment>, t: nat)
    requires t <= |ring| && Links(ring[..t]).None?
    ensures Links(ring).None?
  {
    if t < |ring| {
      var p := ring[..|ring| - 1];
      assert p[..t] == ring[..t];
      LinksNonePrefix(p, t);
    } else {
      assert ring[..t] == ring;
    }
  }

  /** One more verdict: an error ends the report, a true verdict adds its node. */
  lemma ReportedStep(verdicts: seq<Result<bool>>, i: int, acc: seq<int>)
    requires 0 <= i < |verdicts| && Reported(verdicts[..i]) == Ok(acc)
    ensures verdicts[i].Err? ==> Reported(verdicts[..i + 1]) == Err(verdicts[i].error)
    ensures verdicts[i].Ok? ==> Reported(verdicts[..i + 1]) == Ok(if verdicts[i].value then acc + [i] else acc)
  {
    assert verdicts[..i + 1][..i] == verdicts[..i];
  }

  lemma {:induction false} ReportedErrPrefix(verdicts: seq<Result<bool>>, n: nat)
    requires n <= |verdicts| && Reported(verdicts[..n]).Err?
    ensures Reported(verdicts) == Reported(verdicts[..n])
  {
    if n < |verdicts| {
      var p := verdicts[..|verdicts| - 1];
      assert p[..n] == verdicts[..n];
      ReportedErrPrefix(p, n);
    } else {
      assert verdicts[..n] == verdicts;
    }
  }

  /** The ring loop: stops at the first degenerate incident element, else collects the ring of i. */
  method CollectRing(elements: seq<Triangle>, incident: seq<int>, i: int) returns (degenerate: bool, ring: seq<Segment>)
    requires incident == Incident(elements, i)
    ensures degenerate <==> exists t :: 0 <= t < |Fan(elements, i)| && !NonDegenerate(Fan(elements, i)[t])
    ensures !degenerate ==> ring == Ring(Fan(elements, i), i)
  {
    var fan := Fan(elements, i);
    ring := [];
    var t := 0;
    while t < |incident|
      invariant 0 <= t <= |incident|
      invariant forall u :: 0 <= u < t ==> NonDegenerate(fan[u])
      invariant ring == Ring(fan[..t], i)
    {
      var tri := elements[incident[t]];
      if !NonDegenerate(tri) {
        return true, ring;
      }
      ring := ring + [RingSegment(tri, i)];
      t := t + 1;
    }
    assert fan[..t] == fan;
    degenerate := false;
  }

  /** The topology loop, filling the prev/next table; None where a node gets a second next or prev. */
  method BuildLinks(ring: seq<Segment>) returns (r: Option<map<int, Link>>)
    ensures r == Links(ring)
  {
    var neighbors: map<int, Link> := map[];
    var t := 0;
    while t < |ring|
      invariant 0 <= t <= |ring|
      invariant Links(ring[..t]) == Some(neighbors)
    {
      assert ring[..t + 1][..t] == ring[..t];
      var s := ring[t];
      var nx := if s.0 in neighbors then neighbors[s.0] else NoLink;
      if nx.next >= 0 {
        LinksNonePrefix(ring, t + 1);
        return None;
      }
      neighbors := neighbors[s.0 := Link(nx.prev, s.1)];
      var ny := if s.1 in neighbors then neighbors[s.1] else NoLink;
      if ny.prev >= 0 {
        LinksNonePrefix(ring, t + 1);
        return None;
      }
      neighbors := neighbors[s.1 := Link(s.0, ny.next)];
      t := t + 1;
    }
    assert ring[..t] == ring;
    r := Some(neighbors);
  }

  /** The closed-loop check: `steps` walks along next from node, failing with KeyError at an unknown node. */
  method CheckClosed(links: map<int, Link>, start: int, node: int, steps: nat) returns (r: Result<bool>)
    ensures r == CloseWalk(links, start, node, steps)
  {
    var cur := node;
    var j := 0;
    while j < steps
      invariant 0 <= j <= steps
      invariant CloseWalk(links, start, node, steps) == CloseWalk(links, start, cur, steps - j)
    {
      if cur !in links {
        return Err(KeyError);
      }
      cur := links[cur].next;
      if cur == start {
        return Ok(true);
      }
      j := j + 1;
    }
    r := Ok(false);
  }

  /** The backward count from middle along prev, at most `fuel` steps; Ok(None) where it comes back to middle. */
  method CountBack(links: map<int, Link>, middle: int, fuel: nat) returns (r: Result<Option<int>>)
    ensures r == BackCount(links, middle, middle, 2, fuel)
  {
    var start := middle;
    var count := 2;
    var f: nat := fuel;
    while f > 0
      invariant f <= fuel
      invariant BackCount(links, middle, middle, 2, fuel) == BackCount(links, middle, start, count, f)
    {
      if start !in links {
        return Err(KeyError);
      }
      start := links[start].prev;
      if start < 0 {
        return Ok(Some(count));
      }
      if start == middle {
        return Ok(None);
      }
      count := count + 1;
      f := f - 1;
    }
    r := Ok(Some(count));
  }

  /** The forward count from end along next, at most `fuel` steps. */
  method CountForward(links: map<int, Link>, end: int, count: int, fuel: nat) returns (r: Result<int>)
    ensures r == ForwardCount(links, end, count, fuel)
  {
    var cur := end;
    var total := count;
    var f: nat := fuel;
    while f > 0
      invariant f <= fuel
      invariant ForwardCount(links, end, count, fuel) == ForwardCount(links, cur, total, f)
    {
      if cur !in links {
        return Err(KeyError);
      }
      cur := links[cur].next;
      if cur < 0 {
        return Ok(total);
      }
      total := total + 1;
      f := f - 1;
    }
    r := Ok(total);
  }

  /** The body of the node loop of nonmanifold_nodes: Ok(true) where node i is non-manifold. */
  method CheckNode(elements: seq<Triangle>, incident: seq<int>, i: int, allow: bool) returns (r: Result<bool>)
    requires incident == Incident(elements, i)
    ensures r == Verdict(elements, i, allow)
  {
    if |incident| == 0 {
      return Ok(false);
    }
    var degenerate, ring := CollectRing(elements, incident, i);
    if degenerate {
      return Ok(true);
    }
    var found := BuildLinks(ring);
    if found.None? {
      return Ok(true);
    }
    var neighbors := found.value;
    if |neighbors| == |ring| {
      r := CheckClosed(neighbors, ring[0].0, ring[0].1, if |ring| >= 2 then |ring| - 2 else 0);
    } else if |neighbors| > |ring| + 1 {
      r := Ok(true);
    } else if !allow {
      r := Ok(true);
    } else {
      var back := CountBack(neighbors, ring[0].0, |neighbors|);
      match back {
        case Err(e) => r := Err(e);
        case Ok(None) => r := Ok(true);
        case Ok(Some(count)) =>
          var total := CountForward(neighbors, ring[0].1, count, |neighbors|);
          match total {
            case Err(e) => r := Err(e);
            case Ok(n) => r := Ok(n != |neighbors|);
          }
      }
    }
  }

  /** nonmanifold_nodes(allow_boundary): the nodes whose one ring is not a single fan, in increasing order. */
  method NonmanifoldNodes(elements: seq<Triangle>, allow: bool, nodes: nat) returns (r: Result<seq<int>>)
    requires VerticesIn(elements, 0, nodes)
    ensures r == Nonmanifold(elements, allow, nodes)
  {
    var incident := IncidentElements(elements, nodes);
    ghost var verdicts := seq(nodes, v requires 0 <= v < nodes => Verdict(elements, v, allow));
    var nonmanifold := [];
    var i := 0;
    while i < nodes
      invariant 0 <= i <= nodes
      invariant Reported(verdicts[..i]) == Ok(nonmanifold)
    {
      var verdict := CheckNode(elements, incident[i], i, allow);
      assert verdicts[i] == verdict;
      ReportedStep(verdicts, i, nonmanifold);
      if verdict.Err? {
        ReportedErrPrefix(verdicts, i + 1);
        return Err(verdict.error);
      }
      if verdict.value {
        nonmanifold := nonmanifold + [i];
      }
      i := i + 1;
    }
    assert verdicts[..i] == verdicts;
    r := Ok(nonmanifold);
  }
}
