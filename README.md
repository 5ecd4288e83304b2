# geode's mesh topology and its supporting containers, in Dafny

This project models the integer and combinatorial core of geode, a C++/Python geometry library,
and proves properties of the model.

The centre is `CornerMesh`, geode's mutable corner-based triangle-mesh topology
(`mesh/CornerMesh.cpp`). A mesh keeps three stores:

- the face records, each a vertex triple with the reverse of each of its three halfedges;
- one outgoing halfedge per vertex, preferring a boundary one;
- an arena of boundary-halfedge records with a free list.

An interior halfedge has the id `3*f+i` and finds its next and previous halfedge by arithmetic. A
boundary halfedge has a negative id `-1-k` and keeps its links in record `k`. The header that
defines these primitives is not part of this model. `next`, `prev`, `reverse`, `src`, `dst`,
`left`, `unsafe_boundary_link`, `unsafe_set_reverse` and `unsafe_set_deleted` are rebuilt from
their use in `mesh/CornerMesh.cpp`, with the invalid id `-2^31` and the deleted marker `2^31-1`.

The mesh appears twice:

- `corner_mesh.dfy` (module `CornerMesh`) gives every operation as a function on a `Mesh` value.
  It also states the invariants that `assert_consistent` checks.
- `corner_mesh_object.dfy` (module `CornerMeshObjects`) is the class `CornerMesh`. Its fields are
  the source's fields and its methods update them step by step, with the ring walks as loops.
  Each method is proved to leave exactly the state, or return exactly the result, of its function.
- `corner_mesh_lemmas.dfy` proves what the functions mean: the acceptance conditions of
  `add_face`, `split_face`, `is_flip_safe` and `permute_vertices`; the shape of the mesh after
  each edit; how `elements()` changes; the parity invariant; and the free-list discipline.
- `corner_mesh_free_list.dfy` (module `CornerMeshFreeList`) proves that `add_face`, `split_face`
  and `unsafe_delete_face` keep the free list of deleted boundary records and its count check.
- `corner_mesh_delete.dfy` (module `CornerMeshDeletion`) states what `unsafe_delete_face` removes
  and what holds when the loop of `unsafe_delete_last_vertex` stops.
- `corner_mesh_findings.dfy` holds a finding in the closed-ring check of `add_face`.

`has_boundary` and `is_manifold` are the predicates `CornerMesh.HasBoundary` and
`CornerMesh.IsManifold` on the counters. `is_manifold_with_boundary` is explained by its lemma.

Beside it the project models the parts of geode that can be modelled on their own:

- `TriangleSoup`'s combinatorial queries (`triangle_soup.dfy`);
- the ring-buffer `Queue` (`queue.dfy`);
- the integer layout of `BoxTree` (`box_tree.dfy`);
- `NestedArray` (`nested_array.dfy`) and `Array<T,2>` (`array2d.dfy`);
- the container helpers of `utility/stl.h` (`stl.dfy`);
- `closed_contours_next` (`polygon.dfy`);
- `clamp` (`clamp.dfy`);
- the empty, single, pair and five-element tuples (`empty.dfy`, `singleton.dfy`, `pair.dfy`,
  `quintuple.dfy`), with the orders on their components in `order.dfy`;
- `PropManager` (`prop_manager.dfy`);
- the symbolic `Expansion` polynomials of the exact-arithmetic tests (`expansion.dfy`);
- the OBJ line parser and `merge_meshes` of the Python mesh package (`mesh_io.dfy`).

Code that changes state in place is modelled as classes, methods and loops: the corner mesh,
`Queue`, `Array<T,2>`, `PropManager`, `stl.h`'s in-place vector edits, and the loops of
`TriangleSoup` and `Expansion`. Each method is proved against a specification function. Pure
code is modelled as functions and lemmas.

## Model

| member | source | states |
|---|---|---|
| Clamp.Clamp | math/clamp.h:10-14 | on a proper interval the result lies in [xmin, xmax] and is the point of it nearest to x; x itself comes back when strictly inside; at or below xmin the result is xmin; on an inverted interval it is xmin up to xmin and xmax above |
| Clamp.ClampMin | math/clamp.h:16-18 | clamp_min is the larger of x and xmin: at least both, and equal to one of them |
| Clamp.ClampMax | math/clamp.h:20-22 | clamp_max is the smaller of x and xmax: at most both, and equal to one of them |
| Clamp.ClampInBounds | math/clamp.h:10-26 | for xmin <= xmax, clamp always satisfies in_bounds, and clamp leaves x unchanged exactly when in_bounds(x) holds |
| Clamp.ClampIdempotent | math/clamp.h:10-22 | clamping twice equals clamping once, and clamp equals clamp_max(clamp_min(x, xmin), xmax) on a proper interval |
| Empty.Eq | structure/Empty.h:18-20 | operator== of the empty tuple holds exactly when the tuples are equal (always) |
| Empty.Ne | structure/Empty.h:22-24 | operator!= holds exactly when the tuples differ (never) |
| Empty.Less | structure/Empty.h:26-28 | operator< relates only distinct values, so it is a strict order (and never holds) |
| Empty.Greater | structure/Empty.h:30-32 | operator> is the converse of operator< |
| Empty.HashReduce | structure/Empty.h:45-47 | hash_reduce is 0 and gives equal tuples equal hashes |
| Singleton.Eq | structure/Singleton.h:28-30 | operator== holds exactly when the one-element tuples are equal |
| Singleton.Ne | structure/Singleton.h:32-34 | operator!= is the negation of equality |
| Singleton.Get | structure/Singleton.h:44-46 | get(a) hands back the element, so Tuple1(a) is the tuple |
| Singleton.LessIsStrictTotal | structure/Singleton.h:36-42 | when the element's < is a strict total order, so is the tuple's <, and the tuple's > is its converse |
| Pair.Eq | structure/Pair.h:32-34 | operator== (both components equal) holds exactly when the pairs are equal |
| Pair.Ne | structure/Pair.h:36-38 | operator!= holds exactly when the pairs differ |
| Pair.Get | structure/Pair.h:48-51 | get(a, b) hands back both components, so Tuple2(a, b) is the pair |
| Pair.LessIsStrictTotal | structure/Pair.h:40-42 | the lexicographic < is irreflexive, transitive and total when both component orders are strict total orders |
| Pair.GreaterIsConverse | structure/Pair.h:40-46 | the lexicographic > is the converse of the lexicographic < when each component's > is the converse of its < |
| Quintuple.Make | geode/structure/Quintuple.h:24-26 | the constructor stores its five arguments as x0..x4 in order |
| Quintuple.EqAsWrittenIgnoresX4 | geode/structure/Quintuple.h:28-30 | as written, operator== holds for two tuples that differ in x4 |
| Quintuple.Eq | geode/structure/Quintuple.h:28-30 | operator== with all five comparisons holds exactly when the tuples are equal (corrected; see Findings) |
| Quintuple.Ne | geode/structure/Quintuple.h:32-34 | operator!= holds exactly when the tuples differ, all five slots compared (corrected; see Findings) |
| Quintuple.Get | geode/structure/Quintuple.h:36-38 | get(a, b, c, d, e) hands back the five components in order |
| Queue.Queue.constructor | geode/structure/Queue.h:15-17 | a new queue is empty and its array has size + 1 slots |
| Queue.Queue.Size | geode/structure/Queue.h:52-54 | size() is the number of queued elements and lies in [0, array.size() - 1] |
| Queue.Queue.Empty | geode/structure/Queue.h:56-58 | empty() holds exactly when no element is queued |
| Queue.Queue.Full | geode/structure/Queue.h:60-62 | full() holds exactly when all slots but one are in use |
| Queue.Queue.Peek | geode/structure/Queue.h:40-42 | peek() is the oldest element of a non-empty queue |
| Queue.Queue.Get | geode/structure/Queue.h:44-50 | operator[](i), for i < size(), is the i-th element counted from the front |
| Queue.Queue.Enqueue | geode/structure/Queue.h:19-30 | the contents become the old contents followed by the element; without wrap-around the array and front are kept; when the ring fills, the array grows to 4n/3+2 slots with the contents in order from index 0 |
| Queue.Grow | geode/structure/Queue.h:22-29 | the two copy loops of enqueue's growth fill a fresh array of 4n/3+2 slots with the ring's elements in FIFO order from index 0 |
| Queue.Queue.Dequeue | geode/structure/Queue.h:32-38 | on a non-empty queue the oldest element is returned and removed, and the array is kept (FIFO) |
| Queue.Queue.Clear | geode/structure/Queue.h:64-66 | clear() empties the queue and keeps the array |
| Stl.Contains | utility/stl.h:104-110 | the linear scan of contains(v, x) returns true exactly when x occurs in v |
| Stl.MapCount | utility/stl.h:113-115 | std::map::count is 0 or 1, and 1 exactly for a key of the map |
| Stl.SetCount | utility/stl.h:118-120 | std::set::count is 0 or 1, and 1 exactly for a member of the set |
| Stl.ContainsKey | utility/stl.h:113-115 | contains(m, idx) is key membership |
| Stl.ContainsElement | utility/stl.h:118-120 | contains(s, v) is set membership |
| Stl.RemovedLazyProperties | utility/stl.h:123-126 | remove_lazy(v, i) shrinks v by one, puts the old last element at i, keeps every other position and removes exactly one copy of v[i] |
| Stl.RemovedLazyCount | utility/stl.h:123-126 | the elements after remove_lazy(v, i) are the old elements less one copy of v[i] |
| Stl.FindFirst | utility/stl.h:130 | std::find stops at the first occurrence of k, and at the end exactly when k is absent |
| Stl.FindFirstIsFirst | utility/stl.h:130 | any index with k there and nowhere before it is the index std::find returns |
| Stl.RemovedFirstLazyProperties | utility/stl.h:129-135 | remove_first_lazy leaves v unchanged when k is absent and otherwise removes exactly one copy of k, shrinking v by one |
| Stl.Vector.RemoveLazy | utility/stl.h:123-126 | the vector becomes the remove_lazy result, with one copy of v[i] removed |
| Stl.Vector.RemoveFirstLazy | utility/stl.h:129-135 | the vector becomes the remove_first_lazy result |
| Stl.Vector.Extend | utility/stl.h:95-101 | extend on a vector or deque appends src's elements at the end in order |
| Stl.MakeVector | utility/stl.h:39-54 | make_vector returns a vector holding exactly the arguments, in order |
| Stl.ExtendSet | utility/stl.h:91-93 | extend on a set yields exactly the elements of dst and of src |
| Stl.FirstKey | utility/stl.h:91-93 | the first position of src with key k, or the end when k is absent |
| Stl.ExtendMap | utility/stl.h:91-93 | extend on a map keeps every existing entry and adds each new key with the value of its first occurrence in src |
| Stl.Max | utility/stl.h:138-141 | on a non-empty container the result is an element and is at least every element |
| Stl.JoinedAppend | utility/stl.h:155-159 | joining two non-empty runs puts exactly one delimiter between them |
| Stl.JoinedLength | utility/stl.h:155-159 | n elements are written with n - 1 delimiters |
| Stl.Print | utility/stl.h:152-162 | print writes cbegin, the elements separated by cdelim, then cend |
| NestedArray.Nested.Size | array/NestedArray.h:85-87 | size() is offsets.size() - 1 and is non-negative |
| NestedArray.Nested.Row | array/NestedArray.h:111-113 | operator[](i) is the flat slice [offsets[i], offsets[i+1]) |
| NestedArray.Nested.SizeOf | array/NestedArray.h:89-91 | size(i) = offsets[i+1] - offsets[i] is the length of row i |
| NestedArray.Nested.Valid | array/NestedArray.h:93-95 | valid(i), an unsigned comparison, holds exactly when 0 <= i < size() |
| NestedArray.Nested.TotalSize | array/NestedArray.h:97-99 | total_size() is the size of the flat array |
| NestedArray.Nested.At | array/NestedArray.h:105-109 | operator()(i, j) with 0 <= j < size(i) is element j of row i |
| NestedArray.AtAsWrittenReadsNextRow | array/NestedArray.h:105-109 | the bound asserted by operator()(i, j) admits j == size(i), which reads the first element of row i + 1 |
| NestedArray.Unsigned32 | array/NestedArray.h:93-95 | the unsigned cast keeps non-negative values and sends negative ones to 2^31 or above |
| NestedArray.EmptyNested | array/NestedArray.h:25-26 | the default nested array has no rows and no elements |
| NestedArray.OffsetsOf | array/NestedArray.h:71-75 | offsets are prefix sums: offsets[0] = 0, offsets[i+1] = offsets[i] + length of row i, never decreasing |
| NestedArray.ReshapeLike | array/NestedArray.h:62-68 | reshape_like succeeds exactly when the new flat array has the size of other's, and then keeps other's offsets and row sizes |
| NestedArray.Copy | array/NestedArray.h:70-83 | copy builds well-formed prefix-sum offsets and row i equals other[i] for every i |
| NestedArray.SumSizes | array/NestedArray.h:97-99 | the lengths of the first k rows add up to offsets[k], so all rows add up to total_size() |
| NestedArray.RowOf | array/NestedArray.h:111-113 | every flat position lies in exactly one row |
| Array2d.RowMajorBound | geode/array/Array2d.h:132-135 | a valid (i, j) has its row-major position i*n+j inside [0, m*n) |
| Array2d.RowMajorInjective | geode/array/Array2d.h:132-135 | distinct valid (i, j) have distinct row-major positions |
| Array2d.RowMajorPrefix | geode/array/Array2d.h:176-177 | with n columns kept, position i*n+j lies below m*n exactly when i < m |
| Array2d.FlatResizeCells | geode/array/Array2d.h:176-177 | resizing the flat array alone gives every cell its intended value when the column count is kept, the array is or becomes empty, or nothing is copied |
| Array2d.CopyOverlap | geode/array/Array2d.h:178-185 | the nested copy loop gives cell (i, j) of the new array the old value in the overlapping block and the default elsewhere |
| Array2d.ResizeGrowShrink | geode/array/Array2d.h:172-188 | growing with copying and shrinking back to the old sizes restores the array |
| Array2d.Array2d.Empty | geode/array/Array2d.h:37-38 | Array() is the 0 by 0 array |
| Array2d.Array2d.constructor | geode/array/Array2d.h:45-48 | Array(m, n) has flat storage of m*n default elements |
| Array2d.Array2d.Sizes | geode/array/Array2d.h:119-121 | sizes() is (m, n) |
| Array2d.Array2d.TotalSize | geode/array/Array2d.h:123-125 | total_size() = m*n is the number of stored elements |
| Array2d.Array2d.ValidIndex | geode/array/Array2d.h:168-170 | valid(i, j) holds exactly when 0 <= i < m and 0 <= j < n |
| Array2d.Array2d.Row | geode/array/Array2d.h:147-158 | row(i) is the n elements at flat positions i*n .. i*n+n-1 |
| Array2d.Array2d.At | geode/array/Array2d.h:132-135 | operator()(i, j) is element j of row i |
| Array2d.Array2d.Resize | geode/array/Array2d.h:172-188 | the same sizes change nothing; otherwise the sizes become (m_new, n_new) and every cell of the overlapping block keeps its value when copying; with initialize_new_elements every other cell is zero, without it nothing is promised about them |
| Array2d.Array2d.Append | geode/array/Array2d.h:259-264 | append returns the old m, adds one row holding the argument after the old rows and increments m |
| Polygon.ClosedContoursNext | geometry/polygon.h:56-72 | the result links each contour position to the next and each contour's last position to its first; it is empty for empty input |
| Polygon.LinkForward | geometry/polygon.h:61-63 | the first loop sets result[i-1] = i for every i from 1 |
| Polygon.CloseAll | geometry/polygon.h:64-70 | the second loop keeps the interior links and closes every non-empty contour |
| Polygon.ForwardInterior | geometry/polygon.h:61-63 | after the first loop every position but a contour's last links to the following position |
| Polygon.CloseContour | geometry/polygon.h:65-69 | closing contour j keeps the interior links and the contours already closed |
| Polygon.ClosedIsContourNext | geometry/polygon.h:54-55 | interior links plus closed contours are the successor relation of the contours |
| Polygon.ContourIsCycle | geometry/polygon.h:54-55 | from a non-empty contour's first position, k steps reach position first+k, and the contour length brings the walk back to the start |
| Polygon.ContourNextIsPermutation | geometry/polygon.h:54-70 | the links form a permutation of the flat positions: every link is in range and no two positions share a link |
| Polygon.NextInContour | geometry/polygon.h:61-70 | a position's link stays in its own contour: the next position, or the first for the last |
| Polygon.NextInjective | geometry/polygon.h:61-70 | two positions never link to the same position |
| PropManager.PropManager.constructor | geode/value/PropManager.cpp:12-13 | a new registry is empty and not frozen |
| PropManager.PropManager.Add | geode/value/PropManager.cpp:17-36 | a dash in the name is a ValueError; a new name while frozen is a TypeError; a new name otherwise is inserted and appended to order; an existing name with another type is a TypeError, with another default a ValueError, else the stored prop is returned; errors and existing names change nothing |
| PropManager.PropManager.Contains | geode/value/PropManager.cpp:38-40 | contains(name) holds exactly when name is a key of items |
| PropManager.PropManager.GetPtr | geode/value/PropManager.cpp:42-47 | get_ptr is null exactly when the name is absent, and otherwise the stored prop |
| PropManager.PropManager.Get | geode/value/PropManager.cpp:49-53 | get raises KeyError exactly when get_ptr finds nothing, and otherwise returns the stored prop |
| PropManager.MapCount | geode/value/PropManager.cpp:38-40 | std::map::count is 0 or 1, and 1 exactly for a key |
| BoxTree.RowSplit | geode/geometry/BoxTree.cpp:42-51 | the subtrees of a row of heap nodes are the row's existing nodes plus the subtrees of the row below |
| BoxTree.RowsBelow | geode/geometry/BoxTree.cpp:42-51 | the levels from row [a, 2a+1) downwards hold every node from a on |
| BoxTree.SizeOfRoot | geode/geometry/BoxTree.cpp:55-58 | the tree rooted at node 0 holds all the nodes |
| BoxTree.FullTree | geode/geometry/BoxTree.cpp:44-48 | with an odd node count every internal node has two children, so a subtree has one more leaf than internal nodes |
| BoxTree.LeavesOfRoot | geode/geometry/BoxTree.cpp:54-55 | a tree of 2L - 1 heap nodes has exactly L leaves |
| BoxTree.ChildSubtrees | geode/geometry/BoxTree.cpp:47-48 | the two child subtrees of a node are disjoint, lie inside the node's subtree, and cover it apart from the node |
| BoxTree.RangesHelper | geode/geometry/BoxTree.cpp:42-51 | ranges_helper sets the node's range to [count, count'), where count' = min(count + leaves below * leaf_size, prims), lays out the whole subtree as NodeOk says, and changes nothing outside the subtree |
| BoxTree.SubtreeLayout | geode/geometry/BoxTree.cpp:43-50 | the two recursive calls and the final write of the node's hi give the node's range and its subtree's layout and keep everything else |
| BoxTree.CountGlue | geode/geometry/BoxTree.cpp:45-48 | the count after an internal node is the count after its first child's leaves and then its second's |
| BoxTree.LeavesCoverPrims | geode/geometry/BoxTree.cpp:54 | ceil(prims / leaf_size) leaves of leaf_size primitives hold at least prims primitives |
| BoxTree.Ranges | geode/geometry/BoxTree.cpp:53-61 | ranges has 2L - 1 nodes for L = ceil(prims / leaf_size), none for no primitives; the root owns [0, prims); each internal node spans its first child's lo to its second child's hi with the children adjacent; each leaf holds leaf_size primitives unless it ends at prims |
| BoxTree.LeafCount | geode/geometry/BoxTree.cpp:54-55 | there are no leaves exactly when there are no primitives, and otherwise the node count 2L - 1 is odd |
| BoxTree.RootCoversAll | geode/geometry/BoxTree.cpp:57-58 | the count after the root's L leaves is prims |
| BoxTree.RangeWithin | geode/geometry/BoxTree.cpp:42-51 | a descendant's range lies inside its ancestor's range |
| BoxTree.LeafCovers | geode/geometry/BoxTree.cpp:42-51 | every position of a node's range lies in the range of some leaf below it |
| BoxTree.LeavesDisjoint | geode/geometry/BoxTree.cpp:42-51 | two different leaves below a node have disjoint ranges |
| BoxTree.LeavesPartition | geode/geometry/BoxTree.cpp:42-51 | in the layout ranges produces, every primitive in [0, prims) belongs to exactly one leaf |
| BoxTree.LeafRange | geode/geometry/BoxTree.cpp:101-106 | leaf_range is [L - 1, 2L - 1), or empty for no primitives: exactly the leaves of the 2L - 1 heap nodes |
| BoxTree.IntegerLog | geode/geometry/BoxTree.cpp:96 | integer_log(x) is the e with 2^e <= x < 2^(e+1) |
| BoxTree.Depth | geode/geometry/BoxTree.cpp:93-99 | depth(0) = 0, and otherwise 2L - 1 <= 2^depth - 1 and 2^(depth-1) - 1 <= 2L - 1, the bounds the source asserts |
| BoxTree.CheckLeafSize | geode/geometry/BoxTree.cpp:88-91 | check_leaf_size accepts exactly the positive leaf sizes and returns them unchanged |
| BoxTree.CheckPermutation | geode/geometry/BoxTree.cpp:176-179 | the counting check accepts p exactly when every entry indexes the array and every index occurs exactly once |
| BoxTree.IdentityIsPermutation | geode/geometry/BoxTree.cpp:112 | the initial p = arange(n) is a permutation |
| BoxTree.PermutationIsInjective | geode/geometry/BoxTree.cpp:177-179 | a permutation accepted by check() never repeats an index |
| BoxTree.Build | geode/geometry/BoxTree.cpp:108-118 | the constructor fails exactly for a non-positive leaf size; otherwise it keeps the leaf size, stores leaf_range, depth and the identity permutation, and lays out ranges with one node per tree node |
| Expansion.ZeroField | exact/exact_tests.cpp:30 | the empty monomial 0 has every exponent 0 |
| Expansion.PowerFields | exact/exact_tests.cpp:35 | the word 1 << 2j has field j equal to 1 and every other 2-bit field 0 |
| Expansion.VariableFields | exact/exact_tests.cpp:35 | Monomial(1) << 2*i is variable i to the first power, every other exponent 0 |
| Expansion.VariableMonomial | exact/exact_tests.cpp:35 | the monomial stored for variable i has exponent 1 in variable i and 0 in all others |
| Expansion.Variable | exact/exact_tests.cpp:32-36 | Expansion(i, v) holds exactly the constant term v and the term e_i with coefficient 1 |
| Expansion.CombinedCoef | exact/exact_tests.cpp:38-52 | after folding the terms done of y into x, each coefficient is x's plus sign times y's for the folded monomials, and no stored coefficient is zero unless x had it |
| Expansion.Sum | exact/exact_tests.cpp:38-52 | x + sign * y has every coefficient x[m] + sign * y[m]; a monomial of y is stored exactly when that sum is nonzero, one not in y exactly when x stores it; pruning is kept |
| Expansion.CombinedStep | exact/exact_tests.cpp:41-42 | one iteration adds sign * y[m] at m and erases the entry when the sum is zero |
| Expansion.Combine | exact/exact_tests.cpp:39-43 | the loop over y's terms, in any order, computes the fold of all of y into x |
| Expansion.Add | exact/exact_tests.cpp:38-44 | operator+ returns x + y with every coefficient the sum and zero entries erased |
| Expansion.Sub | exact/exact_tests.cpp:46-52 | operator- returns x - y with every coefficient the difference and zero entries erased |
| Expansion.AddThenSub | exact/exact_tests.cpp:38-52 | (x + y) - y has x's coefficients, and is x itself when x stores no zero |
| Expansion.AddDegreesFields | exact/exact_tests.cpp:54-58 | add_degrees adds the exponents of every one of the 32 variables, each modulo 4 on its own, with no carry into the next variable |
| Expansion.ShiftNibble | exact/exact_tests.cpp:57 | the masked adds never carry out of a 4-bit nibble, so shifting by a nibble commutes with add_degrees |
| Expansion.AddWordFields | exact/exact_tests.cpp:57 | field k of the masked-add word is the sum of the two fields k modulo 4 |
| Expansion.AddDegreesCommutesUnit | exact/exact_tests.cpp:54-58 | add_degrees is commutative and the constant monomial 0 is its unit |
| Expansion.PairSumRemove | exact/exact_tests.cpp:62-64 | the sum over the term pairs does not depend on the order in which the pairs are visited |
| Expansion.Product | exact/exact_tests.cpp:60-73 | the product's coefficient at m is the sum of x[s] * y[t] over the pairs with add_degrees(s, t) = m, and no stored coefficient is zero |
| Expansion.AccumulateStep | exact/exact_tests.cpp:64 | adding one pair of terms adds its contribution to the sum at every monomial |
| Expansion.AccumulatedStep | exact/exact_tests.cpp:64 | r[add_degrees(s, t)] += x[s] * y[t] keeps the accumulator equal to the running sums over the visited pairs |
| Expansion.ProductsCoverSums | exact/exact_tests.cpp:62-64 | a monomial no visited pair multiplies to has sum 0 |
| Expansion.VisitedStep | exact/exact_tests.cpp:62-63 | the nested loops never visit a pair twice |
| Expansion.AllVisited | exact/exact_tests.cpp:62-63 | once both loops finish every pair of terms of x and y has been visited |
| Expansion.AccumulateRow | exact/exact_tests.cpp:63-64 | the inner loop pairs s with every monomial of y and accumulates their products |
| Expansion.Accumulate | exact/exact_tests.cpp:61-64 | after the two loops the accumulator holds, at each reached monomial, the sum over all term pairs |
| Expansion.Prune | exact/exact_tests.cpp:65-71 | the prune loop erases exactly the zero coefficients and keeps the others |
| Expansion.Mul | exact/exact_tests.cpp:60-73 | operator* returns the product expansion |
| Expansion.SinglePairSum | exact/exact_tests.cpp:64 | the sum over one pair of terms is that pair's product |
| Expansion.MulTerms | exact/exact_tests.cpp:60-73 | the product of two single terms c*a and d*b is the single term c*d at add_degrees(a, b), or empty when c*d is 0 |
| Expansion.PrefixMinimumStep | exact/exact_tests.cpp:80-85 | entry k is a new minimum exactly when it is below the running minimum, and the running minimum is updated or kept accordingly |
| Expansion.Positive | exact/exact_tests.cpp:75-87 | positive() fails its assertions exactly on an empty expansion or on a zero coefficient met at a new minimum after the first entry; otherwise it returns whether the coefficient of the smallest monomial is positive |
| MeshIo.RStripNewlines | geode/mesh/__init__.py:51 | rstrip('\r\n') returns a prefix of the line, every removed byte is '\r' or '\n', and the result does not end in either |
| MeshIo.WordEnd | geode/mesh/__init__.py:54 | the end of the word starting at i is the first whitespace byte after it, or the end of the line |
| MeshIo.SqueezeAppend | geode/mesh/__init__.py:54 | dropping whitespace distributes over concatenation |
| MeshIo.Words | geode/mesh/__init__.py:54 | split() returns nonempty words without whitespace whose concatenation is the line with its whitespace removed |
| MeshIo.WordsEmpty | geode/mesh/__init__.py:54-55 | a line splits into no words exactly when it is all whitespace, the case the loop skips |
| MeshIo.IndexOf | geode/mesh/__init__.py:73 | the first position of the separator |
| MeshIo.SplitOnJoins | geode/mesh/__init__.py:73 | the fields of v.split('/') hold no '/' and joined with '/' give back v |
| MeshIo.ParseInt | geode/mesh/__init__.py:82 | int() accepts exactly an optional sign followed by decimal digits, and the sign decides the sign of the value |
| MeshIo.ShowNat | geode/mesh/__init__.py:134 | str() of a natural number is a nonempty string of decimal digits |
| MeshIo.ShowNatRoundTrip | geode/mesh/__init__.py:82 | reading back the digits str() writes gives the number |
| MeshIo.ParseShowNat | geode/mesh/__init__.py:82 | int(str(n)) == n and int('-' + str(n)) == -n |
| MeshIo.FaceCorners | geode/mesh/__init__.py:72-78 | an 'f' line with k - 1 vertex tokens adds k - 1 vertices and at most that many texcoords and normals |
| MeshIo.CornerVertices | geode/mesh/__init__.py:73-74 | each vertex of an 'f' line is the part of its token before the first '/' |
| MeshIo.Step | geode/mesh/__init__.py:55-78 | a blank line or a '#' command changes nothing; the only failure is the IndexError of 'usemtl'/'usemat' without a name; an 'f' line appends its corner count and its vertices |
| MeshIo.LogicalLine | geode/mesh/__init__.py:48-53 | the logical line is the raw line with trailing '\r' and '\n' removed, its final backslash replaced by the next raw line, and the reading continues after the lines consumed |
| MeshIo.StepConsistent | geode/mesh/__init__.py:70-78 | each line keeps one vertex per counted corner and at most one texcoord and normal per vertex |
| MeshIo.ParseConsistent | geode/mesh/__init__.py:47-78 | the whole loop keeps that well-formedness |
| MeshIo.StepFace | geode/mesh/__init__.py:70-78 | an 'f' line appends its count and exactly its corner lists |
| MeshIo.AddFace | geode/mesh/__init__.py:70-78 | the 'f' branch's loop over the tokens appends exactly the corners of the line |
| MeshIo.AddCorner | geode/mesh/__init__.py:73-78 | one token appends its vertex and, when present and nonempty, its texcoord and normal |
| MeshIo.ParseLines | geode/mesh/__init__.py:43-78 | the reading loop computes the parse of all the lines, and a successful parse is well formed |
| MeshIo.Dispatch | geode/mesh/__init__.py:54-78 | the loop body after split() performs exactly one line's step |
| MeshIo.ZeroBased | geode/mesh/__init__.py:82-97 | array(tokens, dtype=int) - 1 fails with ValueError exactly when some token is not an integer, and otherwise is each token's value minus one |
| MeshIo.FaceProperty | geode/mesh/__init__.py:92-97 | an empty face property list is left out, one whose length differs from the vertices' fails the assertion, and a kept one has one entry per corner |
| MeshIo.Finish | geode/mesh/__init__.py:80-100 | the result keeps the counts, holds the 0-based vertices, and its face normals and texcoords have one entry per corner |
| MeshIo.ReadObj | geode/mesh/__init__.py:37-100 | read_obj is the parse followed by the construction, and on success the counts are non-negative and add up to the number of vertices |
| MeshIo.Shifted | geode/mesh/__init__.py:152 | total + elements raises every index of every triangle by total |
| MeshIo.MergeMeshes | geode/mesh/__init__.py:144-156 | merge_meshes returns a single surface unchanged, fails for no surfaces, and otherwise concatenates the triangles, shifted by the vertex count before them and cast to int32, and the positions; the TriangleSoup built from the triangles raises ValueError when one of their vertices is negative |
| MeshIo.Int32 | geode/mesh/__init__.py:156 | astype(int32) gives a value in [-2^31, 2^31) congruent to its argument modulo 2^32, and keeps every value already in that range |
| MeshIo.SoupVerticesChecked | geode/mesh/TriangleSoup.cpp:28-33 | the non-negativity test merge_meshes relies on is the test the TriangleSoup constructor makes |
| MeshIo.MergedValid | geode/mesh/__init__.py:144-156 | when every surface's triangles index its own positions and the merged positions fit int32 indices, merge_meshes succeeds, the cast changes nothing, and the merged triangles index the merged positions |
| MeshIo.MergedRejectsNegative | geode/mesh/__init__.py:145-147 | a single raw surface with a negative vertex is refused with ValueError by the TriangleSoup constructor |
| MeshIo.MergedChecksShifted | geode/mesh/__init__.py:148-156 | the negative-vertex check runs after the shift: index -1 of a second surface names the last vertex of the first and is accepted |
| MeshIo.MergedWrapsNegative | geode/mesh/__init__.py:156 | past 2^31 merged vertices the int32 cast wraps a shifted index to a negative one and the constructor raises ValueError |
| MeshIo.MergedPositions | geode/mesh/__init__.py:150-155 | after k surfaces the merged positions number the offset of surface k, and the merged triangles all their triangles |
| MeshIo.MergedTriangle | geode/mesh/__init__.py:152-156 | triangle j of surface k sits at its place in the merged list, shifted by surface k's offset, and surface k's vertices sit at that offset in the merged positions |
| MeshIo.MergedInRange | geode/mesh/__init__.py:144-156 | when every surface's triangles index its own positions, the merged triangles index the merged positions |
| TriangleSoup.NodeCount | geode/mesh/TriangleSoup.cpp:23-34 | the constructor throws ValueError exactly when some vertex is negative; otherwise node_count bounds every vertex, is one more than a used vertex, and is 0 only for no elements |
| TriangleSoup.SortedPair | geode/mesh/TriangleSoup.cpp:43-45 | Vector::sorted() puts the two ends of an edge in increasing order |
| TriangleSoup.EdgeStreamStep | geode/mesh/TriangleSoup.cpp:42-48 | one more triangle adds its three sorted edges e0, e1, e2 to the edge stream |
| TriangleSoup.DedupProperties | geode/mesh/TriangleSoup.cpp:46-48 | keeping an edge only when the hash set first takes it keeps every edge once, and the result for a prefix is a prefix of the result |
| TriangleSoup.SegmentSoupProperties | geode/mesh/TriangleSoup.cpp:38-53 | segment_soup() holds exactly the sorted edges of the elements, each once and with its ends in increasing order |
| TriangleSoup.SegmentSoupPrefix | geode/mesh/TriangleSoup.cpp:42-49 | the segments of the first k elements are a prefix of all the segments |
| TriangleSoup.SetAppend | geode/mesh/TriangleSoup.cpp:46-48 | `if (hash.set(e)) edges.append(e)` appends e unless present and keeps the hash set equal to the edges |
| TriangleSoup.ComputeSegmentSoup | geode/mesh/TriangleSoup.cpp:38-53 | the loop computes segment_soup() |
| TriangleSoup.GetOrInsert | geode/mesh/TriangleSoup.cpp:62-64 | get_or_insert(e, hash.size()) returns e's index in the numbering, numbering a new edge next, and keeps the hash equal to the numbering |
| TriangleSoup.TriangleIds | geode/mesh/TriangleSoup.cpp:61-65 | the three lookups for one triangle number its edges e0, e1, e2 and extend the numbering exactly as segment_soup() does |
| TriangleSoup.TriangleEdges | geode/mesh/TriangleSoup.cpp:55-69 | triangle_edges()[t] holds the indices, in segment_soup(), of triangle t's three sorted edges: the two algorithms match |
| TriangleSoup.GroupedMembers | geode/mesh/TriangleSoup.cpp:77-80 | element t is listed for a key exactly when one of its keys is that key |
| TriangleSoup.GroupedSorted | geode/mesh/TriangleSoup.cpp:77-80 | the listed elements are in increasing order and in range |
| TriangleSoup.GroupedCount | geode/mesh/TriangleSoup.cpp:77-80 | element t is listed once per key of it equal to the key |
| TriangleSoup.IncidentProperties | geode/mesh/TriangleSoup.cpp:71-83 | incident_elements()[v] lists exactly the elements with v as a corner, in increasing order, each once per corner equal to v |
| TriangleSoup.CountCorners | geode/mesh/TriangleSoup.cpp:73-75 | the counting pass sets lengths[v] to the number of elements listed for v |
| TriangleSoup.PlaceCorner | geode/mesh/TriangleSoup.cpp:78-79 | `incident_elements_(p, size(p) - lengths[p]--) = t` keeps every row a filled prefix of its final value and lengths[p] the room left |
| TriangleSoup.FillElement | geode/mesh/TriangleSoup.cpp:77-80 | the three corners of one element are placed in turn |
| TriangleSoup.FillStateNext | geode/mesh/TriangleSoup.cpp:77-80 | after the last element every row is its final list |
| TriangleSoup.IncidentElements | geode/mesh/TriangleSoup.cpp:71-83 | the counting and filling passes compute incident_elements() for every node |
| TriangleSoup.MatchesReversedEdge | geode/mesh/TriangleSoup.cpp:94-95 | in a non-degenerate triangle holding v, the corner before v is w exactly when w -> v is one of its directed edges |
| TriangleSoup.FirstAdjacentSpec | geode/mesh/TriangleSoup.cpp:92-100 | the search returns the first listed element other than t that passes the test, and -1 when none does |
| TriangleSoup.AdjacentMeaning | geode/mesh/TriangleSoup.cpp:85-106 | adjacent_elements()[t][i] is -1 exactly when no other element holds v = tri[i] with the corner before v equal to w = tri[(i+1)%3]; otherwise it is the first such element |
| TriangleSoup.SearchAdjacent | geode/mesh/TriangleSoup.cpp:92-101 | the loop with its `goto found` computes that search |
| TriangleSoup.AdjacentAt | geode/mesh/TriangleSoup.cpp:91-101 | one search over the incident elements of tri[i] gives adjacent_elements()[t][i] |
| TriangleSoup.AdjacentElements | geode/mesh/TriangleSoup.cpp:85-106 | adjacent_elements() has one triple per element with each entry as specified |
| TriangleSoup.CountEdge | geode/mesh/TriangleSoup.cpp:115-116 | the two increments keep hash equal to, for each directed edge, its count plus twice the count of its reverse |
| TriangleSoup.EdgeCodes | geode/mesh/TriangleSoup.cpp:110-117 | the first loop of boundary_mesh computes those codes for every directed edge |
| TriangleSoup.KeepSegment | geode/mesh/TriangleSoup.cpp:121-125 | a segment (i, j) is kept as (i, j) when its code is 1, else as (j, i) when that code is 1 |
| TriangleSoup.ComputeBoundaryMesh | geode/mesh/TriangleSoup.cpp:108-130 | the loops compute boundary_mesh() |
| TriangleSoup.StreamsAligned | geode/mesh/TriangleSoup.cpp:108-116 | the sorted edge stream is the directed edge stream with each edge sorted |
| TriangleSoup.DirectedInSoup | geode/mesh/TriangleSoup.cpp:119-126 | every directed edge of the elements appears, sorted, in segment_soup() |
| TriangleSoup.KeptAllMembers | geode/mesh/TriangleSoup.cpp:120-126 | the second loop keeps x exactly when x has code 1 and is the segment, or is the reversed segment whose own code is not 1 |
| TriangleSoup.BoundaryMeshMembers | geode/mesh/TriangleSoup.cpp:108-130 | (a, b) is a boundary segment exactly when the directed edge a -> b is used once and b -> a never |
| TriangleSoup.FacesOf | geode/mesh/TriangleSoup.cpp:135-139 | edge_to_face lists only indices of elements |
| TriangleSoup.HingeOrientation | geode/mesh/TriangleSoup.cpp:150-154 | for a non-degenerate face around edge sn, the corner off the edge is neither end and the face runs along sn as (sn[flipped], sn[1-flipped]): the source's assert holds |
| TriangleSoup.Hinges | geode/mesh/TriangleSoup.cpp:149-154 | other[] and flipped[] are computed for every face around the edge |
| TriangleSoup.PairsCount | geode/mesh/TriangleSoup.cpp:155-156 | m faces around an edge give m(m-1)/2 tuples |
| TriangleSoup.PairsMembers | geode/mesh/TriangleSoup.cpp:155-156 | every tuple comes from a pair of faces a < b |
| TriangleSoup.EdgeBendsMeaning | geode/mesh/TriangleSoup.cpp:142-157 | the tuples of one edge number m(m-1)/2 for its m faces, each (other[a], sn[flipped[a]], sn[1-flipped[a]], other[b]) for faces a < b |
| TriangleSoup.EdgeStreamMembers | geode/mesh/TriangleSoup.cpp:135-139 | a sorted edge is a key of edge_to_face exactly when some element has it |
| TriangleSoup.AppendFace | geode/mesh/TriangleSoup.cpp:138 | get_or_insert(edge).append(t) keeps every key's list equal to the faces seen so far |
| TriangleSoup.BuildEdgeToFace | geode/mesh/TriangleSoup.cpp:134-139 | edge_to_face maps exactly the sorted edges of the elements, each to the faces having it in increasing order |
| TriangleSoup.ComputeHinges | geode/mesh/TriangleSoup.cpp:145-154 | the loop computes other[] and flipped[] |
| TriangleSoup.PairTuples | geode/mesh/TriangleSoup.cpp:155-156 | the double loop appends the tuples of every pair a < b |
| TriangleSoup.PairRow | geode/mesh/TriangleSoup.cpp:155-156 | the inner loop appends the tuples pairing face a with each later face |
| TriangleSoup.ComputeBendingTuples | geode/mesh/TriangleSoup.cpp:132-161 | bending_tuples() is the tuples of every edge of edge_to_face in its iteration order |
| TriangleSoup.VertexStreamMembers | geode/mesh/TriangleSoup.cpp:166-168 | the corner stream holds exactly the vertices used by the elements |
| TriangleSoup.InsertSpec | geode/mesh/TriangleSoup.cpp:169 | inserting into an ascending sequence keeps it ascending and adds exactly one value |
| TriangleSoup.Sort | geode/mesh/TriangleSoup.cpp:169 | sort() returns an ascending permutation of its input |
| TriangleSoup.NodesTouched | geode/mesh/TriangleSoup.cpp:163-172 | nodes_touched() is strictly increasing and holds exactly the vertices the elements use |
| TriangleSoup.CollectTouched | geode/mesh/TriangleSoup.cpp:165-168 | the loop keeps each vertex the first time the hash set takes it |
| TriangleSoup.TouchCorners | geode/mesh/TriangleSoup.cpp:166-168 | one element's three corners offered to the hash set keep the list equal to the deduplicated stream |
| TriangleSoup.DistinctSorted | geode/mesh/TriangleSoup.cpp:169 | sorting values without repeats gives a strictly increasing sequence |
| TriangleSoup.NextPrevSound | geode/mesh/TriangleSoup.cpp:176-185 | next[(i, j)] = k and prev[(i, k)] = j only where (i, j, k) is an element or one of its rotations |
| TriangleSoup.NextKeys | geode/mesh/TriangleSoup.cpp:178-181 | the keys of next are exactly the directed edges of the elements |
| TriangleSoup.BuildNextPrev | geode/mesh/TriangleSoup.cpp:178-185 | the first loop of sorted_neighbors fills next and prev as specified, the later element winning |
| TriangleSoup.WalkForwardLinks | geode/mesh/TriangleSoup.cpp:203-206 | a successful forward walk links each entry to the next through next |
| TriangleSoup.SortedRowsMeaning | geode/mesh/TriangleSoup.cpp:189-210 | sorted_neighbors fails with RuntimeError exactly when some node's walk fails, and otherwise row i is node i's walked row |
| TriangleSoup.SortedRowLinks | geode/mesh/TriangleSoup.cpp:193-206 | a walked row has one entry per neighbour, and consecutive entries j, k come from an element (i, j, k) |
| TriangleSoup.SortedNeighborsMeaning | geode/mesh/TriangleSoup.cpp:174-214 | on success, sorted_neighbors()[i] has as many entries as node i's neighbours, each consecutive pair spanning an element around i |
| TriangleSoup.ComputeSortedNeighbors | geode/mesh/TriangleSoup.cpp:174-214 | the loops compute sorted_neighbors() |
| TriangleSoup.SortRow | geode/mesh/TriangleSoup.cpp:193-209 | one node's backward walk and forward walk give its sorted row, or the KeyError |
| TriangleSoup.SortedRowsStep | geode/mesh/TriangleSoup.cpp:189-210 | one more successful node appends its row |
| TriangleSoup.Fan | geode/mesh/TriangleSoup.cpp:297-304 | the fan of v is the elements of incident_elements()[v], in order |
| TriangleSoup.Ring | geode/mesh/TriangleSoup.cpp:303-308 | the one ring has one oriented segment per incident triangle |
| TriangleSoup.ReportedFails | geode/mesh/TriangleSoup.cpp:296-352 | the node loop fails exactly when some verdict raises |
| TriangleSoup.ReportedMembers | geode/mesh/TriangleSoup.cpp:296-352 | otherwise it lists, strictly increasing, exactly the nodes found non-manifold |
| TriangleSoup.NonmanifoldMembers | geode/mesh/TriangleSoup.cpp:290-354 | nonmanifold_nodes(allow_boundary) raises exactly when some node's check raises, and otherwise lists, increasing, exactly the non-manifold nodes |
| TriangleSoup.EndsStep | geode/mesh/TriangleSoup.cpp:311-318 | one more ring segment keeps the ends distinct exactly when its source has no next and its target no prev yet |
| TriangleSoup.AddSegmentSpec | geode/mesh/TriangleSoup.cpp:312-317 | recording a segment fails exactly when its source already has a next or its target a prev, and otherwise the table records the ring so far |
| TriangleSoup.LinksSpec | geode/mesh/TriangleSoup.cpp:310-318 | the topology loop succeeds exactly when no node has two outgoing or two incoming segments, and then its table records exactly the ring |
| TriangleSoup.DegenerateReported | geode/mesh/TriangleSoup.cpp:305-306 | every vertex of a degenerate element is reported |
| TriangleSoup.EndsCard | geode/mesh/TriangleSoup.cpp:320 | with distinct ends a ring has as many sources and as many targets as segments |
| TriangleSoup.OpenRingReported | geode/mesh/TriangleSoup.cpp:328-332 | a ring with a node that has a next but no prev is reported when boundaries are not allowed |
| TriangleSoup.RingSegmentAt | geode/mesh/TriangleSoup.cpp:307 | the ring segment of a non-degenerate triangle at its corner c is the two corners after c |
| TriangleSoup.FanSegment | geode/mesh/TriangleSoup.cpp:303-308 | the ring segment of each non-degenerate incident triangle is the two corners after v in it |
| TriangleSoup.RingEntry | geode/mesh/TriangleSoup.cpp:303-308 | where no element has the edge a -> v, a ends no ring segment of v |
| TriangleSoup.OpenFanReported | geode/mesh/TriangleSoup.cpp:290-354 | with boundaries not allowed, a vertex v with an edge v -> a whose reverse a -> v occurs nowhere is reported |
| TriangleSoup.CloseWalkFinds | geode/mesh/TriangleSoup.cpp:322-327 | where every node has a next, the closed-loop check finds start whenever the walk meets it within the steps |
| TriangleSoup.CloseWalkSound | geode/mesh/TriangleSoup.cpp:322-327 | it never fails there, and reports a hit only when the walk meets start within the steps |
| TriangleSoup.ClosedSources | geode/mesh/TriangleSoup.cpp:320 | when the table has one node per segment, its nodes are exactly the sources |
| TriangleSoup.ClosedRingVerdict | geode/mesh/TriangleSoup.cpp:320-327 | all closed loops: the node is bad exactly when walking next from ring[0].x returns to it in fewer steps than the ring has segments, that is, when there are several loops |
| TriangleSoup.OpenRingVerdict | geode/mesh/TriangleSoup.cpp:328-349 | one more linked node than segments, boundaries allowed: the node is reported exactly when the segments are not one path from the node without a predecessor through every linked node, so two open fans or an open fan beside a closed loop are reported and a single open fan is not |
| TriangleSoup.OpenCurveMeaning | geode/mesh/TriangleSoup.cpp:334-349 | the counting check from a linked segment never raises, and is bad exactly when the linked nodes are not one path |
| TriangleSoup.BackCountWalk | geode/mesh/TriangleSoup.cpp:334-340 | the backward walk never raises on linked nodes; it reports a closed loop only when walking prev returns to the middle, and otherwise counts the steps to a node without a prev, or as many as its fuel allows |
| TriangleSoup.ForwardCountWalk | geode/mesh/TriangleSoup.cpp:341-346 | the forward walk never raises on linked nodes and counts the steps to a node without a next, or as many as its fuel allows |
| TriangleSoup.ClosedWalk | geode/mesh/TriangleSoup.cpp:320-327 | in that case the verdict is the closed-loop check from ring[0] |
| TriangleSoup.ClosedWalkMeaning | geode/mesh/TriangleSoup.cpp:322-327 | the walk of the ring's length minus 2 steps from ring[0].y finds the start exactly when the loop through ring[0].x has fewer nodes than the ring has segments |
| TriangleSoup.LoneTriangle | geode/mesh/TriangleSoup.cpp:330-349 | a lone non-degenerate triangle is manifold with boundary: reported only when boundaries are not allowed |
| TriangleSoup.ReportedStep | geode/mesh/TriangleSoup.cpp:350-351 | one more node: a raised error ends the loop, a bad verdict appends the node |
| TriangleSoup.CollectRing | geode/mesh/TriangleSoup.cpp:301-308 | the ring loop stops at a degenerate incident element exactly when there is one, and otherwise collects the one ring of i |
| TriangleSoup.BuildLinks | geode/mesh/TriangleSoup.cpp:310-318 | the topology loop computes the link table, or stops at the first clash |
| TriangleSoup.CheckClosed | geode/mesh/TriangleSoup.cpp:322-327 | the loop computes the closed-loop check, with KeyError at an unknown node |
| TriangleSoup.CountBack | geode/mesh/TriangleSoup.cpp:334-340 | the backward count along prev, which detects a closed loop |
| TriangleSoup.CountForward | geode/mesh/TriangleSoup.cpp:341-346 | the forward count along next |
| TriangleSoup.CheckNode | geode/mesh/TriangleSoup.cpp:297-351 | the body of the node loop computes node i's verdict |
| TriangleSoup.NonmanifoldNodes | geode/mesh/TriangleSoup.cpp:290-354 | the loops compute nonmanifold_nodes(allow_boundary) |
| CornerMesh.NewBoundary | mesh/CornerMesh.cpp:116-130 | unsafe_new_boundary changes only the boundary records, the free-list head and the boundary-edge count, which grows by one; the record array never shrinks |
| CornerMesh.RingFindMeaning | mesh/CornerMesh.cpp:57-69 | the walk around a vertex ring returns a halfedge of the ring ending at v1, and returns the invalid id exactly when no halfedge of the ring ends at v1 |
| CornerMesh.HalfedgeBetweenMeaning | mesh/CornerMesh.cpp:57-69 | halfedge(v0,v1) is an outgoing halfedge of v0 ending at v1, and is the invalid id exactly when no outgoing halfedge of v0 ends at v1 |
| CornerMesh.FirstFacing | mesh/CornerMesh.cpp:71-82 | the loop over the halfedges of f0 returns one whose reverse lies in f1, and the invalid id exactly when none does |
| CornerMesh.CommonHalfedge | mesh/CornerMesh.cpp:71-82 | common_halfedge(f0,f1) for a real f0 is a halfedge of f0 whose reverse lies in f1, invalid exactly when none exists; for an invalid f0 it is a boundary halfedge that is the reverse of a halfedge of f1 |
| CornerMesh.NewMesh | mesh/CornerMesh.cpp:37-40 | the new mesh has no vertices and no faces, satisfies the vertex properties, and its boundary free list is empty and well formed |
| CornerMesh.AddFaceChecks | mesh/CornerMesh.cpp:138-162 | when the checks of add_face pass, each of the three halfedges they found is absent or an in-range boundary record slot (liveness: CornerMeshFreeList.ChecksReady) |
| CornerMesh.ReverseOrNew | mesh/CornerMesh.cpp:185-193 | REVERSE(i) creates a boundary record, counting one more boundary edge, exactly when the halfedge was absent, and otherwise leaves the count alone |
| CornerMesh.DeleteIfValid | mesh/CornerMesh.cpp:217-219 | deleting a live boundary record lowers the boundary-edge count by one; an absent halfedge changes nothing counted |
| CornerMesh.NewFace | mesh/CornerMesh.cpp:178-193 | the new face takes index n_faces, is appended with the given vertices and no neighbours, n_faces grows by one and the boundary count grows by three minus the number of halfedges that already existed |
| CornerMesh.DeleteExisting | mesh/CornerMesh.cpp:217-219 | deleting the old boundary records of the existing halfedges lowers the boundary count by their number and touches only the boundary records and free list |
| CornerMesh.RenameLast | mesh/CornerMesh.cpp:504-514 | the renaming moves the vertices of the last face into slot f and leaves every other face's vertices in place |
| CornerMesh.UnsafeDeleteFace | mesh/CornerMesh.cpp:470-519 | unsafe_delete_face removes exactly one face slot, lowers n_faces by one and keeps the vertices |
| CornerMesh.DeleteNearAll | mesh/CornerMesh.cpp:472-479 | the first loop of unsafe_delete_face lowers the boundary count by the number of neighbours that were boundary records |
| CornerMesh.DeleteNewAll | mesh/CornerMesh.cpp:482-488 | the second loop adds one boundary record for each neighbour that was an interior halfedge, and keeps every face's vertices |
| CornerMesh.DeleteIncidentFaces | mesh/CornerMesh.cpp:460-468 | deleting the faces around the last vertex never adds a face slot and keeps the number of vertices (the length of vertex_to_edge) |
| CornerMeshLemmas.SecondBoundaryMeaning | mesh/CornerMesh.cpp:416-425 | the inner loop of is_manifold_with_boundary finds a boundary halfedge exactly when one occurs in the ring after its first halfedge |
| CornerMeshLemmas.ManifoldWithBoundaryMeaning | mesh/CornerMesh.cpp:411-428 | is_manifold_with_boundary holds exactly when the mesh is closed or no vertex whose stored halfedge is a boundary has a second boundary halfedge among its outgoing ones |
| CornerMeshLemmas.BadBoundaryVertexMeaning | mesh/CornerMesh.cpp:414-425 | the test at one vertex fails exactly when its stored halfedge is a boundary one and another outgoing halfedge is too |
| CornerMeshLemmas.ElementsKept | mesh/CornerMesh.cpp:395-401 | elements() depends only on the faces' vertices |
| CornerMeshLemmas.ElementsAppended | mesh/CornerMesh.cpp:395-401 | appending a face to the face array appends its triangle to elements() unless it is marked deleted |
| CornerMeshLemmas.AddFaceSurgeryShape | mesh/CornerMesh.cpp:156-228 | once the checks pass, add_face appends a face with the given vertices at index n_faces, keeps every other face's vertices and the number of vertices (the length of vertex_to_edge), and counts one more face |
| CornerMeshLemmas.AddFaceElements | mesh/CornerMesh.cpp:136-228 | a successful add_face appends v to elements(), returns the old face count as the new face's id, and adds one face and no vertex |
| CornerMeshLemmas.AddFaceParity | mesh/CornerMesh.cpp:136-228 | add_face keeps 3 n_faces + n_boundary_edges even, the parity that assert_consistent checks |
| CornerMeshLemmas.AddFacesAppend | mesh/CornerMesh.cpp:230-234 | add_faces on a concatenation is add_faces on the first part then on the second, stopping at the first error |
| CornerMeshLemmas.AddFacesPrefix | mesh/CornerMesh.cpp:230-234 | if the first k triangles went in, the next one decides whether the list fails or one more triangle goes in |
| CornerMeshLemmas.AddFacesStep | mesh/CornerMesh.cpp:230-234 | a successful add_faces is add_face on the first triangle followed by add_faces on the rest, and the first step already appends its triangle and keeps the parity |
| CornerMeshLemmas.AddFacesElements | mesh/CornerMesh.cpp:230-234 | a successful add_faces appends exactly the given triangles, in order, to elements(), adds one face per triangle and keeps the parity |
| CornerMeshLemmas.AddFaceAccepts | mesh/CornerMesh.cpp:138-162 | add_face fails only with a runtime error, and succeeds exactly when the three vertices are valid, distinct and on the boundary, each of the three halfedges is absent or a boundary halfedge, and no pair of consecutive boundary halfedges would close a ring |
| CornerMeshLemmas.RelinkJoins | mesh/CornerMesh.cpp:166-175 | RELINK makes b follow a and splices the fan that ended at b to the place where a's loop continued |
| CornerMeshLemmas.FindsInteriorEdge | mesh/CornerMesh.cpp:57-69 | on a consistent mesh halfedge(v0,v1) finds every interior halfedge from v0 to v1 |
| CornerMeshLemmas.AddFaceRejectsInteriorEdge | mesh/CornerMesh.cpp:138-150 | on a consistent mesh add_face refuses a triangle one of whose halfedges is already interior |
| CornerMeshLemmas.SplitFaceShape | mesh/CornerMesh.cpp:236-257 | split_face fails with an assertion error exactly when f is not a valid face or c is not an in-range isolated vertex; otherwise f becomes (v0,v1,c), two faces (v1,v2,c) and (v2,v0,c) are appended, the other faces keep their vertices, n_faces grows by two and c points at a halfedge of f |
| CornerMeshLemmas.SplitWriteVertices | mesh/CornerMesh.cpp:244-251 | one UPDATE write sets the vertices of its face and of no other |
| CornerMeshLemmas.SplitUpdateVertices | mesh/CornerMesh.cpp:244-251 | UPDATE(i) gives face fs[i] the triangle (v[i], v[i+1], c) and keeps the vertices of the other faces |
| CornerMeshLemmas.SplitUpdatesShape | mesh/CornerMesh.cpp:244-254 | the three UPDATE steps write the three triangles around c and change only faces, boundary records and vertex_to_edge, with no size change |
| CornerMeshLemmas.SplitUpdatesOld | mesh/CornerMesh.cpp:244-254 | after the three UPDATE steps the old face holds (v0,v1,c) |
| CornerMeshLemmas.SplitUpdatesFirstNew | mesh/CornerMesh.cpp:244-254 | after the three UPDATE steps the first new face holds (v1,v2,c) |
| CornerMeshLemmas.SplitUpdatesKeep | mesh/CornerMesh.cpp:244-254 | the three UPDATE steps keep the vertices of every face other than the three written |
| CornerMeshLemmas.SplitFaceParity | mesh/CornerMesh.cpp:236-257 | split_face keeps 3 n_faces + n_boundary_edges even |
| CornerMeshLemmas.UnsafeDeleteFaceShape | mesh/CornerMesh.cpp:470-519 | unsafe_delete_face drops one face slot and one from n_faces, moves the last face's vertices into slot f, keeps the others, and changes the boundary count by the interior neighbours minus the boundary neighbours |
| CornerMeshLemmas.UnsafeDeleteFaceParity | mesh/CornerMesh.cpp:470-519 | when each neighbour of f is absent, a boundary record or a corner of another face, unsafe_delete_face keeps 3 n_faces + n_boundary_edges even |
| CornerMeshLemmas.ElementsMoveLast | mesh/CornerMesh.cpp:504-518 | moving the last face into slot f and popping it replaces element f by the last element and drops the last |
| CornerMeshLemmas.UnsafeDeleteFaceElements | mesh/CornerMesh.cpp:470-519 | on a mesh with no deleted faces, unsafe_delete_face turns elements() into elements() with entry f replaced by the last entry and the last entry removed |
| CornerMeshLemmas.FlipSafeMeaning | mesh/CornerMesh.cpp:265-280 | is_flip_safe holds exactly when e0 is valid, neither e0 nor its reverse is a boundary, the two opposite vertices differ and are not yet joined by a halfedge; flip_edge throws a runtime error exactly when it is false and otherwise performs unsafe_flip_edge |
| CornerMeshLemmas.ReverseAfterSetReverse | mesh/CornerMesh.cpp:282-311 | unsafe_set_reverse(f,i,r) makes 3f+i and r each other's reverse and keeps every other reverse |
| CornerMeshLemmas.UnsafeFlipEdgeStages | mesh/CornerMesh.cpp:282-311 | unsafe_flip_edge writes the faces and boundary records in its stages: the two vertex writes, the pairing of the two first corners and the four outer reverses |
| CornerMeshLemmas.UnsafeFlipEdgeVertices | mesh/CornerMesh.cpp:282-311 | unsafe_flip_edge returns 3 f0, rewrites f0 to (o0,o1,v1) and f1 to (o1,o0,v0), keeps every other face's vertices and all the counters |
| CornerMeshLemmas.FlipStagesVertices | mesh/CornerMesh.cpp:292-293 | the vertex writes of the flip give f0 and f1 their new triangles and keep the other faces |
| CornerMeshLemmas.FlipRewiring | mesh/CornerMesh.cpp:294-299 | the reverse writes of the flip pair 3 f0 with 3 f1 and attach the four outer halfedges to their new corners, leaving every other reverse |
| CornerMeshLemmas.FlipStagesRewired | mesh/CornerMesh.cpp:292-299 | after the writes of the flip every reverse is the rewired one |
| CornerMeshLemmas.UnsafeFlipEdgeReverses | mesh/CornerMesh.cpp:282-311 | after unsafe_flip_edge, 3 f0 and 3 f1 are each other's reverse, the four outer halfedges are glued to the corners that now face them, and every other reverse is unchanged |
| CornerMeshLemmas.ScatterHit | mesh/CornerMesh.cpp:565-577 | the scatter puts src[i] at perm[i] when no other index maps there |
| CornerMeshLemmas.ScatterMiss | mesh/CornerMesh.cpp:565-577 | a slot no index maps to keeps the fill value |
| CornerMeshLemmas.ScatterFrom | mesh/CornerMesh.cpp:565-577 | every slot of the scatter holds the fill value or the entry of an index mapped there |
| CornerMeshLemmas.Pigeonhole | mesh/CornerMesh.cpp:565-577 | a map of 0..n-1 into itself that hits every slot is injective, which is why the "no slot left at deleted" assertion is the permutation check |
| CornerMeshLemmas.InjectiveHitsAll | mesh/CornerMesh.cpp:565-577 | a permutation hits every slot |
| CornerMeshLemmas.PermuteVerticesAccepts | mesh/CornerMesh.cpp:560-577 | with check on, permute_vertices succeeds exactly when the permutation has one entry per vertex and is a permutation of 0..n-1 |
| CornerMeshLemmas.PermuteVerticesMovesEdges | mesh/CornerMesh.cpp:565-577 | permute_vertices moves the stored halfedge of v to perm[v] |
| CornerMeshLemmas.PermuteSrc | mesh/CornerMesh.cpp:580-586 | after permute_vertices the source of every valid halfedge is perm applied to its old source |
| CornerMeshLemmas.PermuteVerticesKeepsVertexProps | mesh/CornerMesh.cpp:560-587 | permute_vertices keeps the vertex properties that assert_consistent checks |
| CornerMeshLemmas.NewBoundaryReuse | mesh/CornerMesh.cpp:116-130 | unsafe_new_boundary takes the head of the free list when there is one, whose next becomes the new head, and otherwise appends a record with id -1-size; either way the record gets src and reverse, every other record is kept and one more boundary edge is counted |
| CornerMeshLemmas.FreeChainLength | mesh/CornerMesh.cpp:383-392 | the free list walked within a limit has at most that many records |
| CornerMeshLemmas.NewBoundaryFreeList | mesh/CornerMesh.cpp:116-130 | unsafe_new_boundary keeps the free list a chain of distinct deleted records ending at the invalid id |
| CornerMeshLemmas.SetDeletedFreeList | mesh/CornerMesh.cpp:217-219 | unsafe_set_deleted pushes the record onto the free list, marks its source deleted, and keeps the free list well formed |
| CornerMeshFreeList.KeepsList | mesh/CornerMesh.cpp:383-392 | a write that keeps every source and every next field except that of a record not on the free list keeps the free list, its count check and the marking of its records |
| CornerMeshFreeList.BoundaryLinkSteady | mesh/CornerMesh.cpp:169-171 | unsafe_boundary_link(p, n) from a record that is not deleted keeps the free list and its count check |
| CornerMeshFreeList.SetDeletedMarked | mesh/CornerMesh.cpp:217-219 | deleting a live boundary record pushes it, marked, onto the free list and leaves every other live record live |
| CornerMeshFreeList.NewBoundaryMarked | mesh/CornerMesh.cpp:116-130 | a new boundary record with a real source leaves the free list, the records left on it stay marked deleted, and live records are untouched |
| CornerMeshFreeList.SplitFaceFreeList | mesh/CornerMesh.cpp:236-257 | split_face keeps the free list and the count check of assert_consistent as they were |
| CornerMeshFreeList.FlipCountsKept | mesh/CornerMesh.cpp:282-310 | unsafe_flip_edge writes no next field or source of a boundary record, and keeps the free-list head, n_boundary_edges and n_faces |
| CornerMeshFreeList.UnsafeFlipEdgeFreeList | mesh/CornerMesh.cpp:282-310 | unsafe_flip_edge keeps the free list, its count check and the parity of 3 n_faces + n_boundary_edges |
| CornerMeshFreeList.ChecksReady | mesh/CornerMesh.cpp:138-162 | once the checks of add_face pass, the existing halfedges are live boundary records, pairwise distinct, and each far side found for a relink is live |
| CornerMeshFreeList.AddFaceFreeList | mesh/CornerMesh.cpp:136-228 | on a consistent mesh with marked free records and valid reverses, add_face keeps the free-list count check and the marking |
| CornerMeshFreeList.DeleteReadyOf | mesh/CornerMesh.cpp:470-501 | the neighbours of a live face are corners or live boundary records, pairwise distinct, and the prev of each boundary neighbour is live and is neither that neighbour nor the one the third loop pairs with it |
| CornerMeshFreeList.DeleteNearAllMarked | mesh/CornerMesh.cpp:472-479 | the first loop of unsafe_delete_face puts each boundary neighbour, marked, on the free list, remembers the prev it had, and leaves other live records live |
| CornerMeshFreeList.DeleteNewAllMarked | mesh/CornerMesh.cpp:481-488 | the records the second loop creates are not deleted, and live records are untouched |
| CornerMeshFreeList.FixSafeFrom | mesh/CornerMesh.cpp:490-501 | after the first two loops, whenever the third loop links, it links from a new record or from the live prev of a deleted neighbour, never from a deleted record |
| CornerMeshFreeList.DeleteFixSteady | mesh/CornerMesh.cpp:490-501 | one corner of the third loop keeps the free list when the record it links from is not deleted |
| CornerMeshFreeList.RenameLastSteady | mesh/CornerMesh.cpp:503-514 | renaming the last face into slot f keeps the free list |
| CornerMeshFreeList.UnsafeDeleteFaceFreeList | mesh/CornerMesh.cpp:470-519 | on a consistent mesh with marked free records and reverses that are valid and pair up, unsafe_delete_face of a live face keeps the free-list count check and the marking |
| CornerMeshDeletion.UnsafeDeleteFaceTriples | mesh/CornerMesh.cpp:503-518 | unsafe_delete_face removes exactly the vertex triple of the deleted face from the multiset of face triples |
| CornerMeshDeletion.DeleteIncidentFacesTriples | mesh/CornerMesh.cpp:462-464 | when each face the loop deletes has v as a corner, the loop stops with v isolated and keeps every triple without v with its multiplicity |
| CornerMeshDeletion.IncidentFaceOf | mesh/CornerMesh.cpp:463-464 | on a mesh passing the vertex, ring and halfedge checks with paired reverses, face(reverse(halfedge(v))) of a vertex that is not isolated is a live face with v as a corner |
| CornerMeshDeletion.BoundaryLeaving | mesh/CornerMesh.cpp:369-380 | a vertex with a boundary halfedge leaving it stores a boundary halfedge |
| CornerMeshDeletion.IsolatedAbsent | mesh/CornerMesh.cpp:369-382 | with consistent rings, an isolated vertex is a corner of no live face |
| CornerMeshDeletion.UnsafeDeleteLastVertexMeaning | mesh/CornerMesh.cpp:460-468 | unsafe_delete_last_vertex lowers n_vertices by one and drops the last vertex entry, keeps every triple without that vertex, and, with consistent rings after the loop, leaves the vertex in no live face |
| CornerMeshLemmas.DegreeZeroIffIsolated | mesh/CornerMesh.cpp:437-442 | degree(v) is zero exactly when v is isolated |
| CornerMeshLemmas.LoopFromChain | mesh/CornerMesh.cpp:450-454 | the walk of one boundary loop follows next from its start, and when it stops early it is back at the start |
| CornerMeshLemmas.LoopsFromCover | mesh/CornerMesh.cpp:444-458 | every start halfedge was seen before or lies in one of the loops found |
| CornerMeshLemmas.BoundaryLoopsCover | mesh/CornerMesh.cpp:444-458 | every live boundary halfedge lies in some loop of boundary_loops() |
| CornerMeshFindings.BowtieBuilt | mesh/CornerMesh.cpp:230-234 | add_faces on five vertices builds the two triangles (0,1,2) and (0,3,4) that meet at vertex 0 |
| CornerMeshFindings.BowtieConsistent | mesh/CornerMesh.cpp:313-393 | the bowtie that add_faces builds passes every check of assert_consistent: stored halfedges, counts, parity, the per-halfedge checks, distinct vertex pairs, rings that reach every halfedge and the free list |
| CornerMeshFindings.BowtieDistinctPairs | mesh/CornerMesh.cpp:362-367 | no two live halfedges of the bowtie join the same ordered pair of vertices |
| CornerMeshFindings.BowtieRingProps | mesh/CornerMesh.cpp:369-381 | swinging around each vertex of the bowtie from its stored halfedge reaches exactly the halfedges leaving it, and each vertex is a boundary vertex with a boundary halfedge in its ring |
| CornerMeshFindings.BowtieChecks | mesh/CornerMesh.cpp:156-162 | on that mesh the closed-ring check as written lets (1,0,2) through, and the check comparing with a rejects it |
| CornerMeshFindings.ClosedRingBroken | mesh/CornerMesh.cpp:166-228 | the surgery that follows leaves a live boundary halfedge out of 0 that the ring of 0 no longer reaches, which breaks the ring property |
| CornerMeshFindings.ClosedRingAsWritten | mesh/CornerMesh.cpp:156-162 | add_face as written accepts (1,0,2) on the bowtie and returns a mesh that fails the reachability check of assert_consistent |
| CornerMeshFindings.ClosedRingRejected | mesh/CornerMesh.cpp:156-162 | add_face with the intended check refuses (1,0,2) on the bowtie with a runtime error |
| CornerMeshObjects.CornerMesh.constructor | mesh/CornerMesh.cpp:37-40 | the new object holds the empty mesh |
| CornerMeshObjects.CornerMesh.NewBoundary | mesh/CornerMesh.cpp:116-130 | the state and the returned id are those of unsafe_new_boundary |
| CornerMeshObjects.CornerMesh.Halfedge | mesh/CornerMesh.cpp:57-69 | the ring walk returns halfedge(v0,v1) |
| CornerMeshObjects.CornerMesh.RightAroundDstToBoundary | mesh/CornerMesh.cpp:94-99 | the swing around the destination returns the first boundary halfedge it meets |
| CornerMeshObjects.CornerMesh.FixVertexToEdge | mesh/CornerMesh.cpp:103-113 | the ring walk points v at the first boundary halfedge of its ring from start, or at start |
| CornerMeshObjects.CornerMesh.AddVertex | mesh/CornerMesh.cpp:84-87 | the state gains one isolated vertex whose id is returned |
| CornerMeshObjects.CornerMesh.AddVertices | mesh/CornerMesh.cpp:89-92 | the state gains n isolated vertices |
| CornerMeshObjects.CornerMesh.AddFace | mesh/CornerMesh.cpp:136-228 | a successful add_face leaves the state and the face id of the model, whose closed-ring test compares with a; a failed one returns the error and leaves the state unchanged (corrected; see Findings) |
| CornerMeshObjects.CornerMesh.AddFaces | mesh/CornerMesh.cpp:230-234 | the loop fails exactly when the model does, leaves its result on success, and on failure leaves the state after the longest prefix that went in |
| CornerMeshObjects.CornerMesh.SplitFace | mesh/CornerMesh.cpp:236-257 | split_face succeeds exactly when the model does and leaves its state; on failure the state is unchanged |
| CornerMeshObjects.CornerMesh.SplitFaceNew | mesh/CornerMesh.cpp:259-263 | split_face(f) adds a vertex and splits f at it; the vertex stays when the split fails |
| CornerMeshObjects.CornerMesh.IsFlipSafe | mesh/CornerMesh.cpp:265-274 | returns is_flip_safe(e0) |
| CornerMeshObjects.CornerMesh.UnsafeFlipEdge | mesh/CornerMesh.cpp:282-311 | the state and returned halfedge are those of unsafe_flip_edge |
| CornerMeshObjects.CornerMesh.FlipEdge | mesh/CornerMesh.cpp:276-280 | an unsafe flip returns the error and leaves the state; a safe one performs the flip |
| CornerMeshObjects.CornerMesh.Elements | mesh/CornerMesh.cpp:395-401 | the loop collects the triangles of the live faces in order |
| CornerMeshObjects.CornerMesh.IsManifoldWithBoundary | mesh/CornerMesh.cpp:411-428 | the loops return is_manifold_with_boundary() |
| CornerMeshObjects.CornerMesh.HasIsolatedVertices | mesh/CornerMesh.cpp:430-435 | the loop returns whether some vertex is isolated |
| CornerMeshObjects.CornerMesh.Degree | mesh/CornerMesh.cpp:437-442 | the loop counts the ring around v |
| CornerMeshObjects.CornerMesh.WalkLoop | mesh/CornerMesh.cpp:450-454 | the do-while follows next from start back to start and marks each halfedge seen |
| CornerMeshObjects.CornerMesh.BoundaryLoops | mesh/CornerMesh.cpp:444-458 | the loops return boundary_loops() |
| CornerMeshObjects.CornerMesh.UnsafeDeleteFace | mesh/CornerMesh.cpp:470-519 | the state becomes that of unsafe_delete_face(f) |
| CornerMeshObjects.CornerMesh.UnsafeDeleteLastVertex | mesh/CornerMesh.cpp:460-468 | the faces around the last vertex are deleted and the vertex popped |
| CornerMeshObjects.CornerMesh.ScatterEdges | mesh/CornerMesh.cpp:565-577 | the scatter fails exactly when check is on and some entry is out of range, and otherwise returns the scattered vertex_to_edge |
| CornerMeshObjects.CornerMesh.MapFaces | mesh/CornerMesh.cpp:580-583 | every live face's vertices are renamed by the permutation |
| CornerMeshObjects.CornerMesh.MapBoundaries | mesh/CornerMesh.cpp:584-586 | every live boundary record's source is renamed by the permutation |
| CornerMeshObjects.CornerMesh.PermuteVertices | mesh/CornerMesh.cpp:560-587 | permute_vertices succeeds exactly when the model does and leaves its state; a failed assertion leaves the state unchanged |

## Left out

- Integer widths: halfedge, face and vertex ids and the counters are 32-bit `int`s in the source. The model uses unbounded integers, so overflow past 2^31 ids is not modelled. The lemmas that need ids to fit ask for fewer than 2^31-1 vertices or boundary records.
- `CornerMesh.h` is not part of this model. The primitives it defines are rebuilt from their use in `mesh/CornerMesh.cpp`, as the introduction describes.
- Ring walks: `halfedge(v0,v1)`, `fix_vertex_to_edge`, `right_around_dst_to_boundary`, `degree`, `is_manifold_with_boundary` and the loop walk of `boundary_loops` run with a fuel bound equal to the number of halfedge slots. On a consistent mesh every ring is shorter than that bound. That the walks terminate without it is not proved.
- CornerMeshLemmas.AddFaceParity: of the invariants `assert_consistent` checks, two are proved preserved by whole operations: the parity of 3 n_faces + n_boundary_edges (add_face, add_faces, split_face, unsafe_delete_face) and the free-list count (CornerMeshFreeList.AddFaceFreeList, SplitFaceFreeList, UnsafeDeleteFaceFreeList, UnsafeFlipEdgeFreeList, which also gives parity for unsafe_flip_edge).
- CornerMesh.DistinctPairs: not proved kept by add_face. The pair of a boundary record is its source and the source of its next, and add_face rewrites next fields in its RELINK and LINK steps. Showing that each relink joins records meeting at the same vertex needs the rings around the three vertices after the surgery, which are not proved (next line).
- CornerMesh.RingProps: not proved kept by any edit. The rings are Left walks bounded by the slot count; restating them after an edit means re-walking every ring through the relinked records, which the model does not do. The per-halfedge checks (CornerMesh.HalfedgeProps) are not proved kept for the same reason: they refer to common_halfedge, a search over the faces.
- CornerMeshFreeList.AddFaceFreeList: asks, besides `CornerMesh.Consistent`, that every record on the free list is marked deleted (FreeMarked) and that the reverse of a valid halfedge is valid (ReverseLive). Neither is checked by `assert_consistent`. FreeMarked is proved kept by add_face, split_face and unsafe_delete_face; ReverseLive is not proved kept.
- CornerMeshFreeList.UnsafeDeleteFaceFreeList: asks in addition that reverse(reverse(e)) == e for valid e (ReversePaired), which `assert_consistent` does not check and which is not proved kept.
- CornerMeshLemmas.UnsafeDeleteFaceParity: needs each neighbour of the deleted face to be absent, a boundary record or a corner of another face, a consequence of `assert_consistent` stated directly.
- CornerMesh.DeleteIncidentFaces: also stops when face(reverse(halfedge(v))) is not a face slot, where the source would index out of range. CornerMeshDeletion.IncidentFaceOf shows that this exit is not taken on the first step from a mesh passing the checks. CornerMeshDeletion.DeleteIncidentFacesTriples takes as hypothesis (Detachable) that it is never taken, since the checks are not proved kept by unsafe_delete_face.
- CornerMeshDeletion.UnsafeDeleteLastVertexMeaning: that the removed vertex is in no live face is proved when the rings are consistent after the loop, which is not proved from the input.
- CornerMeshLemmas.BoundaryLoopsCover: proves that every live boundary halfedge lies in some loop, and CornerMeshLemmas.LoopFromChain that each loop follows `next`. That no halfedge lies in two loops is not proved, because it needs `next` to be injective on the boundary records.
- CornerMeshLemmas.UnsafeFlipEdgeReverses: asks, besides `is_flip_safe`, for facts that `assert_consistent` would give: the reverse of e0 lies in another face, and the four outer halfedges exist, differ, and lie outside both faces. The vertex_to_edge repairs are modelled but no lemma states that they keep each stored halfedge leaving its vertex.
- CornerMeshObjects.CornerMesh: the boundary records, face records and vertex array are `seq` fields that the methods reassign rather than arrays written in place. `faces_.flat.resize` and the pops are sequence updates.
- The randomised drivers `corner_random_edge_flips`, `corner_random_face_splits` and `corner_mesh_destruction_test` need a random generator. `dump_internals` only prints. Their assertions appear as the flip, split and delete lemmas.
- Copy construction and `copy()` of CornerMesh only duplicate the stores; a value model has nothing to copy.
- TriangleSoup: the caches that memoise each query are dropped, since every answer depends only on the elements.
- TriangleSoup.ComputeBendingTuples: the source iterates a `Hashtable`, whose order is not visible. The order is a parameter that must list each edge of the table once, and the result is proved for every such order.
- TriangleSoup.ComputeSortedNeighbors: `SegmentSoup::neighbors` is not part of this model. Its rows are a parameter.
- TriangleSoup.Sort: `sort.h` is not part of this model. It is modelled by an insertion sort proved sorted and a permutation.
- TriangleSoup.NonmanifoldNodes: the walks along a vertex's fan are bounded by the number of fan segments. That they end sooner on every input is not proved.
- BoxTree: the geometric build (the boxes, `nth_element` over centres, `update_nonleaf_boxes`) uses floating point. BoxTree.Build models only the integer layout, the leaf size check and the identity permutation.
- Expansion: `operator<<` only formats text. Coefficients are unbounded rather than 64-bit.
- Expansion.Positive: `unordered_map` iteration order is not visible. The order is a parameter that must list each monomial once.
- MeshIo.ReadObj: file reading, numpy array conversion and float parsing of coordinates are left out. The reader runs over the lines the file yields, and coordinates stay as their text tokens.
- MeshIo.MergeMeshes: a single surface passed as a raw array is checked only for negative vertices; the conversion of its numpy dtype to the constructor's int32 triangles is not modelled, and an existing TriangleSoup is represented by its triangles.
- PropManager: the `type_info` and default-value comparisons are modelled as equality of opaque values.
- The debug `assert` in `NestedArray::operator()` is stated as a precondition of NestedArray.Nested.At, with its intended bound; see Findings.

## Findings

| source | as written | input that shows it | evidently intended | confidence | as-written member | corrected member |
|---|---|---|---|---|---|---|
| mesh/CornerMesh.cpp:158 | the closed-ring check rejects the face when `b==c`, but c is the boundary halfedge at the far end of b's fan and ends at b's source, so it never equals b | vertices 0..4, faces (0,1,2) and (0,3,4), then add_face((1,0,2)): the face closes the fan of (0,1,2) into a ring, the check lets it through and a boundary halfedge out of 0 becomes unreachable around 0 | reject when `a==c`, the fan of b ending at a | medium, not executed | CornerMeshFindings.ClosedRingAsWritten | CornerMeshFindings.ClosedRingRejected |
| geode/structure/Quintuple.h:28-30 | operator== returns the comparison of x0..x3; the comparison of x4 is a separate statement after the `return`, so x4 is ignored | (0,0,0,0,0) and (0,0,0,0,1) compare equal | all five components compared | high, not executed | Quintuple.EqAsWrittenIgnoresX4 | Quintuple.Eq |
| array/NestedArray.h:105-109 | the bound `index<=offsets[i+1]` admits j == size(i) | in [[10],[20]], (0,1) passes the assertion and reads row 1's 20 | `index<offsets[i+1]` | medium, not executed | NestedArray.AtAsWrittenReadsNextRow | NestedArray.Nested.At |
