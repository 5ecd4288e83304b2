/** Tuple<T0,T1> of structure/Pair.h: a pair compared componentwise and lexicographically. */
module Pair {
  import opened Order

  datatype Tuple2<T0, T1> = Tuple2(x: T0, y: T1)

  /** operator==: both components equal, which is exactly equality of the pairs. */
  predicate Eq<T0(==), T1(==)>(p: Tuple2<T0, T1>, q: Tuple2<T0, T1>)
    ensures Eq(p, q) <==> p == q
  {
    p.x == q.x && p.y == q.y
  }

  /** operator!=: the negation of operator==. */
  predicate Ne<T0(==), T1(==)>(p: Tuple2<T0, T1>, q: Tuple2<T0, T1>)
    ensures Ne(p, q) <==> p != q
  {
    !Eq(p, q)
  }

  /** operator<: lexicographic on (x, y), using the components' own `<`. */
  predicate Less<T0(==), T1>(p: Tuple2<T0, T1>, q: Tuple2<T0, T1>, lt0: (T0, T0) -> bool, lt1: (T1, T1) -> bool)
  {
    lt0(p.x, q.x) || (p.x == q.x && lt1(p.y, q.y))
  }

  /** operator>: lexicographic on (x, y), using the components' own `>`. */
  predicate Greater<T0(==), T1>(p: Tuple2<T0, T1>, q: Tuple2<T0, T1>, gt0: (T0, T0) -> bool, gt1: (T1, T1) -> bool)
  {
    gt0(p.x, q.x) || (p.x == q.x && gt1(p.y, q.y))
  }

  /** get(a, b): the out-parameters receive the components, so they rebuild the pair. */
  method Get<T0, T1>(p: Tuple2<T0, T1>) returns (a: T0, b: T1)
    ensures Tuple2(a, b) == p
  {
    a := p.x;
    b := p.y;
  }

  /** When the components' `<` are strict total orders, so is the pair's. */
  lemma LessIsStrictTotal<T0(!new), T1(!new)>(lt0: (T0, T0) -> bool, lt1: (T1, T1) -> bool)
    requires StrictTotal(lt0) && StrictTotal(lt1)
    ensures forall p: Tuple2<T0, T1> :: !Less(p, p, lt0, lt1)
    ensures forall p: Tuple2<T0, T1>, q, r :: Less(p, q, lt0, lt1) && Less(q, r, lt0, lt1) ==> Less(p, r, lt0, lt1)
    ensures forall p: Tuple2<T0, T1>, q :: p == q || Less(p, q, lt0, lt1) || Less(q, p, lt0, lt1)
  {
  }

  /** When each component's `>` is the converse of its `<`, the pair's `>` is the converse of the pair's `<`. */
  lemma GreaterIsConverse<T0(!new), T1(!new)>(p: Tuple2<T0, T1>, q: Tuple2<T0, T1>,
      lt0: (T0, T0) -> bool, lt1: (T1, T1) -> bool, gt0: (T0, T0) -> bool, gt1: (T1, T1) -> bool)
    requires Converse(gt0, lt0) && Converse(gt1, lt1)
    ensures Greater(p, q, gt0, gt1) <==> Less(q, p, lt0, lt1)
  {
  }
}
