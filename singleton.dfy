/** Tuple<T0> of structure/Singleton.h: a one-element tuple that compares as its element. */
module Singleton {
  import opened Order

  datatype Tuple1<T0> = Tuple1(x: T0)

  /** operator==: the elements are equal, which is exactly equality of the tuples. */
  predicate Eq<T0(==)>(p: Tuple1<T0>, q: Tuple1<T0>)
    ensures Eq(p, q) <==> p == q
  {
    p.x == q.x
  }

  /** operator!=: the negation of operator==. */
  predicate Ne<T0(==)>(p: Tuple1<T0>, q: Tuple1<T0>)
    ensures Ne(p, q) <==> p != q
  {
    !Eq(p, q)
  }

  /** operator<: the element's own `<`. */
  predicate Less<T0>(p: Tuple1<T0>, q: Tuple1<T0>, lt0: (T0, T0) -> bool)
  {
    lt0(p.x, q.x)
  }

  /** operator>: the element's own `>`. */
  predicate Greater<T0>(p: Tuple1<T0>, q: Tuple1<T0>, gt0: (T0, T0) -> bool)
  {
    gt0(p.x, q.x)
  }

  /** get(a): the out-parameter receives the element, so it rebuilds the tuple. */
  method Get<T0>(p: Tuple1<T0>) returns (a: T0)
    ensures Tuple1(a) == p
  {
    a := p.x;
  }

  /** The tuple's `<` is a strict total order when the element's is, and its `>` is the converse. */
  lemma LessIsStrictTotal<T0(!new)>(lt0: (T0, T0) -> bool, gt0: (T0, T0) -> bool)
    requires StrictTotal(lt0) && Converse(gt0, lt0)
    ensures forall p: Tuple1<T0> :: !Less(p, p, lt0)
    ensures forall p: Tuple1<T0>, q, r :: Less(p, q, lt0) && Less(q, r, lt0) ==> Less(p, r, lt0)
    ensures forall p: Tuple1<T0>, q :: p == q || Less(p, q, lt0) || Less(q, p, lt0)
    ensures forall p: Tuple1<T0>, q :: Greater(p, q, gt0) <==> Less(q, p, lt0)
  {
  }
}
