/** Tuple<T0,T1,T2,T3,T4> of geode/structure/Quintuple.h. */
module Quintuple {

  datatype Tuple5<T0, T1, T2, T3, T4> = Tuple5(x0: T0, x1: T1, x2: T2, x3: T3, x4: T4)

  /** The five-argument constructor stores its arguments as x0..x4, in order. */
  function Make<T0, T1, T2, T3, T4>(a: T0, b: T1, c: T2, d: T3, e: T4): (t: Tuple5<T0, T1, T2, T3, T4>)
    ensures t.x0 == a && t.x1 == b && t.x2 == c && t.x3 == d && t.x4 == e
  {
    Tuple5(a, b, c, d, e)
  }

  /**
   * operator== as written: the comparison of x4 is a separate statement after the
   * return, so only x0..x3 take part.
   */
  predicate EqAsWritten<T0(==), T1(==), T2(==), T3(==), T4>(p: Tuple5<T0, T1, T2, T3, T4>, q: Tuple5<T0, T1, T2, T3, T4>)
  {
    p.x0 == q.x0 && p.x1 == q.x1 && p.x2 == q.x2 && p.x3 == q.x3
  }

  /** Two tuples that differ only in x4 are equal under the written operator==. */
  lemma EqAsWrittenIgnoresX4()
    ensures EqAsWritten(Tuple5(0, 0, 0, 0, 0), Tuple5(0, 0, 0, 0, 1))
    ensures Tuple5(0, 0, 0, 0, 0) != Tuple5(0, 0, 0, 0, 1)
  {
  }

  /** operator== as intended: all five components equal, which is equality of the tuples. */
  predicate Eq<T0(==), T1(==), T2(==), T3(==), T4(==)>(p: Tuple5<T0, T1, T2, T3, T4>, q: Tuple5<T0, T1, T2, T3, T4>)
    ensures Eq(p, q) <==> p == q
  {
    p.x0 == q.x0 && p.x1 == q.x1 && p.x2 == q.x2 && p.x3 == q.x3 && p.x4 == q.x4
  }

  /** operator!=: the negation of operator==. */
  predicate Ne<T0(==), T1(==), T2(==), T3(==), T4(==)>(p: Tuple5<T0, T1, T2, T3, T4>, q: Tuple5<T0, T1, T2, T3, T4>)
    ensures Ne(p, q) <==> p != q
  {
    !Eq(p, q)
  }

  /** get(a, b, c, d, e): the out-parameters receive the components, so they rebuild the tuple. */
  method Get<T0, T1, T2, T3, T4>(p: Tuple5<T0, T1, T2, T3, T4>) returns (a: T0, b: T1, c: T2, d: T3, e: T4)
    ensures Tuple5(a, b, c, d, e) == p
  {
    a, b, c, d, e := p.x0, p.x1, p.x2, p.x3, p.x4;
  }
}
