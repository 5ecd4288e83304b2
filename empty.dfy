/** Tuple<> of structure/Empty.h: the tuple with no components. */
module Empty {

  datatype Tuple0 = Tuple0

  /** operator== always holds, which is equality on a type with one value. */
  predicate Eq(p: Tuple0, q: Tuple0)
    ensures Eq(p, q) <==> p == q
  {
    true
  }

  /** operator!= never holds. */
  predicate Ne(p: Tuple0, q: Tuple0)
    ensures Ne(p, q) <==> p != q
  {
    false
  }

  /** operator< never holds: the order is the (empty) strict order on one value. */
  predicate Less(p: Tuple0, q: Tuple0)
    ensures Less(p, q) ==> p != q
  {
    false
  }

  /** operator> never holds, the converse of operator<. */
  predicate Greater(p: Tuple0, q: Tuple0)
    ensures Greater(p, q) <==> Less(q, p)
  {
    false
  }

  /** hash_reduce gives every empty tuple the same hash, 0, as equal values must hash alike. */
  function HashReduce(p: Tuple0): (h: int)
    ensures forall q :: Eq(p, q) ==> h == HashReduce(q)
    ensures h == 0
  {
    0
  }
}
