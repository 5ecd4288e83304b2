/** Orders on the component types that the tuple comparisons are built from. */
module Order {

  /** lt is irreflexive, transitive and total up to equality. */
  ghost predicate StrictTotal<T(!new)>(lt: (T, T) -> bool)
  {
    && (forall a :: !lt(a, a))
    && (forall a, b, c :: lt(a, b) && lt(b, c) ==> lt(a, c))
    && (forall a, b :: a == b || lt(a, b) || lt(b, a))
  }

  /** gt is lt with its arguments swapped, as `>` is meant to be for a component type. */
  ghost predicate Converse<T(!new)>(gt: (T, T) -> bool, lt: (T, T) -> bool)
  {
    forall a, b :: gt(a, b) <==> lt(b, a)
  }
}
