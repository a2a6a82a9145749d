/** Walking an unordered range one element at a time. */
module Ranges {

  /** Some element of a non-empty set; which one is left open. */
  method AnyOf<T(==)>(range: set<T>) returns (x: T)
    requires range != {}
    ensures x in range
  {
    x :| x in range;
  }
}
