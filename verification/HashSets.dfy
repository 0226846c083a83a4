/** Walking the standard library's hash containers, whose order is not specified. */
module HashSets {

  /** The next element of a walk: any of those not visited yet. */
  method AnyOf<T>(s: set<T>) returns (x: T)
    requires s != {}
    ensures x in s
  {
    x :| x in s;
  }
}
