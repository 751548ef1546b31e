/** Small pieces shared by the other modules. */
module Wrappers {

  datatype Option<T> = None | Some(value: T)

  /** An element of a nonempty set, for loops that take elements in any order. */
  lemma SomeElement<T>(s: set<T>) returns (t: T)
    requires s != {}
    ensures t in s
  {
    t :| t in s;
  }
}
