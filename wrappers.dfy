/** Small value-level helpers shared by the other modules. */
module Wrappers {
  /** The optional value the parser returns where the source returns `Option<T>`. */
  datatype Option<+T> = None | Some(value: T)

  lemma AppendAssociative<T>(a: seq<T>, b: seq<T>, c: seq<T>)
    ensures a + (b + c) == (a + b) + c
  {
  }
}
