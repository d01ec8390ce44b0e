/** What the items of a list of values may be that were decoded from an answer, if they can be looked up. */
module Scalars {
  datatype Scalar = Chars(s: string) | Whole(n: int)

  /** What counts as false: the empty string, and zero. */
  predicate Falsy(v: Scalar) {
    v == Chars("") || v == Whole(0)
  }
}
