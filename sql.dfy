/** Column values as the store's tables hold them, and the comparison a WHERE
    clause makes between them. */
module Sql {

  /** A value that may be SQL NULL (Python's `None`). */
  datatype Option<+T> = None | Some(value: T)

  /** `a = b` in a WHERE clause. Under SQL's three-valued logic NULL compares
      unknown with everything, NULL included, so a row matches only when both
      sides hold a value and the values agree. */
  predicate Eq(a: Option<int>, b: Option<int>) {
    a.Some? && b.Some? && a.value == b.value
  }

  /** A tag or file given either by name or by numeric id (`name_id`, the
      union of `str` and `int`). */
  datatype Ref = Name(name: string) | Id(id: int)
}
