/** A nullable column value: `None` stands for SQL NULL. */
module Wrappers {

  datatype Option<+T> = None | Some(value: T)

  /** SQL equality `a = b` used as a filter or join condition: a NULL on either
      side makes the comparison NULL, which a filter or an inner join treats as false. */
  predicate SqlEquals<T(==)>(a: Option<T>, b: Option<T>)
  {
    a.Some? && b.Some? && a.value == b.value
  }
}
