/** SQL values as the handlers see them: a nullable column and the two
    ways the code turns NULL into zero. */
module Sql {

  /** A nullable column value: `None` is SQL NULL. */
  datatype Option<+T> = None | Some(value: T)

  /** `COALESCE(v, 0)` in SQL, and `v || 0` in JavaScript on an integer
      column: both give the stored integer, or 0 for NULL. */
  function OrZero(v: Option<int>): (r: int)
    ensures v.None? ==> r == 0
    ensures v.Some? ==> r == v.value
  {
    match v
    case None => 0
    case Some(n) => n
  }
}
