/** Values shared by the feedback aggregators: optional values, error results,
    calendar dates, and the order-of-appearance `unique` of a column. */
module Tables {

  datatype Option<+T> = None | Some(value: T)

  datatype Result<+R, +E> = Success(value: R) | Failure(error: E)

  /** A calendar date; a row's timestamp reduced to its date part. */
  datatype Date = Date(year: int, month: int, day: int)

  /** The distinct values of a column, each kept at its first appearance
      (pandas' `Series.unique`). */
  function Unique<T(==, !new)>(s: seq<T>): (u: seq<T>)
    ensures forall x :: x in u <==> x in s
    ensures forall i, j :: 0 <= i < j < |u| ==> u[i] != u[j]
  {
    if |s| == 0 then []
    else
      var front := Unique(s[..|s| - 1]);
      assert forall x :: x in s <==> x in s[..|s| - 1] || x == s[|s| - 1];
      if s[|s| - 1] in front then front else front + [s[|s| - 1]]
  }
}
