/**
 * The first-match read shared by the tables: `select(...).where(...)` read
 * with `first()` or `scalar`. Rows are taken in sequence order.
 */
module Tables {
  import opened Wrappers

  /** Index of the first row satisfying `p`, or -1 when none does. */
  function IndexWhere<T>(rows: seq<T>, p: T -> bool): (i: int)
    ensures -1 <= i < |rows|
    ensures i >= 0 ==> p(rows[i])
    ensures forall j :: 0 <= j < |rows| && (i < 0 || j < i) ==> !p(rows[j])
  {
    if rows == [] then -1
    else if p(rows[0]) then 0
    else
      var k := IndexWhere(rows[1..], p);
      if k < 0 then -1 else k + 1
  }

  /** The first row satisfying `p`, or `None` when no row does. */
  function FirstWhere<T>(rows: seq<T>, p: T -> bool): (r: Option<T>)
    ensures r.None? <==> forall j :: 0 <= j < |rows| ==> !p(rows[j])
    ensures r.Some? ==> r.value in rows && p(r.value)
  {
    var i := IndexWhere(rows, p);
    if i < 0 then None else Some(rows[i])
  }
}
