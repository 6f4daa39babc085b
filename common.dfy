/** Shared vocabulary: keys, calendar days, instants, money, and the
    failure-carrying wrappers used instead of the source's exceptions. */
module Common {

  /** Primary keys. The database hands out auto-increment ids starting at 1,
      so a saved row never has the falsy key 0. */
  type Id = x: int | x >= 1 witness 1

  /** The largest key of a non-empty set of keys. Keys are handed out in
      increasing order as rows are created, so this is the newest row, the
      one a query ordered by `-created_at` yields first. */
  ghost function Newest(ids: set<Id>): (m: Id)
    requires ids != {}
    ensures m in ids && forall id :: id in ids ==> id <= m
    decreases ids
  {
    var x :| x in ids;
    assert forall id :: id in ids ==> id == x || id in ids - {x};
    if ids - {x} == {} then
      x
    else
      var rest := Newest(ids - {x});
      if x < rest then rest else x
  }

  /** Picks the newest key of a non-empty set, as a query ordered newest
      first yields its next row. */
  method PickNewest(ids: set<Id>) returns (m: Id)
    requires ids != {}
    ensures m in ids && forall id :: id in ids ==> id <= m
  {
    ghost var newest := Newest(ids);
    m :| m in ids && forall id :: id in ids ==> id <= m;
  }

  /** A calendar date, as a day number counted from a fixed epoch. */
  type Day = int

  /** A point in time, in whole seconds from the same epoch. */
  type Instant = int

  /** An amount of money in cents (the columns hold two decimal places). */
  type Cents = int

  const SecondsPerDay: int := 86400

  datatype Option<T> = None | Some(value: T) {
    function GetOr(default: T): T {
      match this
      case Some(v) => v
      case None => default
    }
  }

  datatype Result<T, E> = Ok(value: T) | Err(error: E)

  /** The result of a guard that either passes or reports why it failed. */
  datatype Outcome<E> = Pass | Fail(error: E)
}
