/** The `api_keys` table as the repository sees it: a sequence of rows, in the
    order a query without `orderBy` meets them, behind the soft-delete scope
    that hides every row whose `deleted_at` is set. */
module KeyTable {

  datatype Option<T> = None | Some(value: T)

  /** One row of `api_keys`, as an Eloquent model instance.
      `persisted` is the model's `exists` flag (`exists` is a Dafny keyword).
      `deletedAt` is the soft-delete timestamp; `None` is SQL null. */
  datatype Row = Row(
    id: nat,
    userId: Option<int>,
    key: string,
    level: int,
    ignoreLimits: bool,
    deletedAt: Option<int>,
    persisted: bool)

  /** The soft-delete scope: only rows whose `deleted_at` is null are seen. */
  predicate Visible(row: Row) {
    row.deletedAt.None?
  }

  /** The exact-match conditions the repository builds with `where`. */
  datatype Query =
    | ByKey(key: string)                            // where('key', '=', $key)
    | ByIdAndUserId(id: int, userId: Option<int>)   // where(['id' => $id, 'user_id' => $userId])
    | ById(id: int)                                 // where('id', $id), the soft delete's target

  predicate Matches(q: Query, row: Row) {
    match q
    case ByKey(k) => row.key == k
    case ByIdAndUserId(i, u) => row.id == i && row.userId == u
    case ById(i) => row.id == i
  }

  /** A row a scoped query returns: visible and matching. */
  predicate Selects(q: Query, row: Row) {
    Visible(row) && Matches(q, row)
  }

  /** The position `->first()` picks: the first row the scoped query selects. */
  function First(rows: seq<Row>, q: Query): (r: Option<nat>)
    ensures r.Some? ==> r.value < |rows| && Selects(q, rows[r.value])
    ensures r.Some? ==> forall j :: 0 <= j < r.value ==> !Selects(q, rows[j])
    ensures r.None? ==> forall j :: 0 <= j < |rows| ==> !Selects(q, rows[j])
  {
    if |rows| == 0 then None
    else if Selects(q, rows[0]) then Some(0)
    else match First(rows[1..], q)
      case None => None
      case Some(i) => Some(i + 1)
  }

  /** `self::where(...)->first()`: the first selected row, or null. */
  function Lookup(rows: seq<Row>, q: Query): (r: Option<Row>)
    ensures r.Some? <==> First(rows, q).Some?
    ensures r.Some? ==> r.value == rows[First(rows, q).value] && Selects(q, r.value)
    ensures r.None? ==> forall j :: 0 <= j < |rows| ==> !Selects(q, rows[j])
  {
    match First(rows, q)
    case None => None
    case Some(i) => Some(rows[i])
  }

  /** `self::where(...)->count()`: how many rows the scoped query selects. */
  function Count(rows: seq<Row>, q: Query): (n: nat)
    ensures n <= |rows|
  {
    if |rows| == 0 then 0
    else (if Selects(q, rows[0]) then 1 else 0) + Count(rows[1..], q)
  }

  /** The count is positive exactly when the scoped query has a first row. */
  lemma {:induction false} CountPositiveIffFirst(rows: seq<Row>, q: Query)
    ensures Count(rows, q) > 0 <==> First(rows, q).Some?
  {
    if |rows| > 0 && !Selects(q, rows[0]) {
      CountPositiveIffFirst(rows[1..], q);
    }
  }

  /** `keyExists`: whether the scoped count of rows with this key is positive.
      A key held only by soft-deleted rows is not taken. */
  function KeyExists(rows: seq<Row>, key: string): (b: bool)
    ensures b <==> exists j :: 0 <= j < |rows| && Selects(ByKey(key), rows[j])
  {
    CountPositiveIffFirst(rows, ByKey(key));
    Count(rows, ByKey(key)) > 0
  }

  /** Among the visible rows, no key occurs twice. */
  ghost predicate VisibleKeysUnique(rows: seq<Row>) {
    forall i, j :: 0 <= i < j < |rows| && Visible(rows[i]) && Visible(rows[j]) ==> rows[i].key != rows[j].key
  }

  /** Appending a visible row whose key is not taken keeps visible keys unique. */
  lemma InsertFreshKeyKeepsUnique(rows: seq<Row>, row: Row)
    requires VisibleKeysUnique(rows)
    requires !KeyExists(rows, row.key)
    ensures VisibleKeysUnique(rows + [row])
  {
  }

  /** Appending a row does not change what a query finds when the query already
      had a first row or does not select the new one. */
  lemma {:induction false} LookupAfterInsert(rows: seq<Row>, row: Row, q: Query)
    requires First(rows, q).Some? || !Selects(q, row)
    ensures Lookup(rows + [row], q) == Lookup(rows, q)
  {
    if |rows| > 0 && !Selects(q, rows[0]) {
      assert (rows + [row])[1..] == rows[1..] + [row];
      LookupAfterInsert(rows[1..], row, q);
    }
  }

  /** A row appended to a table in which a query selects nothing is exactly what
      that query then finds, if it selects the new row. */
  lemma {:induction false} LookupAppended(rows: seq<Row>, row: Row, q: Query)
    requires First(rows, q).None?
    requires Selects(q, row)
    ensures Lookup(rows + [row], q) == Some(row)
  {
    if |rows| > 0 {
      assert (rows + [row])[1..] == rows[1..] + [row];
      LookupAppended(rows[1..], row, q);
    }
  }

  /** A visible row appended under a key no visible row holds is what a lookup
      by that key then finds. */
  lemma LookupInsertedKey(rows: seq<Row>, row: Row)
    requires Visible(row)
    requires !KeyExists(rows, row.key)
    ensures Lookup(rows + [row], ByKey(row.key)) == Some(row)
  {
    LookupAppended(rows, row, ByKey(row.key));
  }

  /** The scoped `where('id', $id)->delete()` of the SoftDeletes trait: every
      visible row with that id gets `deleted_at` set to `at`; already deleted
      rows and every other row keep their values. */
  function SoftDeleted(rows: seq<Row>, id: int, at: int): (r: seq<Row>)
    ensures |r| == |rows|
    ensures forall i :: 0 <= i < |r| ==> !Selects(ById(id), r[i])
    ensures forall i :: 0 <= i < |r| ==> r[i] == rows[i].(deletedAt := r[i].deletedAt)
    ensures forall i :: 0 <= i < |r| && !Selects(ById(id), rows[i]) ==> r[i] == rows[i]
    ensures forall i :: 0 <= i < |r| && Selects(ById(id), rows[i]) ==> r[i].deletedAt == Some(at)
  {
    seq(|rows|, i requires 0 <= i < |rows| =>
      if Selects(ById(id), rows[i]) then rows[i].(deletedAt := Some(at)) else rows[i])
  }

  /** Soft-deleting twice changes nothing beyond the first time. */
  lemma SoftDeleteIdempotent(rows: seq<Row>, id: int, at: int, at': int)
    ensures SoftDeleted(SoftDeleted(rows, id, at), id, at') == SoftDeleted(rows, id, at)
  {
  }

  /** Once the only visible row holding a key is soft-deleted, the key is no longer
      taken: `keyExists` is false for it, so it may be generated again, and a
      lookup by it finds nothing. */
  lemma SoftDeleteFreesKey(rows: seq<Row>, id: int, at: int)
    requires VisibleKeysUnique(rows)
    requires Lookup(rows, ById(id)).Some?
    ensures !KeyExists(SoftDeleted(rows, id, at), Lookup(rows, ById(id)).value.key)
    ensures Lookup(SoftDeleted(rows, id, at), ByKey(Lookup(rows, ById(id)).value.key)) == None
  {
  }
}
