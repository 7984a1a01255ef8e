/** The API-key repository: the `api_keys` table, the shared cache in front of
    lookups by key, and the operations the repository offers over them. */
module Repositories {
  import opened KeyFormat
  import opened KeyTable

  /** The cache entry a lookup by key is remembered under: `'api_keys:' . $key`. */
  function CacheName(key: string): string {
    "api_keys:" + key
  }

  /** Distinct keys never share a cache entry. */
  lemma CacheNameInjective(a: string, b: string)
    ensures CacheName(a) == CacheName(b) ==> a == b
  {
    if CacheName(a) == CacheName(b) {
      assert a == CacheName(a)[9..];
    }
  }

  /** The final filter of `getByKey`: a record comes back only when it is not
      empty and its `exists` flag is true; otherwise the answer is null. */
  function Live(found: Option<Row>): (r: Option<Row>)
    ensures r.Some? <==> found.Some? && found.value.persisted
    ensures r.Some? ==> r == found
  {
    if found.Some? && found.value.persisted then found else None
  }

  /** `getByIdAndUserId`: the first visible row with this id and this owner. */
  function GetByIdAndUserId(rows: seq<Row>, id: int, userId: Option<int>): (r: Option<Row>)
    ensures r.Some? ==> r.value in rows && Visible(r.value)
    ensures r.Some? ==> r.value.id == id && r.value.userId == userId
    ensures r.None? ==> forall row :: row in rows && Visible(row) ==> !(row.id == id && row.userId == userId)
  {
    Lookup(rows, ByIdAndUserId(id, userId))
  }

  /** No two rows share an id, and every id lies below the next auto-increment
      value. */
  ghost predicate IdsFresh(rows: seq<Row>, nextId: nat) {
    && (forall i :: 0 <= i < |rows| ==> rows[i].id < nextId)
    && (forall i, j :: 0 <= i < j < |rows| ==> rows[i].id != rows[j].id)
  }

  /** Every row of the table carries `exists === true`: Eloquent sets the flag on
      every model it reads from the table or saves to it. */
  ghost predicate AllPersisted(rows: seq<Row>) {
    forall i :: 0 <= i < |rows| ==> rows[i].persisted
  }

  /** On a table read by Eloquent, the final filter of `getByKey` never drops a
      row the scoped query found. */
  lemma LiveKeepsStoredRows(rows: seq<Row>, q: Query)
    requires AllPersisted(rows)
    ensures Live(Lookup(rows, q)) == Lookup(rows, q)
  {
  }

  /** The life of one key: once `make` has appended its row, an uncached
      `getByKey` returns that row; once the row is soft-deleted, the same lookup
      returns null and the key is free to be generated again. */
  lemma KeyLifecycle(rows: seq<Row>, nextId: nat, row: Row, at: int)
    requires IdsFresh(rows, nextId) && VisibleKeysUnique(rows)
    requires row == Row(nextId, row.userId, row.key, row.level, row.ignoreLimits, None, true)
    requires !KeyExists(rows, row.key)
    ensures Live(Lookup(rows + [row], ByKey(row.key))) == Some(row)
    ensures Live(Lookup(SoftDeleted(rows + [row], nextId, at), ByKey(row.key))) == None
    ensures !KeyExists(SoftDeleted(rows + [row], nextId, at), row.key)
  {
    LookupInsertedKey(rows, row);
    InsertFreshKeyKeepsUnique(rows, row);
    assert First(rows, ById(nextId)).None?;
    LookupAppended(rows, row, ById(nextId));
    SoftDeleteFreesKey(rows + [row], nextId, at);
  }

  class ApiKeyRepository {
    /** The `api_keys` table, soft-deleted rows included. */
    var rows: seq<Row>
    /** The shared cache: entry name to the remembered record. */
    var cache: map<string, Row>
    /** The id the store assigns to the next created row. */
    var nextId: nat

    ghost predicate Valid()
      reads this
    {
      IdsFresh(rows, nextId) && AllPersisted(rows)
    }

    constructor (table: seq<Row>, store: map<string, Row>, autoIncrement: nat)
      requires IdsFresh(table, autoIncrement) && AllPersisted(table)
      ensures Valid()
      ensures rows == table && cache == store && nextId == autoIncrement
    {
      rows, cache, nextId := table, store, autoIncrement;
    }

    /** `generateKey`: draw a candidate from each successive digest until one is
        not taken by a visible row. `salts` are the digests the entropy source
        yields in turn; the loop has no bound of its own, so running out of
        them answers `None` (the loop had not exited yet). */
    method GenerateKey(salts: seq<Digest>) returns (key: Option<string>, draws: nat)
      ensures draws <= |salts|
      ensures key.Some? ==> draws > 0 && key.value == Candidate(salts[draws - 1])
      ensures key.Some? ==> IsKeyFormat(key.value) && !KeyExists(rows, key.value)
      ensures key.Some? ==> forall j :: 0 <= j < draws - 1 ==> KeyExists(rows, Candidate(salts[j]))
      ensures key.None? ==> draws == |salts| && forall j :: 0 <= j < |salts| ==> KeyExists(rows, Candidate(salts[j]))
    {
      key, draws := None, 0;
      while key.None? && draws < |salts|
        invariant draws <= |salts|
        invariant key.Some? ==> draws > 0 && key.value == Candidate(salts[draws - 1]) && !KeyExists(rows, key.value)
        invariant forall j :: 0 <= j < (if key.Some? then draws - 1 else draws) ==> KeyExists(rows, Candidate(salts[j]))
        decreases |salts| - draws
      {
        var newKey := Candidate(salts[draws]);
        draws := draws + 1;
        if !KeyExists(rows, newKey) {
          key := Some(newKey);
        }
      }
    }

    /** `make`: create one row owned by `userId` with the key `generateKey`
        returns, the given level and limit flag, and no `deleted_at`. The
        defaults are those of api-guard's `make`: no owner, level 10, limits
        applied. `draws` is the number of digests the key generation consumed;
        nothing is created exactly when every supplied digest is taken. */
    method Make(salts: seq<Digest>, userId: Option<int> := None, level: int := 10, ignoreLimits: bool := false)
      returns (created: Option<Row>, draws: nat)
      requires Valid()
      modifies this`rows, this`nextId
      ensures Valid()
      ensures draws <= |salts|
      ensures created.None? <==> forall j :: 0 <= j < |salts| ==> KeyExists(old(rows), Candidate(salts[j]))
      ensures created.Some? ==>
        && created.value == Row(old(nextId), userId, created.value.key, level, ignoreLimits, None, true)
        && draws > 0 && created.value.key == Candidate(salts[draws - 1])
        && (forall j :: 0 <= j < draws - 1 ==> KeyExists(old(rows), Candidate(salts[j])))
        && IsKeyFormat(created.value.key)
        && !KeyExists(old(rows), created.value.key)
        && rows == old(rows) + [created.value]
        && nextId == old(nextId) + 1
      ensures created.None? ==> rows == old(rows) && nextId == old(nextId)
      ensures VisibleKeysUnique(old(rows)) ==> VisibleKeysUnique(rows)
    {
      var key;
      key, draws := GenerateKey(salts);
      if key.None? {
        return None, draws;
      }
      var row := Row(nextId, userId, key.value, level, ignoreLimits, None, true);
      if VisibleKeysUnique(rows) {
        InsertFreshKeyKeepsUnique(rows, row);
      }
      rows := rows + [row];
      nextId := nextId + 1;
      created := Some(row);
    }

    /** `getByKey`: with a positive duration, read through the cache entry for
        the key, filling it from the scoped query on a miss; otherwise query the
        table directly and leave the cache alone. Either way only a record whose
        `exists` flag is true comes back. */
    method GetByKey(key: string, duration: int := 0) returns (found: Option<Row>)
      modifies this`cache
      ensures found.Some? ==> found.value.persisted
      ensures Valid() && (duration <= 0 || CacheName(key) !in old(cache)) ==> found == Lookup(rows, ByKey(key))
      ensures duration <= 0 ==> cache == old(cache) && found == Live(Lookup(rows, ByKey(key)))
      ensures duration > 0 && CacheName(key) in old(cache) ==>
        cache == old(cache) && found == Live(Some(old(cache)[CacheName(key)]))
      ensures duration > 0 && CacheName(key) !in old(cache) ==>
        && found == Live(Lookup(rows, ByKey(key)))
        && cache == match Lookup(rows, ByKey(key))
                    case None => old(cache)
                    case Some(row) => old(cache)[CacheName(key) := row]
    {
      var apiKey: Option<Row>;
      if duration > 0 {
        var name := CacheName(key);
        if name in cache {
          apiKey := Some(cache[name]);
        } else {
          apiKey := Lookup(rows, ByKey(key));
          if apiKey.Some? {
            cache := cache[name := apiKey.value];
          }
        }
      } else {
        apiKey := Lookup(rows, ByKey(key));
      }
      found := Live(apiKey);
      if Valid() {
        LiveKeepsStoredRows(rows, ByKey(key));
      }
    }

    /** The soft delete of the SoftDeletes trait: stamp `deleted_at` on the
        visible rows with this id. */
    method SoftDelete(id: int, at: int)
      requires Valid()
      modifies this`rows
      ensures Valid()
      ensures rows == SoftDeleted(old(rows), id, at)
      ensures VisibleKeysUnique(old(rows)) ==> VisibleKeysUnique(rows)
    {
      rows := SoftDeleted(rows, id, at);
    }
  }
}
