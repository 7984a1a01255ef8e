# API-key repository (api-guard) in Dafny

This project models the API-key repository of api-guard, a Laravel package.
The repository is an Eloquent model over the `api_keys` table. The model covers:

- the table, as a sequence of rows (`id`, `user_id`, `key`, `level`,
  `ignore_limits`, `deleted_at` and Eloquent's `exists` flag), behind the
  soft-delete scope that hides every row whose `deleted_at` is set;
- `keyExists`, the scoped count of rows holding a key;
- `generateKey`, the draw-until-free loop over 40-character hex candidates;
- `make`, which inserts one row with a generated key;
- `getByKey`, the lookup by key, either straight from the table or read
  through the cache entry `api_keys:<key>`, followed by the "not empty and
  exists" filter;
- `getByIdAndUserId`, the lookup by id and owner;
- the scoped soft delete that the `SoftDeletes` trait installs. The lemmas
  about suppression and key reuse need it.

Files:

- `key_format.dfy` (module `KeyFormat`): the digest type, PHP's `substr`, and
  the candidate key.
- `key_table.dfy` (module `KeyTable`): rows, the scope, the query shapes,
  `first()`, `count()`, `keyExists`, the soft delete, and the lemmas relating
  them.
- `api_key_repository.dfy` (module `Repositories`): the cache name, the
  `getByKey` filter, `getByIdAndUserId`, and the class `ApiKeyRepository`.
  Its fields are the table, the cache and the next auto-increment id. Its
  methods are `GenerateKey`, `Make`, `GetByKey` and `SoftDelete`.

The table is a field of type `seq<Row>` that `Make` and `SoftDelete` reassign.
The cache is a `map<string, Row>` that `GetByKey` fills on a miss. The queries
are functions of the current rows. The order of the sequence stands for the
order in which a query without `orderBy` meets the rows, so "first" means first
in that order.

A stricter policy would also count soft-deleted rows as taken, so that a
revoked key is never issued again. `keyExists` does not do this: it goes
through the soft-delete scope (src/Repositories/ApiKeyRepository.php:104). So a
key held only by soft-deleted rows is free and may be generated again. The
model follows the code (`KeyTable.KeyExists`, `KeyTable.SoftDeleteFreesKey`).

## Model

| member | source | states |
|---|---|---|
| `KeyFormat.Substr` | src/Repositories/ApiKeyRepository.php:56 | `substr($s, $start, $length)` is the window of at most `length` characters starting at `start`: its exact length, and each character is the source character at `start + i`; empty when `start` is at or past the end, as PHP 8 does (the repository only calls it with start 0 on a 40-character digest) |
| `KeyFormat.Candidate` | src/Repositories/ApiKeyRepository.php:55-56 | a candidate is the first 40 characters of a SHA-1 hex digest, so it is the whole digest: 40 characters, each in `[0-9a-f]` |
| `KeyTable.First` | src/Repositories/ApiKeyRepository.php:41-43 | `->first()` on a scoped query: the position it returns holds a visible, matching row, and no earlier row is visible and matching; when it returns none, no row in the table is both visible and matching |
| `KeyTable.Lookup` | src/Repositories/ApiKeyRepository.php:41-43 | `self::where(...)->first()` returns a record exactly when the scoped query has a first position; that record is the row at that position, visible and matching; null means no row in the table is both visible and matching. The same `->first()` ends `getByIdAndUserId` (lines 90-93) |
| `KeyTable.Count` | src/Repositories/ApiKeyRepository.php:104 | the scoped count is at most the number of rows; the only use of its value, whether it is positive, is stated by `KeyTable.CountPositiveIffFirst` |
| `KeyTable.CountPositiveIffFirst` | src/Repositories/ApiKeyRepository.php:104-110 | the scoped count is positive if and only if the same scoped query has a first row |
| `KeyTable.KeyExists` | src/Repositories/ApiKeyRepository.php:102-111 | `keyExists(k)` is true if and only if some visible (not soft-deleted) row has key `k` |
| `KeyTable.InsertFreshKeyKeepsUnique` | src/Repositories/ApiKeyRepository.php:54-58 | appending a row whose key `keyExists` rejected keeps the keys of visible rows pairwise distinct |
| `KeyTable.LookupAfterInsert` | src/Repositories/ApiKeyRepository.php:71-78 | after an insert, every query that already found a row, or that does not select the new row, finds the same row as before |
| `KeyTable.LookupAppended` | src/Repositories/ApiKeyRepository.php:73 | when a query selects nothing in the table, it finds exactly the appended row if that row matches |
| `KeyTable.LookupInsertedKey` | src/Repositories/ApiKeyRepository.php:73-75 | a visible row inserted under a key `keyExists` rejected is exactly what the lookup by that key then returns |
| `KeyTable.SoftDeleted` | src/Repositories/ApiKeyRepository.php:19 | the scoped soft delete by id: afterwards no row with that id is visible; every row keeps all fields but `deleted_at`; rows it did not select are unchanged; the ones it did select carry the given timestamp |
| `KeyTable.SoftDeleteIdempotent` | src/Repositories/ApiKeyRepository.php:19 | soft-deleting the same id a second time changes nothing |
| `KeyTable.SoftDeleteFreesKey` | src/Repositories/ApiKeyRepository.php:19 | with unique visible keys, soft-deleting the row found by id makes `keyExists` false for its key, and the lookup by that key returns null |
| `Repositories.CacheNameInjective` | src/Repositories/ApiKeyRepository.php:40 | two different keys never share the cache entry `'api_keys:' . $key` |
| `Repositories.Live` | src/Repositories/ApiKeyRepository.php:44 | the final filter returns the record if and only if it is present and its `exists` flag is true, and otherwise returns null |
| `Repositories.GetByIdAndUserId` | src/Repositories/ApiKeyRepository.php:88-94 | the result is a visible row of the table with exactly this id and owner; null only when no visible row has both |
| `Repositories.LiveKeepsStoredRows` | src/Repositories/ApiKeyRepository.php:43-44 | on a table whose rows all carry `exists === true`, as Eloquent hydrates them, the final filter returns exactly what the scoped lookup found |
| `Repositories.KeyLifecycle` | src/Repositories/ApiKeyRepository.php:37-45 | after `make` appends a row with a fresh key and id, an uncached `getByKey` returns that row; after the row is soft-deleted, the same lookup returns null and the key is free again |
| `Repositories.ApiKeyRepository.GenerateKey` | src/Repositories/ApiKeyRepository.php:52-61 | the returned key is the candidate of the last digest drawn: 40 lower-case hex characters that no visible row holds. Every earlier candidate was taken. If no key is returned, every supplied candidate was taken |
| `Repositories.ApiKeyRepository.Make` | src/Repositories/ApiKeyRepository.php:71-78 | nothing is created exactly when every supplied digest is taken; otherwise exactly one row is appended: the next id, the caller's `user_id`/`level`/`ignore_limits` (defaults null, 10, false), `generateKey`'s key (the first candidate no visible row holds, every earlier one taken), a null `deleted_at`, and `exists` true. Existing rows are unchanged and visible keys stay unique |
| `Repositories.ApiKeyRepository.GetByKey` | src/Repositories/ApiKeyRepository.php:37-45 | a duration ≤ 0 leaves the cache untouched and returns the filtered scoped lookup. A positive duration returns the filtered cache entry on a hit, or the filtered lookup on a miss, storing a found row in the cache. The table never changes, no row whose `exists` flag is false is ever returned, and on a valid table the bypass and miss paths return exactly the row the scoped lookup found |
| `Repositories.ApiKeyRepository.SoftDelete` | src/Repositories/ApiKeyRepository.php:19 | the table becomes its scoped soft delete by id; ids stay fresh, every row keeps `exists` true, and visible keys stay unique |

## Left out

- SHA-1 (FIPS 180-4), `time()` and `mt_rand()`: not modelled. The digests
  they would yield are a parameter (`salts`) whose only known property is
  their format.
- Repositories.ApiKeyRepository.GenerateKey: the source loop has no bound. The
  model walks a finite sequence of digests and returns none when all of them
  are taken. So it states only what holds when the loop exits, not that it
  ever does.
- Repositories.ApiKeyRepository.Make: when every supplied digest is taken, the
  model creates nothing and leaves the table unchanged; the source would still
  be looping. It also returns how many digests it used, which the source does
  not.
- Repositories.ApiKeyRepository.GetByKey: cache expiry (the TTL passed to
  `Cache::remember`) is not modelled; an entry lasts until something outside
  the repository removes it. A cached row is returned even if the row has
  since been soft-deleted, exactly as within a live TTL. A miss whose query
  finds nothing leaves the cache unchanged. Laravel reads a remembered null
  as a miss, so the model does not claim that negative results are cached.
- The Eloquent/SQL engine, persistence failures of `create`, and the
  `created_at`/`updated_at` bookkeeping are foreign library behaviour. Ids
  are modelled only as "the next auto-increment value, fresh and distinct".
- The `key` column's collation: every `where` compares with exact string
  equality. Under a case-insensitive or PAD SPACE collation (such as MySQL's
  `_ci` collations), the database would also match a key that differs only in
  letter case or trailing spaces, so `getByKey` could return a row for such a
  variant of a real key. Generated keys are lower-case hex, so `keyExists` is
  not affected.
- `limit(1)` before `count()`: it limits the rows of the aggregate, not the
  count, and only "count > 0" is used, so the model counts all visible
  matches.
- `first()` without `orderBy` returns rows in an order the database chooses;
  the model fixes it as table order.
- The instance `delete()` of the SoftDeletes trait, which re-stamps a row
  without the scope, is not modelled. Only the scoped query delete is.
- The check-then-insert race between concurrent `make` calls: the model is
  sequential.
- `$fillable` mass assignment: `Make` takes exactly the four fillable fields
  (`key` from `GenerateKey`), and nothing else reaches the row.
