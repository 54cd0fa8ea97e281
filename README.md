# UrlShortner — a verified model of the record store and the alias service

UrlShortner is a small URL shortener. It keeps one SQLite table, `urls`, with one row per alias. Each row holds an id, the long url, the six-character alias (`short_url`), a creation time and a request counter.

The model has three modules, one for each core file:

- **`Queries`** (database/queries.py, together with the `urls` table that database/url.py creates):
  - `Row` is the row record.
  - `Table` is a class whose fields the statements update in place: the rows in rowid order, whether the table exists, and the AUTOINCREMENT sequence value.
  - `FirstWhere` is `SELECT ... WHERE <column> = ?` followed by `fetchone()`. It returns the first matching row in insertion order.
  - `SetRequestCount` is the effect of `UPDATE_REQUEST_COUNT`. `Table.UpdateRequestCount` performs that update row by row in a loop.
- **`UrlStore`** (database/url.py, class `URLDB`), as class `UrlDb`:
  - `Lookup`, `Bumped` and `Resolved` state what `get_url_record` and `update_request_count` return and do to the rows.
  - The lemmas say what this means for the counters.
- **`ShortenerService`** (service/url_shortner_service.py, class `URLShortnerService`), as class `UrlShortenerService`:
  - `GenerateShortUrl` builds an alias over the 62-character alphabet.
  - `FreshAlias` is the alias the retry loop settles on.
  - `CreateShortUrl` is the retry loop and the insert.
  - `GetLongUrl` resolves an alias through the store.

The counter update is modelled as the code does it. `update_request_count` reads the count of the first row with the long url. It then writes that count plus one to every row with that url, whatever the row's alias. The method's docstring (database/url.py:82) calls this incrementing the request count of a URL. A resolved alias's own counter therefore rises by exactly one when its count equals the count of the first row with its url, and otherwise jumps to that count plus one:

- `UrlStore.ResolveSetsFirstCountPlusOne` proves this exact condition.
- `UrlStore.ResolveCountsOnce` and `UrlStore.RepeatedResolution` prove the exact count when the resolved row is itself the first row with its url, for one resolution and for `n`.
- `UrlStore.SharedUrlCounterJump` shows a counter moving from 0 to 6 in one resolution.

An alias is meant to name one row, but the schema declares no UNIQUE constraint on `short_url` (database/url.py:28). The model follows the code:

- uniqueness is an invariant that `CreateShortUrl` keeps, because its loop draws again while an alias is taken;
- `UrlStore.InsertAllowsDuplicateAlias` shows that the store by itself does not enforce it.

Two oracles are replaced by parameters:

- `random.choice(chars)` becomes a stream of draws, each an index into `ascii_letters + digits`;
- `datetime.now()` becomes the `createdAt` string.

## Model

| member | source | states |
|---|---|---|
| Queries.FirstWhere | database/url.py:58-59 | `fetchone()` after `WHERE column = ?` gives None exactly when no row matches; otherwise it gives a matching row with no matching row before it |
| Queries.FirstWhereIsFirst | database/url.py:77-78 | the row `fetchone()` returns is exactly the first matching row in rowid order |
| Queries.FirstWhereAppend | database/queries.py:1-4 | after an insert, a query still finds an earlier match if one exists; otherwise it finds the new row when that row matches, and nothing when it does not |
| Queries.FirstWhereIgnoresCounts | database/queries.py:6-10 | which row a query on url or short_url finds does not depend on request_count, the only column the update writes |
| Queries.SetRequestCount | database/queries.py:6-10 | the UPDATE assigns the given value to request_count on every row whose url matches; every other column and every other row is left unchanged |
| Queries.Table.Open | database/url.py:14-15 | the table starts in the state the database file holds |
| Queries.Table.CreateIfNotExists | database/url.py:19-32 | CREATE TABLE IF NOT EXISTS is idempotent: an existing table keeps all its rows and its sequence value, and a missing one is created empty |
| Queries.Table.InsertUrlRecord | database/queries.py:1-4 | exactly one row is appended, with its four parameters bound in the order url, short_url, created_at, request_count; its AUTOINCREMENT id is above every earlier id |
| Queries.Table.UpdateRequestCount | database/queries.py:6-10 | the loop over the rows leaves exactly `SetRequestCount` of the old rows, and the sequence value unchanged |
| UrlStore.Lookup | database/url.py:58-63 | the alias lookup gives None exactly when no row carries the alias; otherwise it gives the url of the first row that does |
| UrlStore.RequestCountOf | database/url.py:89-90 | the count read is None exactly when no row has the url; otherwise it is the count of the first row that does |
| UrlStore.Bumped | database/url.py:80-93 | the counter update changes only request_count, and only on rows whose url matches |
| UrlStore.Resolved | database/url.py:58-62 | a lookup of an alias no row carries changes nothing; otherwise it only changes counters |
| UrlStore.BumpKeyedByUrl | database/url.py:89-93 | every row with the url, whatever its alias, ends with the first such row's count plus one |
| UrlStore.BumpUnknownUrlIsNoOp | database/url.py:89-91 | the update is a no-op when no row has the url |
| UrlStore.InsertKeepsCountsOrdered | database/url.py:44 | appending a row with count 0 keeps counters non-negative and non-increasing along rows that share a url |
| UrlStore.InsertAllowsDuplicateAlias | database/url.py:25-31 | with no UNIQUE constraint and no check in the insert, storing an alias that some row already carries leaves two rows with it |
| UrlStore.FirstHoldsLargestCount | database/url.py:89-90 | with ordered counters, the row the SELECT reads holds the largest count of its url |
| UrlStore.BumpRaisesCounts | database/url.py:89-93 | with ordered counters, an update never lowers a count and strictly raises every count of the url |
| UrlStore.BumpKeepsCountsOrdered | database/url.py:89-93 | an update keeps the counters ordered |
| UrlStore.ResolveRaisesCounts | database/url.py:58-62 | a lookup keeps the counters ordered, never lowers a count, and raises the resolved row's count |
| UrlStore.ResolveSetsFirstCountPlusOne | database/url.py:58-62 | the resolved row's counter becomes the first count of its url plus one, so it rises by exactly one if and only if its count equals that first count |
| UrlStore.ResolveCountsOnce | database/url.py:58-62 | when the resolved row is the first row with its url, its count rises by exactly one |
| UrlStore.ResolveKeepsFirst | database/url.py:58-62 | a lookup changes no url and no alias, so the first row carrying a value in either column stays the first |
| UrlStore.IterateCountsSteps | database/url.py:46-63 | a step that keeps a row anchored and adds one to its count adds `n` in `n` steps |
| UrlStore.ResolveKeepsAnchored | database/url.py:58-62 | resolving an anchored alias (first with its alias and first with its url) keeps it anchored and adds exactly one |
| UrlStore.ResolveStepKeepsAnchored | database/url.py:58-62 | the same for every table at once |
| UrlStore.RepeatedResolution | database/url.py:46-63 | `n` lookups of an anchored alias raise its count by exactly `n` |
| UrlStore.SharedUrlCounterJump | database/url.py:89-93 | two aliases of one url, with counts 5 and 0: one lookup of the second sets both to 6 |
| UrlStore.UrlDb.constructor | database/url.py:14-16 | `URLDB()` opens the file and creates the table if it is missing, keeping any rows |
| UrlStore.UrlDb.CreateTable | database/url.py:19-32 | `_create_table` leaves an existing table's rows and sequence value unchanged |
| UrlStore.UrlDb.InsertUrlRecord | database/url.py:34-44 | appends exactly the row (fresh id, url, short_url, created_at, 0); earlier rows are unchanged |
| UrlStore.UrlDb.GetUrlRecord | database/url.py:46-63 | returns the lookup result and applies the counter update for the url found; on a miss it returns None and changes nothing |
| UrlStore.UrlDb.ShortUrlExists | database/url.py:65-78 | true exactly when some row carries the alias; modifies nothing |
| UrlStore.UrlDb.UpdateRequestCount | database/url.py:80-93 | the table becomes `Bumped` of the old rows: a no-op for an unknown url, and otherwise the first count plus one written to every row with that url |
| ShortenerService.AlphabetParts | service/url_shortner_service.py:59 | `ascii_letters + digits` is the lower-case letters, then the upper-case letters, then the digits |
| ShortenerService.AlphabetChars | service/url_shortner_service.py:59 | the alphabet has 62 characters, and the character at each index is given by arithmetic |
| ShortenerService.AlphabetIndex | service/url_shortner_service.py:59 | every alphanumeric character occurs in the alphabet |
| ShortenerService.AlphabetIndexInverse | service/url_shortner_service.py:59 | each alphabet index is the unique index of its character, which is alphanumeric |
| ShortenerService.GenerateShortUrl | service/url_shortner_service.py:49-60 | the alias has exactly `length` characters (default 6), each from `ascii_letters + digits` |
| ShortenerService.GenerateIsInjective | service/url_shortner_service.py:60 | different draws give different aliases |
| ShortenerService.GenerateIsOnto | service/url_shortner_service.py:60 | every alphanumeric string of the length can be generated |
| ShortenerService.FreshAlias | service/url_shortner_service.py:38-40 | the alias the loop settles on has six alphanumeric characters, and no row carries it |
| ShortenerService.FreshAliasNoneWhenAllTaken | service/url_shortner_service.py:38-40 | no alias is found exactly when every candidate the draws make is taken |
| ShortenerService.FreshAliasIsFirstFree | service/url_shortner_service.py:38-40 | the alias found is a candidate whose predecessors are all taken |
| ShortenerService.CreatedAliasResolves | service/url_shortner_service.py:38-47 | once a fresh alias is stored, it resolves to its long url, and every other alias resolves as before |
| ShortenerService.CreateKeepsAliasesUnique | service/url_shortner_service.py:38-47 | if aliases are pairwise distinct before create_short_url, they remain so after it |
| ShortenerService.ResolveKeepsAliasesUnique | service/url_shortner_service.py:16-26 | resolving keeps aliases unique |
| ShortenerService.SameUrlTwice | service/url_shortner_service.py:38-47 | shortening one long url twice gives two distinct aliases, and both resolve to that url |
| ShortenerService.NewUrlCountsResolutions | service/url_shortner_service.py:42-47 | a new alias of a url no earlier row has reads exactly `n` after `n` resolutions |
| ShortenerService.UrlShortenerService.constructor | service/url_shortner_service.py:13-14 | the service opens the record store on the database file |
| ShortenerService.UrlShortenerService.GetLongUrl | service/url_shortner_service.py:16-26 | has exactly the result and counter side effect of get_url_record; keeps aliases unique and counters ordered, and lowers no count |
| ShortenerService.UrlShortenerService.CreateShortUrl | service/url_shortner_service.py:28-47 | returns `FreshAlias` of the old rows; on success it appends exactly (fresh id, long url, alias, created_at, 0), the alias resolves to the long url, unique aliases stay unique, and ordered counters stay ordered |

## Left out

- HTTP layer (app.py): routing, redirects and the 404 response are not part of this model.
- database/db.py (environment lookup of the database path, sqlite3 connections, commit on `with`) is not part of this model. Each store method is one atomic step on the table.
- `datetime.datetime.now()` (database/url.py:41) is the `createdAt` parameter. Its format is not modelled.
- `random.choice` is an oracle: a finite stream of draws. The model does no probabilistic reasoning about collisions.
- ShortenerService.UrlShortenerService.CreateShortUrl: returns None, with the table unchanged, when the draws run out before a free alias. The source has no such outcome: it keeps drawing, and its loop has no termination guarantee.
- Concurrency is not modelled: neither the race between `short_url_exists` and the insert, nor lost counter updates in the read-then-write of `update_request_count`.
- The SQL engine beyond the visible statements is not modelled: no type affinity, no query planning. `fetchone()` is the first matching row in rowid order.
- Integer width is not modelled. SQLite stores `request_count` and `id` as signed 64-bit integers. At 2^63-1, binding the next count at database/url.py:93 raises an OverflowError, and AUTOINCREMENT fails with SQLITE_FULL. The model has unbounded counts and ids.
