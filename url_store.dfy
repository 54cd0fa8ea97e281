/**
 * The record store of database/url.py: class URLDB, which creates the `urls`
 * table on start-up, inserts a record, tests whether an alias is in use, and
 * resolves an alias, bumping the request counter as a side effect.
 *
 * The counter update is keyed by the long url, not by the alias: after a
 * resolution every row that shares the resolved row's url holds the first
 * such row's count plus one. Lookup, Bumped and Resolved state each
 * operation's result and effect on the rows; the lemmas below say what that
 * means for the counters.
 */
module UrlStore {
  import opened Wrappers
  import opened Queries

  /** What `SELECT url FROM urls WHERE short_url = ?` and `fetchone()` yield:
      the url of the first row carrying the alias, or None if no row does. */
  function Lookup(rows: seq<Row>, shortUrl: string): (r: Option<string>)
    ensures r.None? <==> !HasShortUrl(rows, shortUrl)
    ensures forall k :: IsFirstWhere(rows, ShortUrlColumn, shortUrl, k) ==> r == Some(rows[k].url)
  {
    match FirstWhere(rows, ShortUrlColumn, shortUrl)
    case None => None
    case Some(k) => Some(rows[k].url)
  }

  /** What `SELECT request_count FROM urls WHERE url = ?` and `fetchone()`
      yield: the count of the first row with that url, or None if no row has it. */
  function RequestCountOf(rows: seq<Row>, url: string): (r: Option<int>)
    ensures r.None? <==> forall k :: 0 <= k < |rows| ==> rows[k].url != url
    ensures forall k :: IsFirstWhere(rows, UrlColumn, url, k) ==> r == Some(rows[k].requestCount)
  {
    match FirstWhere(rows, UrlColumn, url)
    case None => None
    case Some(k) => Some(rows[k].requestCount)
  }

  /** The rows after update_request_count(url): when some row has that url, the
      first such row's count plus one is written to every row with that url;
      otherwise nothing changes. */
  function Bumped(rows: seq<Row>, url: string): (r: seq<Row>)
    ensures |r| == |rows|
    ensures forall k :: 0 <= k < |rows| ==> SameRecord(r[k], rows[k])
    ensures forall k :: 0 <= k < |rows| && rows[k].url != url ==> r[k] == rows[k]
  {
    match RequestCountOf(rows, url)
    case None => rows
    case Some(count) => SetRequestCount(rows, count + 1, url)
  }

  /** The rows after get_url_record(shortUrl): unchanged when no row carries the
      alias, and otherwise bumped for the url the lookup returned. */
  function Resolved(rows: seq<Row>, shortUrl: string): (r: seq<Row>)
    ensures !HasShortUrl(rows, shortUrl) ==> r == rows
    ensures |r| == |rows|
    ensures forall k :: 0 <= k < |rows| ==> SameRecord(r[k], rows[k])
  {
    match Lookup(rows, shortUrl)
    case None => rows
    case Some(url) => Bumped(rows, url)
  }

  /** Counters as this program writes them: never negative, and along the rows
      that share a url never above the count of an earlier such row. The empty
      table has this shape and every store operation keeps it. */
  predicate CountsOrdered(rows: seq<Row>)
  {
    && (forall k :: 0 <= k < |rows| ==> 0 <= rows[k].requestCount)
    && (forall j, k :: 0 <= j < k < |rows| && rows[j].url == rows[k].url ==> rows[k].requestCount <= rows[j].requestCount)
  }

  /** The counter update is keyed by url: every row with that url, whatever its
      alias, ends with the first such row's count plus one. */
  lemma BumpKeyedByUrl(rows: seq<Row>, url: string, first: int)
    requires IsFirstWhere(rows, UrlColumn, url, first)
    ensures forall k :: 0 <= k < |rows| && rows[k].url == url ==> Bumped(rows, url)[k].requestCount == rows[first].requestCount + 1
  {
    FirstWhereIsFirst(rows, UrlColumn, url, first);
  }

  /** The update writes the count the SELECT read, plus one. */
  lemma BumpWritesCountPlusOne(rows: seq<Row>, url: string, count: int)
    requires RequestCountOf(rows, url) == Some(count)
    ensures Bumped(rows, url) == SetRequestCount(rows, count + 1, url)
  {
  }

  /** A url no row has: the update matches nothing and changes nothing. */
  lemma BumpUnknownUrlIsNoOp(rows: seq<Row>, url: string)
    requires forall k :: 0 <= k < |rows| ==> rows[k].url != url
    ensures Bumped(rows, url) == rows
  {
  }

  /** Inserting a row with request_count 0 keeps the counters ordered. */
  lemma InsertKeepsCountsOrdered(rows: seq<Row>, row: Row)
    requires CountsOrdered(rows) && row.requestCount == 0
    ensures CountsOrdered(rows + [row])
  {
  }

  /** insert_url_record checks nothing and the schema has no UNIQUE constraint:
      storing an alias some row already carries leaves two rows with it. */
  lemma InsertAllowsDuplicateAlias(rows: seq<Row>, id: nat, url: string, shortUrl: string, createdAt: string)
    requires HasShortUrl(rows, shortUrl)
    ensures !UniqueAliases(rows + [Row(id, url, shortUrl, createdAt, 0)])
  {
    var k :| 0 <= k < |rows| && rows[k].shortUrl == shortUrl;
    var all := rows + [Row(id, url, shortUrl, createdAt, 0)];
    assert all[k].shortUrl == all[|rows|].shortUrl;
  }

  /** Under CountsOrdered the first row with a url holds the largest count of
      all rows with that url. */
  lemma FirstHoldsLargestCount(rows: seq<Row>, url: string, first: int)
    requires CountsOrdered(rows) && IsFirstWhere(rows, UrlColumn, url, first)
    ensures forall k :: 0 <= k < |rows| && rows[k].url == url ==> rows[k].requestCount <= rows[first].requestCount
  {
    forall k | 0 <= k < |rows| && rows[k].url == url
      ensures rows[k].requestCount <= rows[first].requestCount
    {
      assert first <= k by {
        assert ColumnValue(rows[k], UrlColumn) == url;
      }
    }
  }

  /** Under CountsOrdered a counter update never lowers a count and raises
      every count of a row with that url. */
  lemma BumpRaisesCounts(rows: seq<Row>, url: string)
    requires CountsOrdered(rows)
    ensures forall k :: 0 <= k < |rows| ==> rows[k].requestCount <= Bumped(rows, url)[k].requestCount
    ensures forall k :: 0 <= k < |rows| && rows[k].url == url ==> rows[k].requestCount < Bumped(rows, url)[k].requestCount
  {
    match FirstWhere(rows, UrlColumn, url)
    case None =>
      BumpUnknownUrlIsNoOp(rows, url);
    case Some(first) =>
      BumpKeyedByUrl(rows, url, first);
      FirstHoldsLargestCount(rows, url, first);
  }

  /** A counter update keeps the counters ordered: all rows with the url end
      equal, and none of them drops below a later row of that url. */
  lemma BumpKeepsCountsOrdered(rows: seq<Row>, url: string)
    requires CountsOrdered(rows)
    ensures CountsOrdered(Bumped(rows, url))
  {
    match FirstWhere(rows, UrlColumn, url)
    case None =>
      BumpUnknownUrlIsNoOp(rows, url);
    case Some(first) =>
      BumpKeyedByUrl(rows, url, first);
      FirstHoldsLargestCount(rows, url, first);
  }

  /** Resolving an alias never lowers a counter and keeps the counters ordered;
      the resolved row's own counter goes up. */
  lemma {:induction false} ResolveRaisesCounts(rows: seq<Row>, shortUrl: string)
    requires CountsOrdered(rows)
    ensures CountsOrdered(Resolved(rows, shortUrl))
    ensures forall k :: 0 <= k < |rows| ==> rows[k].requestCount <= Resolved(rows, shortUrl)[k].requestCount
    ensures forall k :: IsFirstWhere(rows, ShortUrlColumn, shortUrl, k) ==> rows[k].requestCount < Resolved(rows, shortUrl)[k].requestCount
  {
    match Lookup(rows, shortUrl)
    case None =>
    case Some(url) =>
      BumpRaisesCounts(rows, url);
      BumpKeepsCountsOrdered(rows, url);
  }

  /** When the resolved row is the first row with its url (in particular when
      no other row shares its url), its counter rises by exactly one. */
  lemma ResolveCountsOnce(rows: seq<Row>, shortUrl: string, k: int)
    requires IsFirstWhere(rows, ShortUrlColumn, shortUrl, k)
    requires IsFirstWhere(rows, UrlColumn, rows[k].url, k)
    ensures Resolved(rows, shortUrl)[k].requestCount == rows[k].requestCount + 1
  {
    FirstWhereIsFirst(rows, ShortUrlColumn, shortUrl, k);
    BumpKeyedByUrl(rows, rows[k].url, k);
  }

  /** The resolved row's counter becomes the count of the first row with its
      url plus one. It therefore rises by exactly one when its count equals that
      first row's count, and jumps further otherwise. */
  lemma ResolveSetsFirstCountPlusOne(rows: seq<Row>, shortUrl: string, k: int, first: int)
    requires IsFirstWhere(rows, ShortUrlColumn, shortUrl, k)
    requires IsFirstWhere(rows, UrlColumn, rows[k].url, first)
    ensures Resolved(rows, shortUrl)[k].requestCount == rows[first].requestCount + 1
    ensures Resolved(rows, shortUrl)[k].requestCount == rows[k].requestCount + 1 <==>
            rows[k].requestCount == rows[first].requestCount
  {
    FirstWhereIsFirst(rows, ShortUrlColumn, shortUrl, k);
    BumpKeyedByUrl(rows, rows[k].url, first);
  }

  /** Resolving changes no url and no alias, so the first row carrying a value
      in either column stays the first. */
  lemma ResolveKeepsFirst(rows: seq<Row>, shortUrl: string, column: Column, value: string, k: int)
    requires IsFirstWhere(rows, column, value, k)
    ensures IsFirstWhere(Resolved(rows, shortUrl), column, value, k)
  {
    var after := Resolved(rows, shortUrl);
    assert ColumnValue(after[k], column) == ColumnValue(rows[k], column);
    forall j | 0 <= j < k
      ensures ColumnValue(after[j], column) != value
    {
      assert ColumnValue(after[j], column) == ColumnValue(rows[j], column);
    }
  }

  /** Row `k` is the first row carrying `shortUrl` and the first row with its
      own url: the case in which resolving the alias counts exactly once. */
  predicate Anchored(rows: seq<Row>, shortUrl: string, k: int)
  {
    IsFirstWhere(rows, ShortUrlColumn, shortUrl, k) && IsFirstWhere(rows, UrlColumn, rows[k].url, k)
  }

  /** `n` applications of `step`, starting from `rows`. */
  function Iterate(step: seq<Row> -> seq<Row>, rows: seq<Row>, n: nat): seq<Row>
    decreases n
  {
    if n == 0 then rows else step(Iterate(step, rows, n - 1))
  }

  /** One get_url_record(shortUrl) call, as a function of the rows. */
  function ResolveStep(shortUrl: string): seq<Row> -> seq<Row>
  {
    rows => Resolved(rows, shortUrl)
  }

  /** A step that keeps row k anchored and raises its count by one raises it by
      `n` in `n` steps. */
  lemma {:induction false} IterateCountsSteps(step: seq<Row> -> seq<Row>, rows: seq<Row>, shortUrl: string, k: int, n: nat)
    requires Anchored(rows, shortUrl, k)
    requires forall x: seq<Row> :: Anchored(x, shortUrl, k) ==>
               Anchored(step(x), shortUrl, k) && step(x)[k].requestCount == x[k].requestCount + 1
    ensures Anchored(Iterate(step, rows, n), shortUrl, k)
    ensures Iterate(step, rows, n)[k].requestCount == rows[k].requestCount + n
    decreases n
  {
    if n > 0 {
      IterateCountsSteps(step, rows, shortUrl, k, n - 1);
    }
  }

  /** Resolving an anchored alias keeps it anchored and raises its count by one. */
  lemma ResolveKeepsAnchored(rows: seq<Row>, shortUrl: string, k: int)
    requires Anchored(rows, shortUrl, k)
    ensures Anchored(Resolved(rows, shortUrl), shortUrl, k)
    ensures Resolved(rows, shortUrl)[k].requestCount == rows[k].requestCount + 1
  {
    ResolveCountsOnce(rows, shortUrl, k);
    ResolveKeepsFirst(rows, shortUrl, ShortUrlColumn, shortUrl, k);
    ResolveKeepsFirst(rows, shortUrl, UrlColumn, rows[k].url, k);
    assert Resolved(rows, shortUrl)[k].url == rows[k].url;
  }

  /** The same, for every rows value at once, phrased for ResolveStep. */
  lemma ResolveStepKeepsAnchored(shortUrl: string, k: int)
    ensures forall x: seq<Row> :: Anchored(x, shortUrl, k) ==>
              Anchored(ResolveStep(shortUrl)(x), shortUrl, k) &&
              ResolveStep(shortUrl)(x)[k].requestCount == x[k].requestCount + 1
  {
    forall x: seq<Row> | Anchored(x, shortUrl, k)
      ensures Anchored(Resolved(x, shortUrl), shortUrl, k)
      ensures Resolved(x, shortUrl)[k].requestCount == x[k].requestCount + 1
    {
      ResolveKeepsAnchored(x, shortUrl, k);
    }
  }

  /** When the resolved row is the only one, or the first one, with its url,
      `n` successive get_url_record(shortUrl) calls raise its counter by exactly
      `n`, and the row stays the first with its alias and with its url. */
  lemma RepeatedResolution(rows: seq<Row>, shortUrl: string, k: int, n: nat)
    requires Anchored(rows, shortUrl, k)
    ensures Anchored(Iterate(ResolveStep(shortUrl), rows, n), shortUrl, k)
    ensures Iterate(ResolveStep(shortUrl), rows, n)[k].requestCount == rows[k].requestCount + n
  {
    ResolveStepKeepsAnchored(shortUrl, k);
    IterateCountsSteps(ResolveStep(shortUrl), rows, shortUrl, k, n);
  }

  /** Two aliases of one url, the first resolved five times before the second
      was created. Resolving the second alias once moves its counter from 0 to 6,
      and moves the first alias's counter as well. */
  lemma SharedUrlCounterJump()
    ensures var rows := [Row(1, "u", "a", "t", 5), Row(2, "u", "b", "t", 0)];
            Lookup(rows, "b") == Some("u") &&
            Resolved(rows, "b") == [Row(1, "u", "a", "t", 6), Row(2, "u", "b", "t", 6)]
  {
    var rows := [Row(1, "u", "a", "t", 5), Row(2, "u", "b", "t", 0)];
    BumpKeyedByUrl(rows, "u", 0);
  }

  /** The record store: URLDB and the database handle it holds. */
  class UrlDb {
    const db: Table

    ghost predicate Valid()
      reads db
    {
      db.Valid()
    }

    /** URLDB(): open the database file, whose state is given, and create the
        table if it is missing. */
    constructor (created: bool, rows: seq<Row>, lastId: nat)
      requires StoredTable(created, rows, lastId)
      ensures Valid() && fresh(db)
      ensures db.rows == rows && db.lastId == lastId
    {
      db := new Table.Open(created, rows, lastId);
      new;
      CreateTable();
    }

    /** _create_table: idempotent; an existing table keeps all its rows. */
    method CreateTable()
      requires db.Consistent()
      modifies db
      ensures Valid()
      ensures db.rows == old(db.rows) && db.lastId == old(db.lastId)
    {
      db.CreateIfNotExists();
    }

    /** insert_url_record({'url': url, 'short_url': shortUrl}) at time
        `createdAt`: appends exactly one row with request_count 0. */
    method InsertUrlRecord(url: string, shortUrl: string, createdAt: string)
      requires Valid()
      modifies db
      ensures Valid()
      ensures db.lastId == old(db.lastId) + 1
      ensures db.rows == old(db.rows) + [Row(db.lastId, url, shortUrl, createdAt, 0)]
    {
      db.InsertUrlRecord(url, shortUrl, createdAt, 0);
    }

    /** get_url_record(shortUrl): the url of the first row with that alias, after
        update_request_count on that url; None, and no change, when no row has it. */
    method GetUrlRecord(shortUrl: string) returns (r: Option<string>)
      requires Valid()
      modifies db
      ensures Valid() && db.lastId == old(db.lastId)
      ensures r == Lookup(old(db.rows), shortUrl)
      ensures db.rows == Resolved(old(db.rows), shortUrl)
    {
      var record := FirstWhere(db.rows, ShortUrlColumn, shortUrl);
      if record.Some? {
        var url := db.rows[record.value].url;
        UpdateRequestCount(url);
        return Some(url);
      }
      return None;
    }

    /** short_url_exists(shortUrl): whether some row carries the alias. */
    method ShortUrlExists(shortUrl: string) returns (b: bool)
      requires Valid()
      ensures b <==> HasShortUrl(db.rows, shortUrl)
    {
      b := FirstWhere(db.rows, ShortUrlColumn, shortUrl).Some?;
    }

    /** update_request_count(url): read the first matching row's count, then
        write that count plus one to every row with the url. */
    method UpdateRequestCount(url: string)
      requires Valid()
      modifies db
      ensures Valid() && db.lastId == old(db.lastId)
      ensures db.rows == Bumped(old(db.rows), url)
    {
      var record := RequestCountOf(db.rows, url);
      match record {
        case None =>
          BumpUnknownUrlIsNoOp(db.rows, url);
        case Some(count) =>
          BumpWritesCountPlusOne(db.rows, url, count);
          db.UpdateRequestCount(count + 1, url);
      }
    }
  }
}
