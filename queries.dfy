/**
 * The SQLite table `urls` (created in database/url.py) and the statements that
 * read and write it: the two constants of database/queries.py and the inline
 * `SELECT ... WHERE <column> = ?` queries that database/url.py pairs with
 * `fetchone()`.
 *
 * The table is a class whose fields the statements update in place: its rows
 * in rowid (insertion) order, whether `CREATE TABLE` has run, and the
 * AUTOINCREMENT sequence value. Each statement is one atomic step.
 */
module Queries {
  import opened Wrappers

  /** One row of `urls`: id INTEGER PRIMARY KEY AUTOINCREMENT, url TEXT, short_url TEXT,
      created_at TEXT, request_count INTEGER (all NOT NULL). */
  datatype Row = Row(id: nat, url: string, shortUrl: string, createdAt: string, requestCount: int)

  /** The two text columns the store filters on. */
  datatype Column = UrlColumn | ShortUrlColumn

  function ColumnValue(row: Row, column: Column): string
  {
    match column
    case UrlColumn => row.url
    case ShortUrlColumn => row.shortUrl
  }

  /** Two rows agree on every column except request_count. */
  predicate SameRecord(a: Row, b: Row)
  {
    a.id == b.id && a.url == b.url && a.shortUrl == b.shortUrl && a.createdAt == b.createdAt
  }

  /** Some row carries alias `shortUrl`. */
  predicate HasShortUrl(rows: seq<Row>, shortUrl: string)
  {
    exists k :: 0 <= k < |rows| && rows[k].shortUrl == shortUrl
  }

  /** No two rows carry the same alias. */
  predicate UniqueAliases(rows: seq<Row>)
  {
    forall j, k :: 0 <= j < k < |rows| ==> rows[j].shortUrl != rows[k].shortUrl
  }

  /** Ids as AUTOINCREMENT hands them out: positive, strictly increasing in rowid
      order, and never above the sequence value `lastId`. */
  predicate IdsBelow(rows: seq<Row>, lastId: nat)
  {
    && (forall k :: 0 <= k < |rows| ==> 0 < rows[k].id <= lastId)
    && (forall j, k :: 0 <= j < k < |rows| ==> rows[j].id < rows[k].id)
  }

  /** A state of the database file that SQLite can hold: before `CREATE TABLE`
      there are no rows and no sequence value. */
  predicate StoredTable(created: bool, rows: seq<Row>, lastId: nat)
  {
    (!created ==> rows == [] && lastId == 0) && IdsBelow(rows, lastId)
  }

  /** `SELECT ... FROM urls WHERE <column> = ?` followed by `fetchone()`: the
      index of the first matching row in rowid order, or None when no row matches. */
  function FirstWhere(rows: seq<Row>, column: Column, value: string): (r: Option<nat>)
    ensures r.None? <==> forall k :: 0 <= k < |rows| ==> ColumnValue(rows[k], column) != value
    ensures r.Some? ==> r.value < |rows| && ColumnValue(rows[r.value], column) == value
    ensures r.Some? ==> forall k :: 0 <= k < r.value ==> ColumnValue(rows[k], column) != value
  {
    if rows == [] then None
    else if ColumnValue(rows[0], column) == value then Some(0)
    else match FirstWhere(rows[1..], column, value)
      case None => None
      case Some(k) => Some(k + 1)
  }

  /** Row `k` is the first row, in rowid order, whose `column` equals `value`. */
  predicate IsFirstWhere(rows: seq<Row>, column: Column, value: string, k: int)
  {
    0 <= k < |rows| && ColumnValue(rows[k], column) == value &&
    forall j :: 0 <= j < k ==> ColumnValue(rows[j], column) != value
  }

  /** fetchone() returns exactly the first matching row. */
  lemma FirstWhereIsFirst(rows: seq<Row>, column: Column, value: string, k: int)
    requires IsFirstWhere(rows, column, value, k)
    ensures FirstWhere(rows, column, value) == Some(k)
  {
    var r := FirstWhere(rows, column, value);
    assert r.value == k by {
      assert ColumnValue(rows[r.value], column) == value;
    }
  }

  /** A row appended at the end is found only when no earlier row matches. */
  lemma FirstWhereAppend(rows: seq<Row>, row: Row, column: Column, value: string)
    ensures FirstWhere(rows + [row], column, value) ==
            if FirstWhere(rows, column, value).Some? then FirstWhere(rows, column, value)
            else if ColumnValue(row, column) == value then Some(|rows|)
            else None
  {
    var all := rows + [row];
    assert forall k :: 0 <= k < |rows| ==> all[k] == rows[k];
    var r := FirstWhere(rows, column, value);
    if r.Some? {
      FirstWhereIsFirst(all, column, value, r.value);
    } else if ColumnValue(row, column) == value {
      FirstWhereIsFirst(all, column, value, |rows|);
    }
  }

  /** Which row a query on url or short_url finds does not depend on the
      counters: rows that agree on every other column give the same answer. */
  lemma {:induction false} FirstWhereIgnoresCounts(rows: seq<Row>, rows': seq<Row>, column: Column, value: string)
    requires |rows'| == |rows|
    requires forall k :: 0 <= k < |rows| ==> SameRecord(rows'[k], rows[k])
    ensures FirstWhere(rows', column, value) == FirstWhere(rows, column, value)
  {
    if rows != [] {
      var tail, tail' := rows[1..], rows'[1..];
      forall k | 0 <= k < |tail|
        ensures SameRecord(tail'[k], tail[k])
      {
        assert tail'[k] == rows'[k + 1] && tail[k] == rows[k + 1];
      }
      FirstWhereIgnoresCounts(tail, tail', column, value);
      assert ColumnValue(rows'[0], column) == ColumnValue(rows[0], column);
    }
  }

  /** The table after UPDATE_REQUEST_COUNT with parameters (requestCount, url):
      request_count is assigned, not incremented, on every row whose url matches;
      every other column, and every other row, is left as it was. */
  function SetRequestCount(rows: seq<Row>, requestCount: int, url: string): (r: seq<Row>)
    ensures |r| == |rows|
    ensures forall k :: 0 <= k < |rows| ==> SameRecord(r[k], rows[k])
    ensures forall k :: 0 <= k < |rows| && rows[k].url == url ==> r[k].requestCount == requestCount
    ensures forall k :: 0 <= k < |rows| && rows[k].url != url ==> r[k] == rows[k]
  {
    if rows == [] then []
    else
      var head := if rows[0].url == url then rows[0].(requestCount := requestCount) else rows[0];
      [head] + SetRequestCount(rows[1..], requestCount, url)
  }

  /** The `urls` table of the database file. */
  class Table {
    var created: bool
    var rows: seq<Row>
    var lastId: nat

    predicate Consistent()
      reads this
    {
      StoredTable(created, rows, lastId)
    }

    /** The table exists: the state every store operation runs in. */
    predicate Valid()
      reads this
    {
      created && Consistent()
    }

    /** The table as the database file holds it when the process starts. */
    constructor Open(created: bool, rows: seq<Row>, lastId: nat)
      requires StoredTable(created, rows, lastId)
      ensures Consistent()
      ensures this.created == created && this.rows == rows && this.lastId == lastId
    {
      this.created := created;
      this.rows := rows;
      this.lastId := lastId;
    }

    /** `CREATE TABLE IF NOT EXISTS urls (...)`: creates an empty table when there
        is none, and otherwise leaves the table and all its rows as they are. */
    method CreateIfNotExists()
      requires Consistent()
      modifies this
      ensures Valid()
      ensures rows == old(rows) && lastId == old(lastId)
    {
      if !created {
        created, rows, lastId := true, [], 0;
      }
    }

    /** INSERT_URL_RECORD: one new row at the end whose url, short_url, created_at
        and request_count are the four parameters in that order. No id is supplied:
        AUTOINCREMENT gives one above every id ever used. Nothing checks that the
        alias is new; the schema declares no UNIQUE constraint. */
    method InsertUrlRecord(url: string, shortUrl: string, createdAt: string, requestCount: int)
      requires Valid()
      modifies this
      ensures Valid()
      ensures lastId == old(lastId) + 1
      ensures forall k :: 0 <= k < |old(rows)| ==> old(rows)[k].id < lastId
      ensures rows == old(rows) + [Row(lastId, url, shortUrl, createdAt, requestCount)]
    {
      lastId := lastId + 1;
      rows := rows + [Row(lastId, url, shortUrl, createdAt, requestCount)];
    }

    /** UPDATE_REQUEST_COUNT with parameters (requestCount, url), applied row by row. */
    method UpdateRequestCount(requestCount: int, url: string)
      requires Valid()
      modifies this
      ensures Valid() && lastId == old(lastId)
      ensures rows == SetRequestCount(old(rows), requestCount, url)
    {
      var k := 0;
      while k < |rows|
        invariant 0 <= k <= |rows| == |old(rows)|
        invariant created && lastId == old(lastId)
        invariant forall j :: 0 <= j < |rows| ==> SameRecord(rows[j], old(rows)[j])
        invariant forall j :: 0 <= j < k && old(rows)[j].url == url ==> rows[j].requestCount == requestCount
        invariant forall j :: 0 <= j < k && old(rows)[j].url != url ==> rows[j] == old(rows)[j]
        invariant forall j :: k <= j < |rows| ==> rows[j] == old(rows)[j]
      {
        if rows[k].url == url {
          rows := rows[k := rows[k].(requestCount := requestCount)];
        }
        k := k + 1;
      }
      ghost var expected := SetRequestCount(old(rows), requestCount, url);
      assert forall j :: 0 <= j < |rows| ==> rows[j] == expected[j];
    }
  }
}
