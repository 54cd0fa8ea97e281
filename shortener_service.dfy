/**
 * The service layer of service/url_shortner_service.py: class
 * URLShortnerService, which draws random six-character aliases until it finds
 * one no row carries, stores it with the long url, and resolves aliases
 * through the record store.
 *
 * `random.choice` is an oracle: a stream of draws, each an index into the
 * 62-character alphabet, is passed in. One alias consumes DefaultLength draws.
 * FreshAlias is the alias the retry loop settles on for a given stream.
 */
module ShortenerService {
  import opened Wrappers
  import opened Queries
  import opened UrlStore

  /** string.ascii_letters and string.digits. */
  const AsciiLetters: string := "abcdefghijklmnopqrstuvwxyzABCDEFGHIJKLMNOPQRSTUVWXYZ"
  const Digits: string := "0123456789"
  const Alphabet: string := AsciiLetters + Digits

  /** The default `length` of generate_short_url. */
  const DefaultLength: nat := 6

  /** One `random.choice(chars)`: the index of the chosen character. */
  type Draw = i: int | 0 <= i < 62

  predicate IsAlphanumeric(c: char)
  {
    'a' <= c <= 'z' || 'A' <= c <= 'Z' || '0' <= c <= '9'
  }

  predicate AllAlphanumeric(s: string)
  {
    forall k :: 0 <= k < |s| ==> IsAlphanumeric(s[k])
  }

  /** The character at position `i` of the alphabet, by arithmetic. */
  function AlphabetChar(i: Draw): char
  {
    if i < 26 then ('a' as int + i) as char
    else if i < 52 then ('A' as int + (i - 26)) as char
    else ('0' as int + (i - 52)) as char
  }

  function LowerCase(): (s: string)
    ensures |s| == 26 && forall i :: 0 <= i < 26 ==> s[i] == ('a' as int + i) as char
  {
    seq(26, i requires 0 <= i < 26 => ('a' as int + i) as char)
  }

  function UpperCase(): (s: string)
    ensures |s| == 26 && forall i :: 0 <= i < 26 ==> s[i] == ('A' as int + i) as char
  {
    seq(26, i requires 0 <= i < 26 => ('A' as int + i) as char)
  }

  function DecimalDigits(): (s: string)
    ensures |s| == 10 && forall i :: 0 <= i < 10 ==> s[i] == ('0' as int + i) as char
  {
    seq(10, i requires 0 <= i < 10 => ('0' as int + i) as char)
  }

  /** The alphabet is the 26 lower-case letters, the 26 upper-case letters and the
      ten digits, in that order. */
  lemma AlphabetParts()
    ensures Alphabet == LowerCase() + UpperCase() + DecimalDigits()
  {
    assert LowerCase() == "abcdefghijklmnopqrstuvwxyz";
    assert UpperCase() == "ABCDEFGHIJKLMNOPQRSTUVWXYZ";
    assert DecimalDigits() == Digits;
  }

  /** Position by position, the alphabet is what AlphabetChar computes. */
  lemma AlphabetChars()
    ensures |Alphabet| == 62
    ensures forall i :: 0 <= i < 62 ==> Alphabet[i] == AlphabetChar(i)
  {
    AlphabetParts();
    var lower, upper, digits := LowerCase(), UpperCase(), DecimalDigits();
    forall i | 0 <= i < 62
      ensures Alphabet[i] == AlphabetChar(i)
    {
      if i < 26 {
        assert Alphabet[i] == lower[i];
      } else if i < 52 {
        assert Alphabet[i] == upper[i - 26];
      } else {
        assert Alphabet[i] == digits[i - 52];
      }
    }
  }

  /** Where an alphanumeric character sits in the alphabet. */
  function AlphabetIndex(c: char): (i: Draw)
    requires IsAlphanumeric(c)
    ensures Alphabet[i] == c
  {
    AlphabetChars();
    if 'a' <= c <= 'z' then c as int - 'a' as int
    else if 'A' <= c <= 'Z' then c as int - 'A' as int + 26
    else c as int - '0' as int + 52
  }

  /** Every character of the alphabet is alphanumeric, and its index is the draw
      that picks it. */
  lemma AlphabetIndexInverse(i: Draw)
    ensures IsAlphanumeric(Alphabet[i])
    ensures AlphabetIndex(Alphabet[i]) == i
  {
    AlphabetChars();
  }

  /** generate_short_url(length): `length` characters picked by the first
      `length` draws. */
  function GenerateShortUrl(draws: seq<Draw>, length: nat := DefaultLength): (s: string)
    requires length <= |draws|
    ensures |s| == length
    ensures AllAlphanumeric(s)
  {
    AlphabetChars();
    seq(length, k requires 0 <= k < length => Alphabet[draws[k]])
  }

  /** The draws that generate an alphanumeric string. */
  function DrawsOf(s: string): (d: seq<Draw>)
    requires AllAlphanumeric(s)
    ensures |d| == |s|
  {
    seq(|s|, k requires 0 <= k < |s| => AlphabetIndex(s[k]))
  }

  /** Different draws give different aliases: the alias determines its draws. */
  lemma GenerateIsInjective(draws: seq<Draw>)
    ensures DrawsOf(GenerateShortUrl(draws, |draws|)) == draws
  {
    var s := GenerateShortUrl(draws, |draws|);
    forall k | 0 <= k < |draws|
      ensures DrawsOf(s)[k] == draws[k]
    {
      AlphabetIndexInverse(draws[k]);
    }
  }

  /** Every alphanumeric string of a given length can be generated. */
  lemma GenerateIsOnto(s: string)
    requires AllAlphanumeric(s)
    ensures GenerateShortUrl(DrawsOf(s), |s|) == s
  {
    var g := GenerateShortUrl(DrawsOf(s), |s|);
    forall k | 0 <= k < |s|
      ensures g[k] == s[k]
    {
      assert Alphabet[AlphabetIndex(s[k])] == s[k];
    }
  }

  /** The alias the n-th call of generate_short_url (counting from 0) produces. */
  function Candidate(draws: seq<Draw>, n: nat): (s: string)
    requires (n + 1) * DefaultLength <= |draws|
    ensures |s| == DefaultLength && AllAlphanumeric(s)
  {
    GenerateShortUrl(draws[n * DefaultLength..])
  }

  /** The alias create_short_url settles on when it has drawn `n` candidates
      already: the first candidate from the n-th on that no row carries, or None
      when the draws run out first. */
  function FreshAlias(rows: seq<Row>, draws: seq<Draw>, n: nat): (r: Option<string>)
    ensures r.Some? ==> |r.value| == DefaultLength && AllAlphanumeric(r.value)
    ensures r.Some? ==> !HasShortUrl(rows, r.value)
    decreases |draws| - n * DefaultLength
  {
    if |draws| < (n + 1) * DefaultLength then None
    else if HasShortUrl(rows, Candidate(draws, n)) then FreshAlias(rows, draws, n + 1)
    else Some(Candidate(draws, n))
  }

  /** FreshAlias comes up empty exactly when every candidate the draws make,
      from the n-th on, is taken. */
  lemma {:induction false} FreshAliasNoneWhenAllTaken(rows: seq<Row>, draws: seq<Draw>, n: nat)
    ensures FreshAlias(rows, draws, n).None? <==>
            forall i :: n <= i && (i + 1) * DefaultLength <= |draws| ==> HasShortUrl(rows, Candidate(draws, i))
    decreases |draws| - n * DefaultLength
  {
    if (n + 1) * DefaultLength <= |draws| && HasShortUrl(rows, Candidate(draws, n)) {
      FreshAliasNoneWhenAllTaken(rows, draws, n + 1);
    }
  }

  /** The alias FreshAlias picks is a candidate, from the n-th on, all of whose
      predecessors are taken. */
  lemma {:induction false} FreshAliasIsFirstFree(rows: seq<Row>, draws: seq<Draw>, n: nat)
    requires FreshAlias(rows, draws, n).Some?
    ensures exists i :: n <= i && (i + 1) * DefaultLength <= |draws| && FreshAlias(rows, draws, n).value == Candidate(draws, i) &&
                        forall j :: n <= j < i ==> HasShortUrl(rows, Candidate(draws, j))
    decreases |draws| - n * DefaultLength
  {
    if HasShortUrl(rows, Candidate(draws, n)) {
      FreshAliasIsFirstFree(rows, draws, n + 1);
      var i :| n + 1 <= i && (i + 1) * DefaultLength <= |draws| && FreshAlias(rows, draws, n + 1).value == Candidate(draws, i) &&
               forall j :: n + 1 <= j < i ==> HasShortUrl(rows, Candidate(draws, j));
      assert forall j :: n <= j < i ==> HasShortUrl(rows, Candidate(draws, j));
    } else {
      assert FreshAlias(rows, draws, n).value == Candidate(draws, n);
    }
  }

  /** The row insert_url_record appends for a new alias. */
  function NewRow(id: nat, longUrl: string, shortUrl: string, createdAt: string): Row
  {
    Row(id, longUrl, shortUrl, createdAt, 0)
  }

  /** Storing a fresh alias: the alias now resolves to its long url, and every
      other alias resolves as before. */
  lemma CreatedAliasResolves(rows: seq<Row>, id: nat, longUrl: string, shortUrl: string, createdAt: string)
    requires !HasShortUrl(rows, shortUrl)
    ensures Lookup(rows + [NewRow(id, longUrl, shortUrl, createdAt)], shortUrl) == Some(longUrl)
    ensures forall other :: other != shortUrl ==>
              Lookup(rows + [NewRow(id, longUrl, shortUrl, createdAt)], other) == Lookup(rows, other)
  {
    var row := NewRow(id, longUrl, shortUrl, createdAt);
    FirstWhereAppend(rows, row, ShortUrlColumn, shortUrl);
    forall other | other != shortUrl
      ensures Lookup(rows + [row], other) == Lookup(rows, other)
    {
      FirstWhereAppend(rows, row, ShortUrlColumn, other);
      var all := rows + [row];
      match FirstWhere(rows, ShortUrlColumn, other)
      case None =>
      case Some(k) => assert all[k] == rows[k];
    }
  }

  /** Storing the alias FreshAlias picks keeps every alias unique. */
  lemma CreateKeepsAliasesUnique(rows: seq<Row>, draws: seq<Draw>, id: nat, longUrl: string, createdAt: string)
    requires UniqueAliases(rows)
    requires FreshAlias(rows, draws, 0).Some?
    ensures UniqueAliases(rows + [NewRow(id, longUrl, FreshAlias(rows, draws, 0).value, createdAt)])
  {
    var all := rows + [NewRow(id, longUrl, FreshAlias(rows, draws, 0).value, createdAt)];
    forall j, k | 0 <= j < k < |all|
      ensures all[j].shortUrl != all[k].shortUrl
    {
      if k == |rows| {
        assert all[j] == rows[j];
      }
    }
  }

  /** Resolving an alias changes only counters, so aliases stay unique. */
  lemma ResolveKeepsAliasesUnique(rows: seq<Row>, shortUrl: string)
    requires UniqueAliases(rows)
    ensures UniqueAliases(Resolved(rows, shortUrl))
  {
    var r := Resolved(rows, shortUrl);
    forall j, k | 0 <= j < k < |r|
      ensures r[j].shortUrl != r[k].shortUrl
    {
      assert SameRecord(r[j], rows[j]) && SameRecord(r[k], rows[k]);
    }
  }

  /** Shortening the same long url twice stores two rows with distinct aliases,
      and each alias resolves to that url. */
  lemma SameUrlTwice(rows: seq<Row>, draws1: seq<Draw>, draws2: seq<Draw>, id1: nat, id2: nat,
                     longUrl: string, createdAt1: string, createdAt2: string)
    requires FreshAlias(rows, draws1, 0).Some?
    requires FreshAlias(rows + [NewRow(id1, longUrl, FreshAlias(rows, draws1, 0).value, createdAt1)], draws2, 0).Some?
    ensures var first := FreshAlias(rows, draws1, 0).value;
            var rows1 := rows + [NewRow(id1, longUrl, first, createdAt1)];
            var second := FreshAlias(rows1, draws2, 0).value;
            var rows2 := rows1 + [NewRow(id2, longUrl, second, createdAt2)];
            first != second && Lookup(rows2, first) == Some(longUrl) && Lookup(rows2, second) == Some(longUrl)
  {
    var first := FreshAlias(rows, draws1, 0).value;
    var rows1 := rows + [NewRow(id1, longUrl, first, createdAt1)];
    var second := FreshAlias(rows1, draws2, 0).value;
    CreatedAliasResolves(rows, id1, longUrl, first, createdAt1);
    CreatedAliasResolves(rows1, id2, longUrl, second, createdAt2);
  }

  /** A newly stored alias whose long url no earlier row has: after `n`
      resolutions its counter reads exactly `n`. */
  lemma NewUrlCountsResolutions(rows: seq<Row>, id: nat, longUrl: string, shortUrl: string, createdAt: string, n: nat)
    requires !HasShortUrl(rows, shortUrl)
    requires forall k :: 0 <= k < |rows| ==> rows[k].url != longUrl
    ensures Anchored(Iterate(ResolveStep(shortUrl), rows + [NewRow(id, longUrl, shortUrl, createdAt)], n), shortUrl, |rows|)
    ensures Iterate(ResolveStep(shortUrl), rows + [NewRow(id, longUrl, shortUrl, createdAt)], n)[|rows|].requestCount == n
  {
    var all := rows + [NewRow(id, longUrl, shortUrl, createdAt)];
    assert forall k :: 0 <= k < |rows| ==> all[k] == rows[k];
    RepeatedResolution(all, shortUrl, |rows|, n);
  }

  /** The service: URLShortnerService and the record store it holds. */
  class UrlShortenerService {
    const urldb: UrlDb

    ghost predicate Valid()
      reads urldb, urldb.db
    {
      urldb.Valid()
    }

    /** URLShortnerService(): open the record store on the database file, whose
        state is given. */
    constructor (created: bool, rows: seq<Row>, lastId: nat)
      requires StoredTable(created, rows, lastId)
      ensures Valid() && fresh(urldb) && fresh(urldb.db)
      ensures urldb.db.rows == rows && urldb.db.lastId == lastId
    {
      urldb := new UrlDb(created, rows, lastId);
    }

    /** get_long_url(shortUrl): the record store's get_url_record. */
    method GetLongUrl(shortUrl: string) returns (r: Option<string>)
      requires Valid()
      modifies urldb.db
      ensures Valid() && urldb.db.lastId == old(urldb.db.lastId)
      ensures r == Lookup(old(urldb.db.rows), shortUrl)
      ensures urldb.db.rows == Resolved(old(urldb.db.rows), shortUrl)
      ensures UniqueAliases(old(urldb.db.rows)) ==> UniqueAliases(urldb.db.rows)
      ensures CountsOrdered(old(urldb.db.rows)) ==>
                CountsOrdered(urldb.db.rows) &&
                forall k :: 0 <= k < |urldb.db.rows| ==> old(urldb.db.rows)[k].requestCount <= urldb.db.rows[k].requestCount
    {
      if UniqueAliases(urldb.db.rows) {
        ResolveKeepsAliasesUnique(urldb.db.rows, shortUrl);
      }
      if CountsOrdered(urldb.db.rows) {
        ResolveRaisesCounts(urldb.db.rows, shortUrl);
      }
      r := urldb.GetUrlRecord(shortUrl);
    }

    /** create_short_url(longUrl) at time `createdAt`, with `draws` standing for
        random.choice: draw an alias, draw again while it is taken, then store
        it. None, and no change, when the draws run out before a free alias. */
    method CreateShortUrl(longUrl: string, createdAt: string, draws: seq<Draw>) returns (r: Option<string>)
      requires Valid()
      modifies urldb.db
      ensures Valid()
      ensures r == FreshAlias(old(urldb.db.rows), draws, 0)
      ensures r.None? ==> urldb.db.rows == old(urldb.db.rows) && urldb.db.lastId == old(urldb.db.lastId)
      ensures r.Some? ==> urldb.db.lastId == old(urldb.db.lastId) + 1 &&
                          urldb.db.rows == old(urldb.db.rows) + [NewRow(urldb.db.lastId, longUrl, r.value, createdAt)]
      ensures r.Some? ==> Lookup(urldb.db.rows, r.value) == Some(longUrl)
      ensures UniqueAliases(old(urldb.db.rows)) ==> UniqueAliases(urldb.db.rows)
      ensures CountsOrdered(old(urldb.db.rows)) ==> CountsOrdered(urldb.db.rows)
    {
      if |draws| < DefaultLength {
        return None;
      }
      var n := 0;
      var shortUrl := GenerateShortUrl(draws);
      var taken := urldb.ShortUrlExists(shortUrl);
      while taken
        invariant (n + 1) * DefaultLength <= |draws|
        invariant shortUrl == Candidate(draws, n)
        invariant taken <==> HasShortUrl(urldb.db.rows, shortUrl)
        invariant FreshAlias(urldb.db.rows, draws, 0) == FreshAlias(urldb.db.rows, draws, n)
        invariant Valid() && urldb.db.rows == old(urldb.db.rows) && urldb.db.lastId == old(urldb.db.lastId)
        decreases |draws| - n * DefaultLength
      {
        if |draws| < (n + 2) * DefaultLength {
          return None;
        }
        n := n + 1;
        shortUrl := GenerateShortUrl(draws[n * DefaultLength..]);
        taken := urldb.ShortUrlExists(shortUrl);
      }
      urldb.InsertUrlRecord(longUrl, shortUrl, createdAt);
      CreatedAliasResolves(old(urldb.db.rows), urldb.db.lastId, longUrl, shortUrl, createdAt);
      if UniqueAliases(old(urldb.db.rows)) {
        CreateKeepsAliasesUnique(old(urldb.db.rows), draws, urldb.db.lastId, longUrl, createdAt);
      }
      if CountsOrdered(old(urldb.db.rows)) {
        InsertKeepsCountsOrdered(old(urldb.db.rows), NewRow(urldb.db.lastId, longUrl, shortUrl, createdAt));
      }
      return Some(shortUrl);
    }
  }
}
