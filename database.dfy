/**
  The record store (page_analyzer/database.py).

  `DataBase` keeps two tables, `urls` and `url_checks`, each with an id
  column filled from its own sequence. The tables are modelled as
  sequences of rows in insertion order and each sequence as a counter; the
  SQL queries become functions over those sequences, and the two inserts
  become methods that append a row and advance the counter.
 */
module Database {
  import opened Wrappers

  /** A date as the database prints it (`YYYY-MM-DD`); the current date is passed in by the caller. */
  type Date = string

  /** A row of `urls`. */
  datatype UrlRow = UrlRow(id: nat, name: string, createdAt: Date)

  /** The dictionary `add_check` receives: everything of a check row except its id and date. */
  datatype NewCheck = NewCheck(urlId: nat, statusCode: nat, h1: string, title: string, description: Option<string>)

  /** A row of `url_checks`. */
  datatype CheckRow = CheckRow(
    id: nat, urlId: nat, statusCode: nat, h1: string, title: string, description: Option<string>, createdAt: Date)

  /**
    A row of the `get_urls` listing: the url's id and name with the date and
    status code of its latest check, both as text, or `''` when it has none.
   */
  datatype UrlSummary = UrlSummary(id: nat, name: string, createdAt: string, statusCode: string)

  // -------------------------------------------------------------------------
  // Table properties
  // -------------------------------------------------------------------------

  /** Rows in insertion order carry strictly increasing ids, as a sequence hands them out. */
  predicate UrlIdsIncreasing(rows: seq<UrlRow>) {
    forall i, j :: 0 <= i < j < |rows| ==> rows[i].id < rows[j].id
  }

  predicate CheckIdsIncreasing(rows: seq<CheckRow>) {
    forall i, j :: 0 <= i < j < |rows| ==> rows[i].id < rows[j].id
  }

  predicate CheckIdsDecreasing(rows: seq<CheckRow>) {
    forall i, j :: 0 <= i < j < |rows| ==> rows[i].id > rows[j].id
  }

  predicate SummaryIdsDecreasing(rows: seq<UrlSummary>) {
    forall i, j :: 0 <= i < j < |rows| ==> rows[i].id > rows[j].id
  }

  /** No two url rows share a name. */
  predicate UniqueNames(rows: seq<UrlRow>) {
    forall i, j :: 0 <= i < j < |rows| ==> rows[i].name != rows[j].name
  }

  /** The number of url rows called `name`. */
  function Occurrences(rows: seq<UrlRow>, name: string): nat {
    if rows == [] then 0
    else (if rows[0].name == name then 1 else 0) + Occurrences(rows[1..], name)
  }

  // -------------------------------------------------------------------------
  // Queries
  // -------------------------------------------------------------------------

  /**
    `SELECT id FROM urls WHERE name = %s`, first row: the id of the first
    row called `name`, or none when no row has that name.
   */
  function FindIdByName(rows: seq<UrlRow>, name: string): (r: Option<nat>)
    ensures r.None? <==> forall i :: 0 <= i < |rows| ==> rows[i].name != name
    ensures r.Some? ==> exists i :: 0 <= i < |rows| && rows[i].name == name && rows[i].id == r.value
  {
    if rows == [] then None
    else if rows[0].name == name then Some(rows[0].id)
    else
      var r := FindIdByName(rows[1..], name);
      assert forall i :: 0 < i < |rows| ==> rows[i] == rows[1..][i - 1];
      r
  }

  /** `SELECT * FROM urls WHERE id = %s`: the url row with that id, or none. */
  function FindUrlById(rows: seq<UrlRow>, id: nat): (r: Option<UrlRow>)
    ensures r.None? <==> forall i :: 0 <= i < |rows| ==> rows[i].id != id
    ensures r.Some? ==> r.value in rows && r.value.id == id
  {
    if rows == [] then None
    else if rows[0].id == id then Some(rows[0])
    else
      var r := FindUrlById(rows[1..], id);
      assert forall i :: 0 < i < |rows| ==> rows[i] == rows[1..][i - 1];
      r
  }

  /** `SELECT * FROM url_checks WHERE id = %s`: the check row with that id, or none. */
  function FindCheckById(rows: seq<CheckRow>, id: nat): (r: Option<CheckRow>)
    ensures r.None? <==> forall i :: 0 <= i < |rows| ==> rows[i].id != id
    ensures r.Some? ==> r.value in rows && r.value.id == id
  {
    if rows == [] then None
    else if rows[0].id == id then Some(rows[0])
    else
      var r := FindCheckById(rows[1..], id);
      assert forall i :: 0 < i < |rows| ==> rows[i] == rows[1..][i - 1];
      r
  }

  /**
    `SELECT * FROM url_checks WHERE url_id = %s ORDER BY id DESC`: exactly
    the checks of that url, latest first; when the table's ids increase
    with insertion, the result's ids strictly decrease.
   */
  function ChecksOf(rows: seq<CheckRow>, urlId: nat): (r: seq<CheckRow>)
    ensures forall c :: c in r <==> c in rows && c.urlId == urlId
    ensures CheckIdsIncreasing(rows) ==> CheckIdsDecreasing(r)
  {
    if rows == [] then []
    else
      var init, last := rows[..|rows| - 1], rows[|rows| - 1];
      assert rows == init + [last];
      var rest := ChecksOf(init, urlId);
      if last.urlId == urlId then
        PrependLatest(rows, rest);
        [last] + rest
      else
        rest
  }

  /** The last row of a table whose ids increase goes in front of a decreasing selection of the others. */
  lemma PrependLatest(rows: seq<CheckRow>, rest: seq<CheckRow>)
    requires rows != []
    requires forall c :: c in rest ==> c in rows[..|rows| - 1]
    requires CheckIdsIncreasing(rows) ==> CheckIdsDecreasing(rest)
    ensures CheckIdsIncreasing(rows) ==> CheckIdsDecreasing([rows[|rows| - 1]] + rest)
  {
    if CheckIdsIncreasing(rows) {
      var last := rows[|rows| - 1];
      forall c | c in rest ensures c.id < last.id {
        var k :| 0 <= k < |rows| - 1 && rows[..|rows| - 1][k] == c;
        assert rows[k] == c;
      }
      var r := [last] + rest;
      forall i, j | 0 <= i < j < |r| ensures r[i].id > r[j].id {
        assert r[j] == rest[j - 1] && r[j] in rest;
        if i > 0 {
          assert r[i] == rest[i - 1];
        }
      }
    }
  }

  /**
    The check with the highest id among those of `urlId` — the row the
    `row_number() over (partition by url_id order by id desc) = 1` filter
    keeps — or none when the url has no checks.
   */
  function LatestCheck(rows: seq<CheckRow>, urlId: nat): (r: Option<CheckRow>)
    ensures r.None? <==> forall c :: c in rows ==> c.urlId != urlId
    ensures r.Some? ==> r.value in rows && r.value.urlId == urlId
    ensures r.Some? ==> forall c :: c in rows && c.urlId == urlId ==> c.id <= r.value.id
  {
    if rows == [] then None
    else
      var best := LatestCheck(rows[1..], urlId);
      assert forall c :: c in rows <==> c == rows[0] || c in rows[1..];
      if rows[0].urlId != urlId then best
      else if best.Some? && best.value.id >= rows[0].id then best
      else Some(rows[0])
  }

  // -------------------------------------------------------------------------
  // Text casts
  // -------------------------------------------------------------------------

  predicate IsDigit(c: char) {
    '0' <= c <= '9'
  }

  predicate AllDigits(s: string) {
    forall i :: 0 <= i < |s| ==> IsDigit(s[i])
  }

  function DigitChar(d: nat): (c: char)
    requires d < 10
    ensures IsDigit(c)
  {
    ('0' as int + d) as char
  }

  /** `cast(n as text)` for a non-negative integer: its decimal digits, without leading zeros. */
  function NatToDecimal(n: nat): (s: string)
    ensures s != [] && AllDigits(s)
    ensures s[0] == '0' ==> n == 0
    decreases n
  {
    if n < 10 then [DigitChar(n)]
    else
      var s := NatToDecimal(n / 10) + [DigitChar(n % 10)];
      assert s[0] == NatToDecimal(n / 10)[0];
      s
  }

  /** The number a string of decimal digits denotes. */
  function DecimalValue(s: string): nat
    requires AllDigits(s)
  {
    if s == [] then 0
    else DecimalValue(s[..|s| - 1]) * 10 + (s[|s| - 1] as int - '0' as int)
  }

  /** Reading the text of a status code back gives the status code. */
  lemma {:induction false} DecimalRoundTrip(n: nat)
    ensures DecimalValue(NatToDecimal(n)) == n
    decreases n
  {
    var s := NatToDecimal(n);
    if n >= 10 {
      assert s[..|s| - 1] == NatToDecimal(n / 10);
      DecimalRoundTrip(n / 10);
    }
  }

  /** Distinct status codes print differently. */
  lemma DecimalInjective(a: nat, b: nat)
    requires NatToDecimal(a) == NatToDecimal(b)
    ensures a == b
  {
    DecimalRoundTrip(a);
    DecimalRoundTrip(b);
  }

  // -------------------------------------------------------------------------
  // get_urls
  // -------------------------------------------------------------------------

  /**
    One line of the listing: the url joined to its latest check, with that
    check's date and status code as text, or `''` for both when the url has
    no checks (the `left join` and `coalesce`).
   */
  function Summary(u: UrlRow, checks: seq<CheckRow>): (s: UrlSummary)
    ensures s.id == u.id && s.name == u.name
    ensures LatestCheck(checks, u.id).None? ==> s.createdAt == "" && s.statusCode == ""
    ensures LatestCheck(checks, u.id).Some? ==>
      && s.statusCode != "" && AllDigits(s.statusCode)
      && DecimalValue(s.statusCode) == LatestCheck(checks, u.id).value.statusCode
      && s.createdAt == LatestCheck(checks, u.id).value.createdAt
  {
    match LatestCheck(checks, u.id)
    case None => UrlSummary(u.id, u.name, "", "")
    case Some(c) =>
      DecimalRoundTrip(c.statusCode);
      UrlSummary(u.id, u.name, c.createdAt, NatToDecimal(c.statusCode))
  }

  /**
    `get_urls`'s listing: one line per url row, newest row first; when the
    table's ids increase with insertion, the listing's ids strictly decrease.
   */
  function Summaries(urls: seq<UrlRow>, checks: seq<CheckRow>): (r: seq<UrlSummary>)
    ensures |r| == |urls|
    ensures forall i :: 0 <= i < |urls| ==> r[i] == Summary(urls[|urls| - 1 - i], checks)
    ensures UrlIdsIncreasing(urls) ==> SummaryIdsDecreasing(r)
  {
    if urls == [] then []
    else
      var init := urls[..|urls| - 1];
      var r := [Summary(urls[|urls| - 1], checks)] + Summaries(init, checks);
      assert forall i :: 0 < i < |urls| ==> r[i] == Summary(init[|init| - 1 - (i - 1)], checks);
      r
  }

  // -------------------------------------------------------------------------
  // Lemmas about appending rows
  // -------------------------------------------------------------------------

  /** Appending a row changes a name lookup only when the name was absent and is the new row's. */
  lemma {:induction false} FindIdByNameAppend(rows: seq<UrlRow>, row: UrlRow, name: string)
    ensures FindIdByName(rows + [row], name)
      == if FindIdByName(rows, name).Some? then FindIdByName(rows, name)
         else if row.name == name then Some(row.id) else None
  {
    if rows != [] {
      assert (rows + [row])[1..] == rows[1..] + [row];
      FindIdByNameAppend(rows[1..], row, name);
    }
  }

  /** Appending a row with a fresh id keeps every id lookup, and finds the new row by its id. */
  lemma {:induction false} FindUrlByIdAppend(rows: seq<UrlRow>, row: UrlRow, id: nat)
    requires forall i :: 0 <= i < |rows| ==> rows[i].id != row.id
    ensures FindUrlById(rows + [row], id) == if id == row.id then Some(row) else FindUrlById(rows, id)
  {
    if rows != [] {
      assert (rows + [row])[1..] == rows[1..] + [row];
      FindUrlByIdAppend(rows[1..], row, id);
    }
  }

  /** Appending a check row with a fresh id finds it by that id. */
  lemma {:induction false} FindCheckByIdAppend(rows: seq<CheckRow>, row: CheckRow, id: nat)
    requires forall i :: 0 <= i < |rows| ==> rows[i].id != row.id
    ensures FindCheckById(rows + [row], id) == if id == row.id then Some(row) else FindCheckById(rows, id)
  {
    if rows != [] {
      assert (rows + [row])[1..] == rows[1..] + [row];
      FindCheckByIdAppend(rows[1..], row, id);
    }
  }

  /** With unique names, a name occurs once when the lookup finds it and never otherwise. */
  lemma {:induction false} OccurrencesOfUnique(rows: seq<UrlRow>, name: string)
    requires UniqueNames(rows)
    ensures Occurrences(rows, name) == if FindIdByName(rows, name).Some? then 1 else 0
  {
    if rows != [] {
      assert UniqueNames(rows[1..]);
      OccurrencesOfUnique(rows[1..], name);
      if rows[0].name == name {
        assert FindIdByName(rows[1..], name).None? by {
          forall i | 0 <= i < |rows[1..]| ensures rows[1..][i].name != name {
            assert rows[1..][i] == rows[i + 1];
          }
        }
      }
    }
  }

  /** A url table's ids are at least 1, below `next`, and increase with insertion. */
  predicate UrlTable(rows: seq<UrlRow>, next: nat) {
    (forall i :: 0 <= i < |rows| ==> 1 <= rows[i].id < next) && UrlIdsIncreasing(rows)
  }

  predicate CheckTable(rows: seq<CheckRow>, next: nat) {
    (forall i :: 0 <= i < |rows| ==> 1 <= rows[i].id < next) && CheckIdsIncreasing(rows)
  }

  /** A row under the next id is new and keeps the table well formed, with the sequence advanced. */
  lemma UrlTableAppend(rows: seq<UrlRow>, next: nat, row: UrlRow)
    requires UrlTable(rows, next) && row.id == next && 1 <= next
    ensures UrlTable(rows + [row], next + 1)
    ensures forall i :: 0 <= i < |rows| ==> rows[i].id != next
  {
    var r := rows + [row];
    forall i | 0 <= i < |r| ensures 1 <= r[i].id < next + 1 {
      if i < |rows| { assert r[i] == rows[i]; }
    }
    forall i, j | 0 <= i < j < |r| ensures r[i].id < r[j].id {
      assert r[i] == rows[i];
      if j < |rows| { assert r[j] == rows[j]; }
    }
  }

  lemma CheckTableAppend(rows: seq<CheckRow>, next: nat, row: CheckRow)
    requires CheckTable(rows, next) && row.id == next && 1 <= next
    ensures CheckTable(rows + [row], next + 1)
    ensures forall i :: 0 <= i < |rows| ==> rows[i].id != next
  {
    var r := rows + [row];
    forall i | 0 <= i < |r| ensures 1 <= r[i].id < next + 1 {
      if i < |rows| { assert r[i] == rows[i]; }
    }
    forall i, j | 0 <= i < j < |r| ensures r[i].id < r[j].id {
      assert r[i] == rows[i];
      if j < |rows| { assert r[j] == rows[j]; }
    }
  }

  /** A row whose name no row has keeps the names unique. */
  lemma UniqueNamesAppend(rows: seq<UrlRow>, row: UrlRow)
    requires UniqueNames(rows) && FindIdByName(rows, row.name).None?
    ensures UniqueNames(rows + [row])
  {
    var r := rows + [row];
    forall i, j | 0 <= i < j < |r| ensures r[i].name != r[j].name {
      assert r[i] == rows[i];
      if j < |rows| { assert r[j] == rows[j]; }
    }
  }

  /** Every check row belongs to an existing url row. */
  predicate ChecksReferToUrls(urls: seq<UrlRow>, checks: seq<CheckRow>) {
    forall i :: 0 <= i < |checks| ==> FindUrlById(urls, checks[i].urlId).Some?
  }

  /** A new url row with a fresh id leaves every check with its url. */
  lemma ChecksReferAfterUrlAppend(urls: seq<UrlRow>, row: UrlRow, checks: seq<CheckRow>)
    requires forall i :: 0 <= i < |urls| ==> urls[i].id != row.id
    requires ChecksReferToUrls(urls, checks)
    ensures ChecksReferToUrls(urls + [row], checks)
  {
    forall i | 0 <= i < |checks| ensures FindUrlById(urls + [row], checks[i].urlId).Some? {
      FindUrlByIdAppend(urls, row, checks[i].urlId);
    }
  }

  /** A new check row of an existing url keeps every check with its url. */
  lemma ChecksReferAfterCheckAppend(urls: seq<UrlRow>, checks: seq<CheckRow>, row: CheckRow)
    requires ChecksReferToUrls(urls, checks) && FindUrlById(urls, row.urlId).Some?
    ensures ChecksReferToUrls(urls, checks + [row])
  {
    var r := checks + [row];
    forall i | 0 <= i < |r| ensures FindUrlById(urls, r[i].urlId).Some? {
      if i < |checks| { assert r[i] == checks[i]; }
    }
  }

  /** What appending a row under the next id does to a url table and to the lookups over it. */
  lemma UrlAppend(urls: seq<UrlRow>, next: nat, row: UrlRow, checks: seq<CheckRow>)
    requires UrlTable(urls, next) && row.id == next && 1 <= next
    ensures UrlTable(urls + [row], next + 1)
    ensures forall i :: 0 <= i < |urls| ==> urls[i].id != next
    ensures FindIdByName(urls + [row], row.name)
      == if FindIdByName(urls, row.name).Some? then FindIdByName(urls, row.name) else Some(next)
    ensures FindUrlById(urls + [row], next) == Some(row)
    ensures UniqueNames(urls) && FindIdByName(urls, row.name).None? ==> UniqueNames(urls + [row])
    ensures ChecksReferToUrls(urls, checks) ==> ChecksReferToUrls(urls + [row], checks)
  {
    UrlTableAppend(urls, next, row);
    FindIdByNameAppend(urls, row, row.name);
    FindUrlByIdAppend(urls, row, next);
    if UniqueNames(urls) && FindIdByName(urls, row.name).None? {
      UniqueNamesAppend(urls, row);
    }
    if ChecksReferToUrls(urls, checks) {
      ChecksReferAfterUrlAppend(urls, row, checks);
    }
  }

  /** The check row `add_check` stores for `check` under `id`, dated `today`. */
  function CheckRowOf(id: nat, check: NewCheck, today: Date): (r: CheckRow)
    ensures r.id == id && r.createdAt == today
    ensures NewCheck(r.urlId, r.statusCode, r.h1, r.title, r.description) == check
  {
    CheckRow(id, check.urlId, check.statusCode, check.h1, check.title, check.description, today)
  }

  // -------------------------------------------------------------------------
  // The store
  // -------------------------------------------------------------------------

  /** The store: both tables and the next value of each id sequence. */
  class DataBase {
    var urls: seq<UrlRow>
    var checks: seq<CheckRow>
    var nextUrlId: nat
    var nextCheckId: nat

    /** Ids start at 1, are below the next value of their sequence, and increase with insertion. */
    ghost predicate Valid()
      reads this
    {
      1 <= nextUrlId && 1 <= nextCheckId && UrlTable(urls, nextUrlId) && CheckTable(checks, nextCheckId)
    }

    /** An empty store whose sequences start at 1. */
    constructor()
      ensures Valid()
      ensures urls == [] && checks == [] && nextUrlId == 1 && nextCheckId == 1
    {
      urls := [];
      checks := [];
      nextUrlId := 1;
      nextCheckId := 1;
    }

    /** `get_url_id`: the id of the url row called `name`, or none. */
    function GetUrlId(name: string): Option<nat>
      reads this
    {
      FindIdByName(urls, name)
    }

    /** `get_url_by_id`: the url row with that id, or none. */
    function GetUrlById(id: nat): Option<UrlRow>
      reads this
    {
      FindUrlById(urls, id)
    }

    /** `get_check_by_id`: the check row with that id, or none. */
    function GetCheckById(id: nat): Option<CheckRow>
      reads this
    {
      FindCheckById(checks, id)
    }

    /** `get_url_checks`: exactly the checks of that url, in strictly decreasing id order in a valid store. */
    function GetUrlChecks(urlId: nat): (r: seq<CheckRow>)
      reads this
      ensures forall c :: c in r <==> c in checks && c.urlId == urlId
      ensures Valid() ==> CheckIdsDecreasing(r)
    {
      ChecksOf(checks, urlId)
    }

    /**
      `get_urls`: every url row once, newest first (in strictly decreasing id
      order in a valid store), each with the date and status code of its
      latest check or `''`.
     */
    function GetUrls(): (r: seq<UrlSummary>)
      reads this
      ensures |r| == |urls|
      ensures Valid() ==> SummaryIdsDecreasing(r)
      ensures forall i :: 0 <= i < |r| ==> r[i] == Summary(urls[|urls| - 1 - i], checks)
    {
      Summaries(urls, checks)
    }

    /**
      `add_url`: appends one url row with the next id and today's date and
      returns that id, which no earlier row has. The checks are untouched,
      and a name that was absent is now found under the new id.
     */
    method AddUrl(name: string, today: Date) returns (id: nat)
      requires Valid()
      modifies this
      ensures Valid()
      ensures id == old(nextUrlId) && nextUrlId == id + 1
      ensures urls == old(urls) + [UrlRow(id, name, today)]
      ensures checks == old(checks) && nextCheckId == old(nextCheckId)
      ensures forall i :: 0 <= i < |old(urls)| ==> old(urls)[i].id != id
      ensures GetUrlId(name) == if old(GetUrlId(name)).Some? then old(GetUrlId(name)) else Some(id)
      ensures GetUrlById(id) == Some(UrlRow(id, name, today))
      ensures UniqueNames(old(urls)) && old(GetUrlId(name)).None? ==> UniqueNames(urls)
      ensures ChecksReferToUrls(old(urls), checks) ==> ChecksReferToUrls(urls, checks)
    {
      id := nextUrlId;
      var row := UrlRow(id, name, today);
      UrlAppend(urls, nextUrlId, row, checks);
      urls := urls + [row];
      nextUrlId := nextUrlId + 1;
    }

    /**
      `add_check`: appends one check row with the next id, the given fields
      and today's date, and returns that id, which no earlier row has. The
      urls are untouched.
     */
    method AddCheck(check: NewCheck, today: Date) returns (id: nat)
      requires Valid()
      modifies this
      ensures Valid()
      ensures id == old(nextCheckId) && nextCheckId == id + 1
      ensures checks == old(checks) + [CheckRowOf(id, check, today)]
      ensures urls == old(urls) && nextUrlId == old(nextUrlId)
      ensures forall i :: 0 <= i < |old(checks)| ==> old(checks)[i].id != id
      ensures GetCheckById(id) == Some(CheckRowOf(id, check, today))
      ensures ChecksReferToUrls(urls, old(checks)) && GetUrlById(check.urlId).Some? ==> ChecksReferToUrls(urls, checks)
    {
      id := nextCheckId;
      var row := CheckRowOf(id, check, today);
      CheckTableAppend(checks, nextCheckId, row);
      FindCheckByIdAppend(checks, row, id);
      if ChecksReferToUrls(urls, checks) && FindUrlById(urls, check.urlId).Some? {
        ChecksReferAfterCheckAppend(urls, checks, row);
      }
      checks, nextCheckId := checks + [row], nextCheckId + 1;
    }
  }
}
