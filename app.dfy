/**
  The two handlers of page_analyzer/app.py that change the store.

  `urls_post` validates a submitted address, normalises it to
  `scheme://hostname` and inserts it only when no row has that name yet.
  `check_post` fetches the page of a stored url and records one check row
  only when every step succeeds. Rendering and flashing are reduced to a
  returned `Response`; the page fetch and the syntax check of
  `validators.url` are parameters.
 */
module App {
  import opened Wrappers
  import opened ProcessUrl
  import opened Parser
  import opened Database

  /** The flashed messages that accompany a redirect. */
  datatype Flash = PageExists | PageAdded | PageChecked | CheckFailed

  /**
    What a handler answers: the form again with status 422 and the flashed
    validation message, a 404, or a 302 redirect to a url's page.
   */
  datatype Response = Unprocessable(message: string) | NotFound | Redirect(urlId: nat, flash: Flash)

  /**
    The outcome of `requests.get(site)`: the call raised, or a response with
    its status code and the page as the extractor reads it (`None` when
    reading it raises).
   */
  datatype FetchResult = TransportError | HttpResponse(statusCode: nat, page: Option<Document>)

  /** `raise_for_status` raises for client errors (4xx) and server errors (5xx). */
  predicate RaisesForStatus(code: nat) {
    400 <= code < 600
  }

  /**
    The check a fetch of url `urlId` yields: none when the request, the
    status check or the extractor raises; otherwise the status code and the
    page's `h1`, `title` and description, tagged with `urlId`.
   */
  function CheckOf(urlId: nat, fetch: FetchResult): (r: Option<NewCheck>)
    ensures r.Some? <==> fetch.HttpResponse? && !RaisesForStatus(fetch.statusCode) && fetch.page.Some?
    ensures r.Some? ==> r.value.urlId == urlId && r.value.statusCode == fetch.statusCode
    ensures r.Some? ==> var d := GetData(fetch.statusCode, fetch.page.value);
      r.value.h1 == d.h1 && r.value.title == d.title && r.value.description == d.description
  {
    match fetch
    case TransportError => None
    case HttpResponse(code, page) =>
      if RaisesForStatus(code) || page.None? then None
      else
        var d := GetData(code, page.value);
        Some(NewCheck(urlId, d.statusCode, d.h1, d.title, d.description))
  }

  /**
    `urls_post`. An invalid address is answered with 422 and its message,
    and the store is unchanged. A valid one is normalised; when a row has
    that name the answer redirects to it and nothing is inserted, otherwise
    exactly one row with the name is appended and the answer redirects to
    its fresh id. Either way the name then has a row under the redirect's
    id, and names stay unique and checks keep referring to existing urls.
   */
  method UrlsPost(db: DataBase, url: string, isValidUrl: string -> bool, today: Date) returns (resp: Response)
    requires db.Valid()
    modifies db
    ensures db.Valid()
    ensures db.checks == old(db.checks) && db.nextCheckId == old(db.nextCheckId)
    ensures Verdict(url, isValidUrl).Some? ==>
      && resp == Unprocessable(Message(Verdict(url, isValidUrl).value))
      && db.urls == old(db.urls) && db.nextUrlId == old(db.nextUrlId)
    ensures Verdict(url, isValidUrl).None? && old(db.GetUrlId(NormalizeUrl(url))).Some? ==>
      && resp == Redirect(old(db.GetUrlId(NormalizeUrl(url))).value, PageExists)
      && db.urls == old(db.urls) && db.nextUrlId == old(db.nextUrlId)
    ensures Verdict(url, isValidUrl).None? && old(db.GetUrlId(NormalizeUrl(url))).None? ==>
      && resp == Redirect(old(db.nextUrlId), PageAdded)
      && db.urls == old(db.urls) + [UrlRow(old(db.nextUrlId), NormalizeUrl(url), today)]
      && db.nextUrlId == old(db.nextUrlId) + 1
    ensures resp.Redirect? ==> db.GetUrlId(NormalizeUrl(url)) == Some(resp.urlId)
    ensures UniqueNames(old(db.urls)) ==> UniqueNames(db.urls)
    ensures Verdict(url, isValidUrl).None? && UniqueNames(old(db.urls)) ==>
      Occurrences(db.urls, NormalizeUrl(url)) == 1
    ensures ChecksReferToUrls(old(db.urls), old(db.checks)) ==> ChecksReferToUrls(db.urls, db.checks)
  {
    var errors := ValidateUrl(url, isValidUrl);
    if errors != map[] {
      assert "url" in errors;
      resp := Unprocessable(errors["url"]);
      return;
    }
    var name := NormalizeUrl(url);
    var id := db.GetUrlId(name);
    // `if id:` — a found id is truthy, since ids start at 1
    if id.Some? && id.value != 0 {
      resp := Redirect(id.value, PageExists);
    } else {
      var newId := db.AddUrl(name, today);
      resp := Redirect(newId, PageAdded);
    }
    if UniqueNames(db.urls) {
      OccurrencesOfUnique(db.urls, name);
    }
  }

  /**
    `check_post`. An unknown id is answered with 404 and the store is
    unchanged. Otherwise the url's name is fetched; when any step raises
    nothing is stored and the answer flashes the failure, and when all
    succeed exactly one check row is appended, under the next check id,
    carrying the requested url id and what the extractor read. Either way
    the answer redirects to the url's page, and the urls are unchanged.
   */
  method CheckPost(db: DataBase, id: nat, fetch: string -> FetchResult, today: Date) returns (resp: Response)
    requires db.Valid()
    modifies db
    ensures db.Valid()
    ensures db.urls == old(db.urls) && db.nextUrlId == old(db.nextUrlId)
    ensures old(db.GetUrlById(id)).None? ==>
      resp == NotFound && db.checks == old(db.checks) && db.nextCheckId == old(db.nextCheckId)
    ensures old(db.GetUrlById(id)).Some? && CheckOf(id, fetch(old(db.GetUrlById(id)).value.name)).None? ==>
      && resp == Redirect(id, CheckFailed)
      && db.checks == old(db.checks) && db.nextCheckId == old(db.nextCheckId)
    ensures old(db.GetUrlById(id)).Some? && CheckOf(id, fetch(old(db.GetUrlById(id)).value.name)).Some? ==>
      && resp == Redirect(id, PageChecked)
      && db.checks == old(db.checks)
        + [CheckRowOf(old(db.nextCheckId), CheckOf(id, fetch(old(db.GetUrlById(id)).value.name)).value, today)]
      && db.nextCheckId == old(db.nextCheckId) + 1
    ensures ChecksReferToUrls(old(db.urls), old(db.checks)) ==> ChecksReferToUrls(db.urls, db.checks)
  {
    var url := db.GetUrlById(id);
    if url.None? {
      resp := NotFound;
      return;
    }
    var site := url.value.name;
    match fetch(site)
    case TransportError =>
      resp := Redirect(id, CheckFailed);
    case HttpResponse(code, page) =>
      if RaisesForStatus(code) {
        resp := Redirect(id, CheckFailed);
      } else if page.None? {
        resp := Redirect(id, CheckFailed);
      } else {
        var data := GetData(code, page.value);
        var check := NewCheck(id, data.statusCode, data.h1, data.title, data.description);
        var _ := db.AddCheck(check, today);
        resp := Redirect(id, PageChecked);
      }
  }

  /**
    Submitting the same address twice: a valid address is inserted at most
    once (by the first call, when its normalised name was absent), leaves
    exactly one row for that name, and the second answer redirects to the
    same id as the first; an invalid one is refused twice and changes
    nothing. The checks are never touched.
   */
  method SubmitTwice(db: DataBase, url: string, isValidUrl: string -> bool, today: Date)
    returns (first: Response, second: Response)
    requires db.Valid() && UniqueNames(db.urls)
    modifies db
    ensures db.Valid() && UniqueNames(db.urls)
    ensures db.checks == old(db.checks) && db.nextCheckId == old(db.nextCheckId)
    ensures Verdict(url, isValidUrl).None? && old(db.GetUrlId(NormalizeUrl(url))).Some? ==>
      && first == second == Redirect(old(db.GetUrlId(NormalizeUrl(url))).value, PageExists)
      && db.urls == old(db.urls) && db.nextUrlId == old(db.nextUrlId)
    ensures Verdict(url, isValidUrl).None? && old(db.GetUrlId(NormalizeUrl(url))).None? ==>
      && first == Redirect(old(db.nextUrlId), PageAdded) && second == Redirect(old(db.nextUrlId), PageExists)
      && db.urls == old(db.urls) + [UrlRow(old(db.nextUrlId), NormalizeUrl(url), today)]
      && db.nextUrlId == old(db.nextUrlId) + 1
    ensures Verdict(url, isValidUrl).None? ==> Occurrences(db.urls, NormalizeUrl(url)) == 1
    ensures Verdict(url, isValidUrl).Some? ==>
      && first == second == Unprocessable(Message(Verdict(url, isValidUrl).value))
      && db.urls == old(db.urls) && db.nextUrlId == old(db.nextUrlId)
  {
    first := UrlsPost(db, url, isValidUrl, today);
    second := UrlsPost(db, url, isValidUrl, today);
  }
}
