# page_analyzer in Dafny

page_analyzer is a small Flask site that keeps a list of web sites and a history of "checks" of each one. A user submits an address. The site validates it, normalises it to `scheme://hostname`, and stores it once. A check fetches the stored address and records the status code, the `<h1>`, the `<title>` and the meta description of the page.

This project models the three parts of the program that make decisions:

- `ProcessUrl` (`process_url.dfy`) covers `validate_url` and `normalize_url`.
  - `validate_url` is a method that builds the error map step by step, as the source does.
  - `normalize_url` is a function over a simplified `urlsplit` and the `hostname` property.
  - The lemmas prove what the normalised name looks like, which components are dropped and when normalising twice changes nothing.
- `Database` (`database.dfy`) models the class `DataBase` with its two tables, held as sequences of rows, and one id counter per table.
  - The SELECT queries are functions over those sequences.
  - `add_url` and `add_check` are methods that append a row under the next id.
- `App` (`app.dfy`) covers the handlers `urls_post` and `check_post` as methods on the store.
  - The address check `validators.url` is a parameter `isValidUrl`.
  - The page fetch `requests.get` is a parameter `fetch`, which returns a `FetchResult`.
  - Flask's answers are a returned `Response`.

`Parser` (`parser.dfy`) models `get_data` over an abstract parsed page, and `Wrappers` (`wrappers.dfy`) holds `Option`.

Two behaviours of the code are worth noting:

- `raise_for_status` raises only for status codes 400 to 599. A status of 600 or higher is stored as a successful check.
- Normalisation is idempotent for inputs with a scheme and a hostname (`NormalizeIdempotent`). Without a scheme it is not idempotent: `SchemelessNotIdempotent` shows `//host` normalising to `://host` and then to `://None`.

## Model

| member | source | states |
|---|---|---|
| ProcessUrl.ValidateUrl | page_analyzer/process_url.py:11-21 | The errors map is the one for the verdict "too long, else empty, else malformed". It is empty exactly when the input passes the syntax check, is non-empty and has at most 255 characters. Its only key is `'url'`. Too long always gives the too-long message, and the empty string gives the empty message. The malformed message appears exactly when the input is non-empty, at most 255 characters and fails the syntax check. |
| ProcessUrl.UrlSplitFacts | page_analyzer/process_url.py:7 | The split gives a lower-case scheme made of scheme characters and starting with a letter, a network location without `/`, `?` or `#`, a path without `?` or `#`, and a query without `#`. |
| ProcessUrl.HostnameFacts | page_analyzer/process_url.py:8 | A hostname is non-empty, lower-case and has no `@` or `:`. When the network location has no `/`, `?` or `#`, the hostname has none of the five delimiters. |
| ProcessUrl.HostnameTextFacts | page_analyzer/process_url.py:8 | The hostname as the f-string prints it (the name, or `None`) has no delimiter when the network location has no `/`, `?` or `#`. |
| ProcessUrl.NormalizeUrl | page_analyzer/process_url.py:6-8 | The normalised name is exactly the split's scheme, then `://`, then a host with no `/`, `?`, `#`, `@` or `:`. So no path, query, fragment, port or user-info can appear in it. |
| ProcessUrl.NormalizeDropsComponents | page_analyzer/process_url.py:6-8 | For `scheme://userinfo@host:port` followed by any path, query or fragment, normalisation gives the lower-cased scheme, `://` and the lower-cased host. |
| ProcessUrl.NormalizeReparses | page_analyzer/process_url.py:6-8 | For an input with a scheme and a hostname, the normalised name splits back into the same scheme, a network location equal to the hostname, and an empty path, query and fragment. |
| ProcessUrl.NormalizeIdempotent | page_analyzer/process_url.py:6-8 | Normalising a normalised name changes nothing, for inputs with a scheme and a hostname. |
| ProcessUrl.SchemelessHost | page_analyzer/process_url.py:6-8 | Without a scheme, `//host` normalises to `://host`. |
| ProcessUrl.SchemelessEmptyHost | page_analyzer/process_url.py:6-8 | A name starting with `://` has no scheme and no hostname, so it normalises to `://None`. |
| ProcessUrl.SchemelessNotIdempotent | page_analyzer/process_url.py:6-8 | Without a scheme, normalising twice loses the host: `//host` gives `://host`, which then gives `://None`. |
| Database.FindIdByName | page_analyzer/database.py:28-35 | It returns none exactly when no url row has the name. Otherwise it returns the id of a row with that name. `DataBase.GetUrlId` is this lookup over the store's `urls`. |
| Database.FindUrlById | page_analyzer/database.py:37-42 | It returns none exactly when no url row has the id. Otherwise it returns a row of the table with that id. `DataBase.GetUrlById` is this lookup over the store's `urls`. |
| Database.FindCheckById | page_analyzer/database.py:113-118 | It returns none exactly when no check row has the id. Otherwise it returns a row of the table with that id. `DataBase.GetCheckById` is this lookup over the store's `checks`. |
| Database.ChecksOf | page_analyzer/database.py:102-111 | The result holds exactly the check rows of that url. When the table's ids increase with insertion, the result's ids strictly decrease. |
| Database.LatestCheck | page_analyzer/database.py:54-60 | The `rn = 1` row of the partition is none exactly when the url has no checks. Otherwise it is a check of that url whose id is the highest among them. |
| Database.NatToDecimal | page_analyzer/database.py:65 | `cast(status_code as text)` is a non-empty string of digits with no leading zero. |
| Database.DecimalRoundTrip | page_analyzer/database.py:65 | Reading the cast text back as a number gives the status code. |
| Database.DecimalInjective | page_analyzer/database.py:65 | Two status codes have the same text only when they are equal. |
| Database.Summary | page_analyzer/database.py:61-70 | A listing line keeps the url's id and name. With no check, its date and status are `''`. Otherwise they are the latest check's date and the text of its status code. |
| Database.Summaries | page_analyzer/database.py:52-77 | The listing has one line per url row, newest row first, and line `i` is the summary of row `n-1-i`. When the url ids increase with insertion, the listing's ids strictly decrease. |
| Database.FindIdByNameAppend | page_analyzer/database.py:44-50 | Appending a row changes a name lookup only when the name was absent and is the new row's name. |
| Database.FindUrlByIdAppend | page_analyzer/database.py:44-50 | Appending a row with a fresh id keeps every other id lookup, and finds the new row by its id. |
| Database.FindCheckByIdAppend | page_analyzer/database.py:79-100 | Appending a check row with a fresh id keeps every other id lookup, and finds the new row by its id. |
| Database.OccurrencesOfUnique | page_analyzer/database.py:28-35 | When names are unique, a name occurs once if the lookup finds it and zero times otherwise. |
| Database.UrlAppend | page_analyzer/database.py:44-50 | A url row under the next id keeps the table well formed with the counter advanced, and its id is fresh. The name lookup, the id lookup, the uniqueness of names and the url of every check are as the append should leave them. |
| Database.DataBase.constructor | page_analyzer/database.py:11-13 | It stands for a store over freshly created, empty tables: valid, with no rows, and both sequences at 1. `__init__` itself only opens a pool to the database `db_url` names, which may already hold rows; a store with rows is any other valid state. |
| Database.DataBase.GetUrlChecks | page_analyzer/database.py:102-111 | It gives exactly the checks of that url, in strictly decreasing id order in a valid store. |
| Database.DataBase.GetUrls | page_analyzer/database.py:52-77 | It gives one line per url row, newest row first, and the ids strictly decrease in a valid store. |
| Database.DataBase.AddUrl | page_analyzer/database.py:44-50 | It appends exactly one row (the next id, the name, today) and returns that id, which no earlier row has. The checks are unchanged and the store stays valid. The lookup of the name then gives its old id if it had one, else the new id. |
| Database.DataBase.AddCheck | page_analyzer/database.py:79-100 | It appends exactly one check row under the next id with the given url id, status code, `h1`, title and description, and returns that fresh id. The urls are unchanged and the store stays valid. |
| App.CheckOf | page_analyzer/app.py:87-94 | A check exists exactly when the request returned, the status does not raise and the page was read. It then carries the requested url id, the status code and the extracted fields. |
| App.UrlsPost | page_analyzer/app.py:59-77 | An invalid address gives 422 with its message and leaves the store unchanged. If the normalised name exists, the answer redirects to its id and nothing is inserted. Otherwise exactly one row with the name is appended and the answer redirects to its new id. Names stay unique, a valid name then occurs exactly once, and the checks are untouched. |
| App.CheckPost | page_analyzer/app.py:80-97 | An unknown id gives 404 and stores nothing. A failed request, a raising status or a failed extraction stores nothing and flashes the failure. On success exactly one check row is stored under the next check id, with the requested url id and the extracted fields. The urls are unchanged. |
| App.SubmitTwice | page_analyzer/app.py:69-77 | Two submissions of the same valid address insert at most one row: the first call adds one only when the normalised name was absent. Exactly one row then has that name, and both answers redirect to its id. An invalid address is refused both times with its message, and the urls and the counter stay unchanged. The checks are never touched. |

## Left out

- Flask routing, templates, flash storage, `urls_show`, `urls_index` and the 404 handler are user interface. They are reduced to the returned `Response`, and the flashed texts to the `Flash` tag they stand for.
- The connection pool, `get_db_connection` and `__del__` are resource plumbing. The tables are modelled directly.
- Concurrency is not modelled: two requests that insert the same name at once cannot happen in this sequential model. Nor is any uniqueness or foreign-key constraint of the schema, since the schema is not part of this model.
- `requests.get` is network I/O. It is the parameter `fetch`, whose result is a transport error or a status with the page as read.
- `requests.get(site)` at app.py:88 has no timeout, so it can block forever. `fetch` is a total function, so the model does not capture a hang.
- `validators.url` is the parameter `isValidUrl`, with no properties assumed.
- BeautifulSoup's parsing is not modelled: a page is given as its first `<h1>` text, its `<title>` text and its description meta tag. Tags are always truthy, so only presence matters.
- `date.today()` is the parameter `today`. Environment loading and `SECRET_KEY` are configuration.
- At app.py:29 the logger is passed as the pool's `min_conn`. This affects only the pool, which is not modelled.
- ProcessUrl.UrlSplit: simplifies `urllib.parse`:
  - no IPv6 brackets: `.hostname` takes the text inside `[`...`]`;
  - no stripping of leading C0 control characters and spaces, and no removal of tab, CR and LF from anywhere in the address;
  - no `;params` split of the path, which affects only the path;
  - no `ValueError`: `urlsplit` raises it for a network location with an unbalanced `[` or `]`, or one whose NFKC form adds a delimiter. `normalize_url` and `urls_post` would then raise.
- ProcessUrl.Lower: lower-cases ASCII letters only, whereas Python's `str.lower` also maps other letters.
- ProcessUrl.Hostname: lower-cases the whole host, whereas `.hostname` leaves the text from the first `%` on (an IPv6 zone) as written.
- Parser.GetData: a field-by-field transcription of `get_data` over the abstract page. No property beyond its definition is claimed.
- `urls_post` reads `request.form['url']`. A missing field raises `KeyError` before any logic runs, so the model takes the field's text as input.
- Inside `check_post`'s `try`, a database error in `add_check` is also caught. The model treats `add_check` as always succeeding.
- `get_url_id` reads the first row that `fetchone` returns without an `ORDER BY`. It is modelled as the first row in insertion order, and `OccurrencesOfUnique` shows that the order does not matter while names are unique.
- `get_url_id` returns `None` or an id, and `urls_post` tests it with `if id:`. The two agree because ids start at 1, so the model branches on a found, non-zero id.
- The too-long message says "shorter than 255 characters", but an address of exactly 255 characters is accepted. `ValidateUrl` follows the code.
- ProcessUrl.NormalizeUrl: an input without a hostname normalises to `scheme://None`, as the f-string prints Python's `None`. No row in the table above claims more for such inputs.
- App.CheckOf: treats only statuses 400 to 599 as failures, as `raise_for_status` does. A status of 600 or higher is stored as a successful check.
