# Page analyzer: a Dafny model

The application watches web sites. A user submits an address. The application
stores it once, under a normalised name. On request it then "checks" a stored
address: it fetches the page and records the HTTP status, the title, the first
`h1` heading and the `meta[name=description]` content. The pages list every
address with its latest check, and show one address with its check history.

This project models the logic behind that:

- `wrappers.dfy`: `Option` and `Result`.
- `text.dfy`: the pieces of `java.lang.String` and `Long` the handlers rely on.
  These are ASCII `toLowerCase`, `trim`, the decimal rendering of a number and
  `Long.parseLong`. It also holds a first-occurrence search like `indexOf`. No
  handler calls `indexOf`; the model's reader of stored names uses it.
- `routes.dfy`: the route path builders of `Routes`.
- `model.dfy`: the entities `Url` and `UrlCheck`, as values whose unset fields
  are `None`.
- `repo.dfy`: `UrlRepository` and `UrlCheckRepository`, as classes over
  in-memory tables. A table is the sequence of its rows in insertion order,
  plus the next value of its identity column. Ids only grow, so insertion order
  is id order, and the queries' `ORDER BY id` follows from that. `findByUrlId`
  and `findLatestChecks` are specified by two functions on the rows:
  - `NewestFirst`: the rows of one url, last inserted first.
  - `LatestRow`: the last inserted row of one url.

  Lemmas relate the two.
- `controllers.dfy`: the handlers `createUrl`, `showUrl`, `listUrls` and
  `checkUrl`, as methods of two controller classes.
  - `createUrl` and `checkUrl` end in a `Response`: a redirect carrying the
    flash message left in the session, or an exception escaping the handler.
  - `showUrl` returns the page it renders, or `None` when the url is not found
    (a 404). `listUrls` returns the page it renders.
  - Parsing the submitted text as a URL is a `parse` function parameter.
    Fetching and parsing the page is a `fetch` function parameter. Both are
    libraries the handlers call.
  - The same file holds address normalisation, a reader for normalised names
    (used to prove normalisation idempotent for addresses with a host), and the
    extraction of the heading and description from a parsed page.
- `scenario.dfy`: the application test that submits a local server's address,
  checks it, and reads back the latest check. It is stated as methods that call
  the handlers and repositories.

A repository `save` whose driver hands back no generated key behaves as the
code does. The `INSERT` has already run, so the row stays in the table, and the
call then fails with the `SQLException` message. In `createUrl` that exception
escapes the handler. In `checkUrl` it is caught by the generic `catch`, so the
flash shows its message even though the check was stored.

## Model

| member | source | states |
|---|---|---|
| Text.Lower | app/src/main/java/hexlet/code/controllers/UrlsController.java:61 | lower-casing keeps the length and leaves no upper-case letter |
| Text.LowerAt | app/src/main/java/hexlet/code/controllers/UrlsController.java:61 | lower-casing works position by position |
| Text.LowerConcat | app/src/main/java/hexlet/code/controllers/UrlsController.java:54-61 | lower-casing the formatted string equals formatting the lower-cased parts |
| Text.LowerOfLower | app/src/main/java/hexlet/code/controllers/UrlsController.java:61 | a string without upper-case letters is its own lower case |
| Text.LowerIdempotent | app/src/main/java/hexlet/code/controllers/UrlsController.java:61 | lower-casing twice equals lower-casing once |
| Text.LowerKeepsNonLetter | app/src/main/java/hexlet/code/controllers/UrlsController.java:54-61 | a character that is not a letter, such as ':', occurs in the lower-cased string exactly when it occurs in the original |
| Text.Trim | app/src/main/java/hexlet/code/controllers/CheckController.java:39 | the trimmed value is no longer than the original and neither starts nor ends with a blank; a value that neither starts nor ends with a blank is unchanged |
| Text.TrimIsOuterSlice | app/src/main/java/hexlet/code/controllers/CheckController.java:39 | the trimmed value is a slice `s[k..m]` of the original with only blanks before `k` and only blanks from `m` on, so exactly the leading and trailing blanks are removed |
| Text.TrimIdempotent | app/src/main/java/hexlet/code/controllers/CheckController.java:39 | trimming twice equals trimming once |
| Text.NatToString | app/src/main/java/hexlet/code/model/web/Routes.java:12-14 | the rendering of a non-negative id is non-empty, all digits, and has no leading zero unless the id is 0 |
| Text.NatToStringRoundTrip | app/src/main/java/hexlet/code/model/web/Routes.java:12-14 | reading the digits back gives the number |
| Text.ParseIntOfNegative | app/src/main/java/hexlet/code/controllers/CheckController.java:26 | `Long.parseLong` reads a minus sign and digits as the negated value |
| Text.ParseIntOfDigits | app/src/main/java/hexlet/code/controllers/CheckController.java:26 | `Long.parseLong` reads plain digits as their value |
| Text.IntToStringRoundTrip | app/src/main/java/hexlet/code/model/web/Routes.java:12-14 | parsing the rendering of any id gives back that id |
| Text.IntToStringIsLower | app/src/main/java/hexlet/code/controllers/UrlsController.java:59-61 | the port's digits and sign contain no upper-case letters and are unchanged by lower-casing |
| Text.IndexOf | app/src/main/java/hexlet/code/controllers/UrlsController.java:45-46 | the result is the first position of the character, and it is absent exactly when the character does not occur |
| Text.IndexOfIs | app/src/main/java/hexlet/code/controllers/UrlsController.java:45-46 | the first occurrence of a character determines `indexOf` |
| Routes.RootPath | app/src/main/java/hexlet/code/model/web/Routes.java:8-10 | the root path is "/" |
| Routes.UrlsPath | app/src/main/java/hexlet/code/model/web/Routes.java:20-22 | the url list path is "/urls", which differs from the root path |
| Routes.UrlPath | app/src/main/java/hexlet/code/model/web/Routes.java:16-18 | a url page path is the url list path, then "/", then the id, and nothing else |
| Routes.UrlChecksPath | app/src/main/java/hexlet/code/model/web/Routes.java:28-30 | the checks path of an id is its url page path followed by "/checks" |
| Routes.ValueOf | app/src/main/java/hexlet/code/model/web/Routes.java:12-14 | `String.valueOf` renders a null id as "null" and any other id as its decimal digits, which `Long.parseLong` reads back as the same id |
| Routes.UrlPathOfLong | app/src/main/java/hexlet/code/model/web/Routes.java:12-14 | a null id gives "/urls/null"; any other id gives the `String` overload on its decimal rendering, whose id segment parses back to the id |
| Routes.UrlChecksPathOfLong | app/src/main/java/hexlet/code/model/web/Routes.java:24-26 | the `Long` checks path is the `Long` url page path followed by "/checks", so "/urls/null/checks" for a null id |
| Routes.UrlPathOfLongSpelledOut | app/src/main/java/hexlet/code/controllers/CheckController.java:56 | "/urls/" followed by the rendered id, as `checkUrl` writes its redirect, is the url page path of that id |
| Routes.UrlPathInjective | app/src/main/java/hexlet/code/model/web/Routes.java:16-18 | different ids give different url page paths |
| Repo.FirstMatch | app/src/main/java/hexlet/code/repo/UrlRepository.java:39-54 | the lookup yields a stored row matching the key, and it is empty exactly when no row matches |
| Repo.FillUrlEntity | app/src/main/java/hexlet/code/repo/UrlRepository.java:76-84 | the entity read from a row has its id and creation time set, and writing it back under those gives the same row |
| Repo.SavedUrlReadsBack | app/src/main/java/hexlet/code/repo/UrlRepository.java:76-84 | reading a saved url's row gives the entity `save` returns: same name, with the assigned id and creation time |
| Repo.FindAfterSave | app/src/main/java/hexlet/code/repo/UrlRepository.java:39-62 | after a row is appended under a fresh id, looking up that id finds it, and so does looking up its name when no earlier row had it |
| Repo.UrlRepository.constructor | app/src/main/java/hexlet/code/repo/UrlRepository.java:17-19 | the repository starts over an empty table whose ids start at 1 |
| Repo.UrlRepository.Save | app/src/main/java/hexlet/code/repo/UrlRepository.java:21-37 | appends exactly one row with the url's name, the current time and an id no existing row has; returns the url with id and time set, or fails with the no-id message and the row kept |
| Repo.UrlRepository.Find | app/src/main/java/hexlet/code/repo/UrlRepository.java:39-54 | returns the entity of a row matching the key, and is empty exactly when none matches |
| Repo.UrlRepository.FindByName | app/src/main/java/hexlet/code/repo/UrlRepository.java:56-58 | returns a stored url with that name and its id and time, and is empty exactly when no row has the name |
| Repo.UrlRepository.FindById | app/src/main/java/hexlet/code/repo/UrlRepository.java:60-62 | returns the stored url with that id, and is empty exactly when no row has the id |
| Repo.UrlRepository.GetEntities | app/src/main/java/hexlet/code/repo/UrlRepository.java:64-74 | returns every stored url, one per row, in strictly ascending id order |
| Repo.FillCheckEntity | app/src/main/java/hexlet/code/repo/UrlCheckRepository.java:73-84 | the check read from a row has its id and creation time set and no url id; with the row's url id put back, writing it under those gives the same row |
| Repo.SavedCheckReadsBack | app/src/main/java/hexlet/code/repo/UrlCheckRepository.java:20-84 | a saved check read back keeps status, title, heading and description (title and heading not swapped), gains id and time, and has no url id |
| Repo.NewestFirst | app/src/main/java/hexlet/code/repo/UrlCheckRepository.java:44 | the history of a url is no longer than the table and holds only rows of that url |
| Repo.NewestFirstRows | app/src/main/java/hexlet/code/repo/UrlCheckRepository.java:43-55 | the history of a url holds exactly the rows with that url id |
| Repo.NewestFirstEmpty | app/src/main/java/hexlet/code/repo/UrlCheckRepository.java:43-55 | the history is empty exactly when the url has no checks, whether or not the url exists |
| Repo.NewestFirstDescending | app/src/main/java/hexlet/code/repo/UrlCheckRepository.java:44 | the history is in strictly descending id order |
| Repo.LatestRow | app/src/main/java/hexlet/code/repo/UrlCheckRepository.java:58 | the latest row is a row of that url, and there is none exactly when the url has no checks |
| Repo.LatestRowOfLongerPrefix | app/src/main/java/hexlet/code/repo/UrlCheckRepository.java:63-68 | reading one more row makes it the latest row of its url and leaves the latest rows of the other urls unchanged |
| Repo.LatestRowHasLargestId | app/src/main/java/hexlet/code/repo/UrlCheckRepository.java:58 | the latest row of a url has the largest id among that url's rows |
| Repo.LatestRowHeadsHistory | app/src/main/java/hexlet/code/repo/UrlCheckRepository.java:43-71 | the latest check of a url is the first entry of its newest-first history |
| Repo.AppendedCheckIsLatest | app/src/main/java/hexlet/code/repo/UrlCheckRepository.java:20-71 | an appended check becomes its url's latest check and the head of its history, in front of the old history |
| Repo.LatestCheckMap | app/src/main/java/hexlet/code/repo/UrlCheckRepository.java:57-71 | a map holding the entity of each url's latest row has a key exactly for the urls with checks, and each value has its key as url id and the largest id among that url's rows |
| Repo.UrlCheckRepository.constructor | app/src/main/java/hexlet/code/repo/UrlCheckRepository.java:16-18 | the repository starts over an empty table whose ids start at 1 |
| Repo.UrlCheckRepository.Save | app/src/main/java/hexlet/code/repo/UrlCheckRepository.java:20-41 | appends exactly one row carrying the check's url id, status, heading, title and description, the current time and a fresh id, leaving other rows unchanged; returns the check with id and time, or fails with the no-id message and the row kept |
| Repo.UrlCheckRepository.FindByUrlId | app/src/main/java/hexlet/code/repo/UrlCheckRepository.java:43-55 | returns the url's checks, newest first, in strictly descending id order; empty exactly when the url has no checks |
| Repo.UrlCheckRepository.FindLatestChecks | app/src/main/java/hexlet/code/repo/UrlCheckRepository.java:57-71 | has a key exactly for each url id that has checks; each value is that url's check with the largest id, with its url id set to the key |
| Controllers.NormalizedName | app/src/main/java/hexlet/code/controllers/UrlsController.java:54-61 | a normalised name contains no upper-case letter |
| Controllers.NormalizedNameLayout | app/src/main/java/hexlet/code/controllers/UrlsController.java:54-61 | the name is the lower-cased protocol, "://", the lower-cased host, and ":" and the port exactly when a port was given |
| Controllers.PortSuffixIsLower | app/src/main/java/hexlet/code/controllers/UrlsController.java:59-61 | lower-casing leaves the port suffix unchanged |
| Controllers.NormalizedNameIgnoresPathQueryFragment | app/src/main/java/hexlet/code/controllers/UrlsController.java:54-60 | addresses differing only in path, query or fragment get the same name |
| Controllers.NormalizedNameIgnoresCase | app/src/main/java/hexlet/code/controllers/UrlsController.java:54-61 | addresses whose protocol and host differ only in case get the same name |
| Controllers.NormalizedNameOfLowerCase | app/src/main/java/hexlet/code/controllers/UrlsController.java:54-61 | an address already in lower case is stored exactly as formatted |
| Controllers.HexletAddressIsStoredUnchanged | app/src/test/java/hexlet/code/AppTest.java:114-128 | submitting "https://ru.hexlet.io" stores the name "https://ru.hexlet.io" |
| Controllers.ParseName | app/src/main/java/hexlet/code/controllers/UrlsController.java:44-46 | an accepted name yields a non-empty protocol and a non-empty host, neither containing ':', a port of at least -1, and no path, query or fragment |
| Controllers.ParseAuthority | app/src/main/java/hexlet/code/controllers/UrlsController.java:44-46 | an accepted authority keeps the given protocol and yields a non-empty host without ':', a port of at least -1, and no path, query or fragment |
| Controllers.ParseAuthorityOf | app/src/main/java/hexlet/code/controllers/UrlsController.java:44-46 | host and port written as in a name are parsed back to themselves |
| Controllers.ParseNameOf | app/src/main/java/hexlet/code/controllers/UrlsController.java:44-46 | a name is split at the "://" that ends its protocol |
| Controllers.ParseNormalizedName | app/src/main/java/hexlet/code/controllers/UrlsController.java:44-61 | parsing a normalised name gives the lower-cased protocol and host and the port, with no path, query or fragment |
| Controllers.NormalizationIdempotent | app/src/main/java/hexlet/code/controllers/UrlsController.java:44-63 | a normalised name parses, and normalising it again gives the same name |
| Controllers.HostlessNameIsRefused | app/src/main/java/hexlet/code/controllers/UrlsController.java:44-61 | the name stored for an address with neither host nor port (it normalises to "protocol://") does not parse |
| Controllers.FileAddressIsStoredButRefused | app/src/main/java/hexlet/code/controllers/UrlsController.java:44-61 | "file:///etc/passwd" is normalised to "file://", and "file://" does not parse |
| Controllers.ValueMatchesLower | app/src/main/java/hexlet/code/controllers/CheckController.java:39 | an attribute value matches the selector's value exactly when, trimmed and lower-cased, it equals it |
| Controllers.FirstIsUnique | app/src/main/java/hexlet/code/controllers/CheckController.java:37-40 | at most one element is the first one a selector picks |
| Controllers.SelectFrom | app/src/main/java/hexlet/code/controllers/CheckController.java:37-39 | the result is the first position at or after the start whose element the selector picks, and is absent exactly when no later element is picked |
| Controllers.SelectFirst | app/src/main/java/hexlet/code/controllers/CheckController.java:37 | the result is the first element in document order that the selector picks, and is absent exactly when none is picked |
| Controllers.H1Of | app/src/main/java/hexlet/code/controllers/CheckController.java:37-38 | the heading is the text of the first `h1` in document order, or "" when the page has none |
| Controllers.DescriptionOf | app/src/main/java/hexlet/code/controllers/CheckController.java:39-40 | the description is the `content` attribute (or "" if it is missing) of the first `meta` whose `name`, trimmed, equals "description" ignoring case, or "" when there is no such element |
| Controllers.DescriptionIgnoresCaseAndBlanks | app/src/main/java/hexlet/code/controllers/CheckController.java:39-40 | a `meta` whose `name` reads "description" once trimmed and lower-cased, such as " Description", supplies the page's description |
| Controllers.Inspect | app/src/main/java/hexlet/code/controllers/CheckController.java:35-42 | the new check has no id, url id or time; it carries the status and the title; its heading is "" when the page has no `h1` and otherwise the first `h1`'s text; its description is "" when there is no `meta[name=description]` and otherwise the first one's `content` |
| Controllers.AppendedCheckRefersToUrl | app/src/main/java/hexlet/code/controllers/CheckController.java:43-44 | appending a check whose url id is that of a stored url keeps every check referring to a stored url |
| Controllers.UrlsController.constructor | app/src/main/java/hexlet/code/controllers/UrlsController.java:24-28 | the controller holds the two repositories it is given |
| Controllers.UrlsController.CreateUrl | app/src/main/java/hexlet/code/controllers/UrlsController.java:41-76 | unparsable input redirects to the root with "invalid URL" and leaves the table unchanged; a name already stored redirects to the list with "already exists" and changes nothing; otherwise exactly one row with the name is appended and the result is "added", or the save's failure; afterwards the name is stored; unique names and "every check belongs to a url" are preserved |
| Controllers.UrlsController.ShowUrl | app/src/main/java/hexlet/code/controllers/UrlsController.java:80-93 | not found exactly when no url has the id; otherwise the stored url with that id and its checks, newest first |
| Controllers.UrlsController.ListUrls | app/src/main/java/hexlet/code/controllers/UrlsController.java:30-37 | all urls in id order, and, for exactly the urls that have checks, each url's latest check |
| Controllers.CheckController.constructor | app/src/main/java/hexlet/code/controllers/CheckController.java:19-23 | the controller holds the two repositories it is given |
| Controllers.CheckController.StoreCheck | app/src/main/java/hexlet/code/controllers/CheckController.java:43-47 | appends exactly one row: the given check with the url's id, the current time and a fresh id; flashes success, or the save's failure message; keeps every check referring to a stored url |
| Controllers.CheckController.CheckUrl | app/src/main/java/hexlet/code/controllers/CheckController.java:25-57 | not found, and nothing stored, exactly when no url has the id; otherwise redirects to the url's page; a response of any status appends exactly one row, the page's inspected check (as `Inspect` states it) with the url id, the current time and a fresh id, flashed as success or as the save's failure; a transport failure stores nothing and flashes "incorrect address"; any other failure stores nothing and flashes its message; "every check belongs to a url" is preserved |
| AppScenario.FixturePageInspection | app/src/main/java/hexlet/code/controllers/CheckController.java:33-44 | a page with two `h1` and two `meta` elements yields its title, its first heading and its description content |
| AppScenario.SubmitServer | app/src/test/java/hexlet/code/AppTest.java:136-146 | submitting "http://localhost:{port}" on empty tables stores exactly that name under id 1 |
| AppScenario.CheckServer | app/src/test/java/hexlet/code/AppTest.java:148 | checking url 1 against a server answering 200 with the fixture page stores exactly one check with status 200 and the page's title, heading and description |
| AppScenario.CheckFixtureServer | app/src/test/java/hexlet/code/AppTest.java:134-163 | after submit and check, the url is found under the submitted address, and its latest check has status 200, title "Test page" and the fixture heading and description |

## Left out

- Parsing of the submitted text by `java.net.URI` and `URL` is not modelled. The handler receives the result as the `parse` parameter.
- Controllers.ParseName: the model's reader of stored names handles only the shape `protocol://host[:port]`. It requires a non-empty protocol and a non-empty authority after "//", as `URI` does. It also refuses an empty host before ":port" ("http://:8080"), which `URI` accepts as an authority with an empty host; that refusal is a limit of the model, not of `URI`. It accepts any protocol and does not check the characters of the host. IPv6 hosts in brackets, user info and default-port rules are not covered.
- Controllers.NormalizationIdempotent: holds for addresses with a non-empty protocol and host and no ':' in either. Addresses without a host are stored all the same; see Findings.
- Controllers.NormalizedName: `String.toLowerCase` is modelled on ASCII letters only. Locale-dependent and non-ASCII case mappings are not captured.
- Fetching a page (Unirest) and parsing HTML (Jsoup) are not modelled. They enter as the `fetch` parameter: a response with its status and parsed document, a transport failure, or another exception with its message.
- Controllers.H1Of: Jsoup's whitespace normalisation of element text is not modelled. The heading is the element's text as given. Tag and attribute names are compared as given; they stand for the parser's normalised lower-case names.
- Controllers.DescriptionOf: the attribute value is compared with `equalsIgnoreCase` after `trim`. Only ASCII case is folded, and a blank is any character up to U+0020. Non-ASCII case folding is not captured.
- Database connections, SQL text and the `DISTINCT ON` dialect are not modelled. The tables are in-memory sequences whose semantics follow the queries. A failing connection or statement, other than a missing generated key, is not modelled.
- Repo.FirstMatch: `SELECT ... WHERE key = ?` without `ORDER BY` leaves open which matching row comes first. The model returns the earliest one. Names are unique under `createUrl`, and ids are unique always.
- Repo.UrlCheckRepository.FindLatestChecks: the query and the loop that fills the map are taken together as one pass over the table in id order, in which a later check replaces an earlier one of the same url.
- Repo.UrlRepository.Save: the entity is a value, so `save` returns the entity with id and creation time set instead of setting them on the caller's object. Aliasing of that object is not modelled.
- Repo.UrlCheckRepository.Save: same as above. A check without a url id is excluded by its precondition: the statement unboxes the id, and no caller passes one without it.
- Timestamps from the system clock are the `now` parameter, an opaque value. Whether the driver returns a generated key is the `keyReturned` parameter.
- Ids are unbounded integers. The 64-bit range of `Long` is not modelled.
- A path parameter that is not a number is rejected with status 400 by the conversion on the handler's first line (`ctx.pathParamAsClass("id", Long.class).getOrDefault(null)`, app/src/main/java/hexlet/code/controllers/UrlsController.java:81 and app/src/main/java/hexlet/code/controllers/CheckController.java:26). That happens before any store access. The handlers take the id already converted.
- Session attributes and flash messages are returned as `Flash` values, not as the Russian message texts and their CSS kinds. Rendering of templates is not modelled.
- Concurrent requests, and the race between the name lookup and the insert in `createUrl`, are not modelled: each handler runs alone.
- Application bootstrap, route registration, `RootController` and the page holder classes are not part of this model. `Url.java` and `UrlCheck.java` are not part of this model either; their fields are as the repositories use them.
- AppScenario.CheckFixtureServer: the fixture file `index.html` is not part of this model. The page is a document with that fixture's title, heading and description, plus a later heading and an extra `meta` element. The test only requires the description to contain "statements of great people"; the model uses one full description.

## Findings

| source | as written | input that shows it | evidently intended | confidence | as-written member | corrected member |
|---|---|---|---|---|---|---|
| app/src/main/java/hexlet/code/controllers/UrlsController.java:44-61 | any address that `URI.toURL` accepts is normalised to `protocol://host[:port]` and stored, including one without a host | "file:///etc/passwd" is stored as "file://"; submitting "file://" is then refused as an invalid URL | only addresses with a host are stored, so that each stored name is a valid submission that normalises to itself | medium, not executed | Controllers.FileAddressIsStoredButRefused | Controllers.NormalizationIdempotent |
