/**
 * The application test that submits the address of a local server serving the
 * fixture page with status 200, checks it, and reads the latest check back
 * (`AppTest.UrlCheckTest.testStore`), replayed against the contracts of the
 * handlers and repositories alone.
 */
module AppScenario {
  import opened Wrappers
  import opened Text
  import opened Model
  import opened Repo
  import opened Controllers

  const FIXTURE_TITLE: string := "Test page"
  const FIXTURE_H1: string := "Do not expect a miracle, miracles yourself!"
  const FIXTURE_DESCRIPTION: string := "Quotes and statements of great people"

  /**
   * A page with the fixture's title, heading and description. The fixture file
   * itself is not part of this model; this page also carries a second `meta`
   * and a second `h1`, which the extraction must pass over.
   */
  function FixturePage(): Document {
    Document(FIXTURE_TITLE, [
      Element("meta", "", map["charset" := "utf-8"]),
      Element("meta", "", map["name" := "description", "content" := FIXTURE_DESCRIPTION]),
      Element("h1", FIXTURE_H1, map[]),
      Element("p", "Text of the page", map[]),
      Element("h1", "A later heading", map[])
    ])
  }

  /** The check built from the fixture page served with status 200. */
  lemma FixturePageInspection()
    ensures Inspect(200, FixturePage()) == NewUrlCheck(200, FIXTURE_TITLE, FIXTURE_H1, FIXTURE_DESCRIPTION)
  {
    assert IsFirst(FixturePage().elements, H1, 2);
    assert IsFirst(FixturePage().elements, META_DESCRIPTION, 1);
  }

  /** The address of the local test server. */
  function ServerAddress(port: nat): string {
    "http://localhost:" + IntToString(port)
  }

  /**
   * Submitting the server's address through `createUrl`, on empty tables, stores
   * it unchanged under id 1.
   */
  method SubmitServer(port: nat) returns (urls: UrlRepository, checks: UrlCheckRepository)
    ensures fresh(urls) && fresh(checks)
    ensures urls.Valid() && checks.Valid()
    ensures urls.rows == [UrlRow(1, ServerAddress(port), 0)]
    ensures checks.rows == [] && checks.nextId == 1
  {
    urls := new UrlRepository();
    checks := new UrlCheckRepository();
    var urlsController := new UrlsController(urls, checks);
    var parsed := ParsedUrl("http", "localhost", port, "", "", "");
    NormalizedNameOfLowerCase(parsed);
    assert NormalizedName(parsed) == ServerAddress(port);
    var parse: string -> Option<ParsedUrl> := _ => Some(parsed);
    assert parse(ServerAddress(port)) == Some(parsed);
    assert !HasName(urls.rows, ServerAddress(port));
    var created := urlsController.CreateUrl(ServerAddress(port), parse, 0, true);
  }

  /**
   * Checking url 1 through `checkUrl`, against a server answering 200 with the
   * fixture page, stores one check carrying the page's metadata.
   */
  method CheckServer(urls: UrlRepository, checks: UrlCheckRepository, address: string)
    requires urls.Valid() && checks.Valid()
    requires urls.rows == [UrlRow(1, address, 0)]
    requires checks.rows == [] && checks.nextId == 1
    modifies checks
    ensures checks.Valid()
    ensures checks.rows == [CheckRow(1, 1, 200, FIXTURE_H1, FIXTURE_TITLE, FIXTURE_DESCRIPTION, 1)]
  {
    var checkController := new CheckController(urls, checks);
    FixturePageInspection();
    var checked := checkController.CheckUrl(1, _ => Fetched(200, FixturePage()), 1, true);
    assert urls.rows[0].id == 1;
  }

  /**
   * The application test: after submitting and checking the server's address, the
   * url is found under the very address submitted, and the latest
   * check of that url carries status 200 and the page's title, heading and
   * description.
   */
  method CheckFixtureServer(port: nat) returns (stored: Url, latest: UrlCheck)
    ensures stored.name == ServerAddress(port)
    ensures stored.id.Some? && latest.urlId == stored.id
    ensures latest.statusCode == 200 && latest.title == FIXTURE_TITLE
    ensures latest.h1 == FIXTURE_H1 && latest.description == FIXTURE_DESCRIPTION
  {
    var urls, checks := SubmitServer(port);
    CheckServer(urls, checks, ServerAddress(port));
    var found := urls.FindByName(ServerAddress(port));
    assert urls.rows[0].name == ServerAddress(port);
    stored := found.value;
    var latestChecks := checks.FindLatestChecks();
    assert checks.rows[0].urlId == 1;
    latest := latestChecks[stored.id.value];
  }
}
