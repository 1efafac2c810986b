/**
 * The application's route paths (`hexlet.code.model.web.Routes`): constants and
 * string concatenation. The `Long` overloads render the id with `String.valueOf`,
 * which gives "null" for a null reference; an absent id is `None` here.
 */
module Routes {
  import opened Wrappers
  import opened Text

  const URLS_PATH: string := "/urls"
  const CHECKS_PATH: string := "/checks"

  /** The site root. */
  function RootPath(): (p: string)
    ensures p == "/"
  {
    "/"
  }

  /** The url list. */
  function UrlsPath(): (p: string)
    ensures p == "/urls" && p != RootPath()
  {
    URLS_PATH
  }

  /** A url page lies under the url list: the list's path, "/", then the id and nothing else. */
  function UrlPath(id: string): (p: string)
    ensures |p| == |UrlsPath()| + 1 + |id|
    ensures p[..|UrlsPath()| + 1] == UrlsPath() + "/"
    ensures p[|UrlsPath()| + 1..] == id
  {
    URLS_PATH + "/" + id
  }

  /** The checks of a url: its page path followed by "/checks". */
  function UrlChecksPath(id: string): (p: string)
    ensures p == UrlPath(id) + "/checks"
  {
    URLS_PATH + "/" + id + CHECKS_PATH
  }

  /** `String.valueOf(Long)`: the decimal rendering, which `Long.parseLong` reads back, or "null". */
  function ValueOf(id: Option<int>): (s: string)
    ensures id.None? ==> s == "null"
    ensures id.Some? ==> s == IntToString(id.value) && ParseInt(s) == id
  {
    match id
    case None => "null"
    case Some(n) => IntToStringRoundTrip(n); IntToString(n)
  }

  /**
   * `urlPath(Long id)`: the `String` overload on the decimal rendering, whose id
   * segment the router reads back as the same id; "/urls/null" for a null id.
   */
  function UrlPathOfLong(id: Option<int>): (p: string)
    ensures id.None? ==> p == "/urls/null"
    ensures id.Some? ==> p == UrlPath(IntToString(id.value))
    ensures id.Some? ==> ParseInt(p[|URLS_PATH| + 1..]) == id
  {
    UrlPath(ValueOf(id))
  }

  /** `urlChecksPath(Long id)`: the `Long` url page path followed by "/checks". */
  function UrlChecksPathOfLong(id: Option<int>): (p: string)
    ensures p == UrlPathOfLong(id) + CHECKS_PATH
    ensures id.None? ==> p == "/urls/null/checks"
  {
    UrlChecksPath(ValueOf(id))
  }

  /** Writing "/urls/" followed by the rendered id, as the handlers do by hand, gives the url page path. */
  lemma UrlPathOfLongSpelledOut(id: Option<int>)
    ensures "/urls/" + ValueOf(id) == UrlPathOfLong(id)
  {
    assert URLS_PATH + "/" == "/urls/";
  }

  /** Different ids give different url pages. */
  lemma UrlPathInjective(a: string, b: string)
    requires UrlPath(a) == UrlPath(b)
    ensures a == b
  {
    assert a == UrlPath(a)[|UrlsPath()| + 1..];
  }
}
