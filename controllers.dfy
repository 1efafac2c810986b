/**
 * The request handlers (`hexlet.code.controllers`): submitting an address
 * (`UrlsController.createUrl`), showing and listing urls, and checking a url's
 * page (`CheckController.checkUrl`).
 *
 * What the handlers leave in the session (the flash message and its kind) and
 * where they redirect is returned as a `Response` value. Parsing the submitted
 * text as a URL and fetching a page are libraries the handlers call; they enter
 * as function parameters, `parse` and `fetch`.
 */
module Controllers {
  import opened Wrappers
  import opened Text
  import opened Model
  import opened Repo
  import Routes

  // ===========================================================================
  // Address normalisation

  /** The parts of a parsed `java.net.URL`; `port` is -1 when the address gave none. */
  datatype ParsedUrl = ParsedUrl(
    protocol: string,
    host: string,
    port: int,
    path: string,
    query: string,
    fragment: string)

  /** `getPort() == -1 ? "" : ":" + getPort()`. */
  function PortSuffix(port: int): string {
    if port == -1 then "" else ":" + IntToString(port)
  }

  /** The normalised name: `protocol://host[:port]`, lower-cased. */
  function NormalizedName(u: ParsedUrl): (name: string)
    ensures IsLower(name)
  {
    Lower(u.protocol + "://" + u.host + PortSuffix(u.port))
  }

  /**
   * The name is the lower-cased protocol, "://", the lower-cased host and the port
   * exactly when one was given; nothing else of the address enters it.
   */
  lemma NormalizedNameLayout(u: ParsedUrl)
    ensures NormalizedName(u) == Lower(u.protocol) + "://" + Lower(u.host) + PortSuffix(u.port)
    ensures u.port == -1 ==> NormalizedName(u) == Lower(u.protocol) + "://" + Lower(u.host)
    ensures u.port != -1 ==> NormalizedName(u) == Lower(u.protocol) + "://" + Lower(u.host) + ":" + IntToString(u.port)
  {
    var p, h, suffix := u.protocol, u.host, PortSuffix(u.port);
    LowerConcat(p + "://" + h, suffix);
    LowerConcat(p + "://", h);
    LowerConcat(p, "://");
    LowerOfLower("://");
    PortSuffixIsLower(u.port);
  }

  /** The port suffix holds no letter, so lower-casing leaves it alone. */
  lemma PortSuffixIsLower(port: int)
    ensures Lower(PortSuffix(port)) == PortSuffix(port)
  {
    IntToStringIsLower(port);
    LowerConcat(":", IntToString(port));
    LowerOfLower(":");
  }

  /** Two addresses that differ only in path, query or fragment get the same name. */
  lemma NormalizedNameIgnoresPathQueryFragment(a: ParsedUrl, b: ParsedUrl)
    requires a.protocol == b.protocol && a.host == b.host && a.port == b.port
    ensures NormalizedName(a) == NormalizedName(b)
  {
  }

  /** Protocol and host are compared without regard to case. */
  lemma NormalizedNameIgnoresCase(a: ParsedUrl, b: ParsedUrl)
    requires Lower(a.protocol) == Lower(b.protocol) && Lower(a.host) == Lower(b.host) && a.port == b.port
    ensures NormalizedName(a) == NormalizedName(b)
  {
    NormalizedNameLayout(a);
    NormalizedNameLayout(b);
  }

  /** An address already in normal form is stored exactly as it was written. */
  lemma NormalizedNameOfLowerCase(u: ParsedUrl)
    requires IsLower(u.protocol) && IsLower(u.host)
    ensures NormalizedName(u) == u.protocol + "://" + u.host + PortSuffix(u.port)
  {
    NormalizedNameLayout(u);
    LowerOfLower(u.protocol);
    LowerOfLower(u.host);
  }

  /** Submitting "https://ru.hexlet.io" stores the name "https://ru.hexlet.io". */
  lemma HexletAddressIsStoredUnchanged()
    ensures NormalizedName(ParsedUrl("https", "ru.hexlet.io", -1, "", "", "")) == "https://ru.hexlet.io"
  {
    var u := ParsedUrl("https", "ru.hexlet.io", -1, "", "", "");
    assert IsLower("https") && IsLower("ru.hexlet.io") && PortSuffix(-1) == "";
    assert "https" + "://" + "ru.hexlet.io" + "" == "https://ru.hexlet.io";
    NormalizedNameOfLowerCase(u);
  }

  /** Addresses whose parts can be told apart again in the name: non-empty, no ':' in protocol or host. */
  predicate Separable(u: ParsedUrl) {
    && u.protocol != [] && ':' !in u.protocol
    && u.host != [] && ':' !in u.host
    && u.port >= -1
  }

  /**
   * What `new URI(s).toURL()` yields for a string of the normal form
   * `protocol://host[:port]`: the protocol up to the first ':', which must not be
   * empty, then "//", then the authority. Strings outside that form may be
   * refused or read wrongly (a path, for one, ends up in the host).
   */
  function ParseName(s: string): (r: Option<ParsedUrl>)
    ensures r.Some? ==> Separable(r.value) && r.value.path == r.value.query == r.value.fragment == ""
  {
    match IndexOf(s, ':')
    case None => None
    case Some(i) =>
      if i == 0 || |s| < i + 3 || s[i + 1..i + 3] != "//" then None
      else ParseAuthority(s[..i], s[i + 3..])
  }

  /**
   * The host and optional port that follow "protocol://": the host up to the next
   * ':', then one or more decimal digits. An empty authority is refused, as `URI`
   * refuses it; this reader also refuses an empty host before a port, which `URI`
   * would accept.
   */
  function ParseAuthority(protocol: string, authority: string): (r: Option<ParsedUrl>)
    ensures r.Some? ==> r.value.protocol == protocol && r.value.path == r.value.query == r.value.fragment == ""
    ensures r.Some? ==> r.value.host != [] && ':' !in r.value.host && r.value.port >= -1
  {
    match IndexOf(authority, ':')
    case None =>
      if authority == [] then None else Some(ParsedUrl(protocol, authority, -1, "", "", ""))
    case Some(j) =>
      var digits := authority[j + 1..];
      if j == 0 || digits == [] || !AllDigits(digits) then None
      else Some(ParsedUrl(protocol, authority[..j], ParseNat(digits), "", "", ""))
  }

  lemma ParseAuthorityOf(protocol: string, host: string, port: int)
    requires host != [] && ':' !in host && port >= -1
    ensures ParseAuthority(protocol, host + PortSuffix(port)) == Some(ParsedUrl(protocol, host, port, "", "", ""))
  {
    var authority := host + PortSuffix(port);
    if port == -1 {
      assert authority == host;
    } else {
      var digits := NatToString(port);
      assert authority == host + [':'] + digits;
      assert authority[..|host|] == host;
      IndexOfIs(authority, ':', |host|);
      assert authority[|host| + 1..] == digits;
      NatToStringRoundTrip(port);
    }
  }

  lemma ParseNameOf(protocol: string, rest: string)
    requires protocol != [] && ':' !in protocol
    ensures ParseName(protocol + "://" + rest) == ParseAuthority(protocol, rest)
  {
    var s := protocol + "://" + rest;
    assert s[..|protocol|] == protocol;
    IndexOfIs(s, ':', |protocol|);
    assert s[|protocol| + 3..] == rest;
  }

  /** Parsing a name gives back the lower-cased protocol and host and the port. */
  lemma ParseNormalizedName(u: ParsedUrl)
    requires Separable(u)
    ensures ParseName(NormalizedName(u)) == Some(ParsedUrl(Lower(u.protocol), Lower(u.host), u.port, "", "", ""))
  {
    var p, h, suffix := Lower(u.protocol), Lower(u.host), PortSuffix(u.port);
    NormalizedNameLayout(u);
    LowerKeepsNonLetter(u.protocol, ':');
    LowerKeepsNonLetter(u.host, ':');
    assert NormalizedName(u) == p + "://" + (h + suffix);
    ParseNameOf(p, h + suffix);
    ParseAuthorityOf(p, h, u.port);
  }

  /** Normalisation is idempotent: normalising the parse of a name gives the same name. */
  lemma NormalizationIdempotent(u: ParsedUrl)
    requires Separable(u)
    ensures ParseName(NormalizedName(u)).Some?
    ensures NormalizedName(ParseName(NormalizedName(u)).value) == NormalizedName(u)
  {
    ParseNormalizedName(u);
    var v := ParsedUrl(Lower(u.protocol), Lower(u.host), u.port, "", "", "");
    NormalizedNameLayout(u);
    NormalizedNameLayout(v);
    LowerIdempotent(u.protocol);
    LowerIdempotent(u.host);
  }

  /**
   * An address with neither host nor port, such as "file:///etc/passwd" or
   * "mailto:a@b.c", is normalised to "protocol://", and that name is refused, as
   * `URI` expects a non-empty authority after "//": once stored, it is reported
   * invalid when submitted again.
   */
  lemma HostlessNameIsRefused(u: ParsedUrl)
    requires u.host == [] && u.port == -1 && ':' !in u.protocol
    ensures ParseName(NormalizedName(u)).None?
  {
    var p := Lower(u.protocol);
    var name := NormalizedName(u);
    NormalizedNameLayout(u);
    LowerKeepsNonLetter(u.protocol, ':');
    assert name == p + "://";
    if p == [] {
      IndexOfIs(name, ':', 0);
    } else {
      ParseNameOf(p, "");
    }
  }

  /** "file:///etc/passwd" is stored as "file://", which does not parse. */
  lemma FileAddressIsStoredButRefused()
    ensures NormalizedName(ParsedUrl("file", "", -1, "/etc/passwd", "", "")) == "file://"
    ensures ParseName("file://").None?
  {
    var u := ParsedUrl("file", "", -1, "/etc/passwd", "", "");
    assert IsLower("file") && IsLower("") && PortSuffix(-1) == "";
    NormalizedNameOfLowerCase(u);
    HostlessNameIsRefused(u);
  }

  // ===========================================================================
  // Page metadata

  /** An element of a parsed HTML page, with its tag name, its text and its attributes. */
  datatype Element = Element(tag: string, text: string, attributes: map<string, string>)

  /** A parsed page: its title and its elements in document order. */
  datatype Document = Document(title: string, elements: seq<Element>)

  /**
   * The two CSS selectors used: a tag name, or a tag name with an attribute value
   * (held trimmed and lower-cased, as Jsoup holds it once the selector is parsed).
   */
  datatype Selector = Tag(name: string) | TagWithAttribute(name: string, key: string, value: string)

  const H1: Selector := Tag("h1")
  const META_DESCRIPTION: Selector := TagWithAttribute("meta", "name", "description")

  /**
   * Whether a selector picks an element. As in Jsoup, a tag matches the element's
   * normalised tag name, and an attribute value matches ignoring case and the
   * blanks around the element's value: the selector keeps its value trimmed and
   * lower-cased, and the element's value is compared after the same treatment.
   */
  predicate Selects(sel: Selector, e: Element) {
    match sel
    case Tag(n) => e.tag == n
    case TagWithAttribute(n, k, v) => e.tag == n && k in e.attributes && ValueMatches(e.attributes[k], v)
  }

  /**
   * Jsoup's attribute value test, `value.equalsIgnoreCase(actual.trim())` with
   * `value` already lower-cased: equal lengths, and equal characters once the
   * element's are lower-cased.
   */
  predicate ValueMatches(actual: string, value: string) {
    var t := Trim(actual);
    |t| == |value| && forall i :: 0 <= i < |t| ==> LowerChar(t[i]) == value[i]
  }

  /** The test is the same as comparing the lower-cased, trimmed value. */
  lemma ValueMatchesLower(actual: string, value: string)
    ensures ValueMatches(actual, value) <==> Lower(Trim(actual)) == value
  {
    var t := Trim(actual);
    forall i | 0 <= i < |t|
      ensures Lower(t)[i] == LowerChar(t[i])
    {
      LowerAt(t, i);
    }
  }

  /** Element `i` is the first one in document order that the selector picks. */
  ghost predicate IsFirst(elements: seq<Element>, sel: Selector, i: int) {
    && 0 <= i < |elements|
    && Selects(sel, elements[i])
    && forall k :: 0 <= k < i ==> !Selects(sel, elements[k])
  }

  /** At most one element is the first one a selector picks. */
  lemma FirstIsUnique(elements: seq<Element>, sel: Selector, i: int)
    requires IsFirst(elements, sel, i)
    ensures forall j :: IsFirst(elements, sel, j) ==> j == i
  {
  }

  /** The first element at or after position `j` that the selector picks, if any. */
  function SelectFrom(elements: seq<Element>, sel: Selector, j: nat): (r: Option<nat>)
    requires j <= |elements|
    ensures r.Some? ==> j <= r.value < |elements| && Selects(sel, elements[r.value])
    ensures r.Some? ==> forall k :: j <= k < r.value ==> !Selects(sel, elements[k])
    ensures r.None? <==> forall k :: j <= k < |elements| ==> !Selects(sel, elements[k])
    decreases |elements| - j
  {
    if j == |elements| then None
    else if Selects(sel, elements[j]) then Some(j)
    else SelectFrom(elements, sel, j + 1)
  }

  /** `selectFirst(sel)`: the position of the first element the selector picks, if any. */
  function SelectFirst(elements: seq<Element>, sel: Selector): (r: Option<nat>)
    ensures r.Some? ==> IsFirst(elements, sel, r.value)
    ensures r.None? <==> forall k :: 0 <= k < |elements| ==> !Selects(sel, elements[k])
  {
    SelectFrom(elements, sel, 0)
  }

  /** `attr(key)`: the attribute's value, or "" when the element does not have it. */
  function Attr(e: Element, key: string): string {
    if key in e.attributes then e.attributes[key] else ""
  }

  /** The page's heading: the text of its first `h1`, or "" when it has none. */
  function H1Of(doc: Document): (h1: string)
    ensures (forall k :: 0 <= k < |doc.elements| ==> !Selects(H1, doc.elements[k])) ==> h1 == ""
    ensures forall i :: IsFirst(doc.elements, H1, i) ==> h1 == doc.elements[i].text
  {
    match SelectFirst(doc.elements, H1)
    case None => ""
    case Some(i) => FirstIsUnique(doc.elements, H1, i); doc.elements[i].text
  }

  /**
   * The page's description: the `content` of its first `meta[name=description]`,
   * or "" when it has none or that element has no `content`.
   */
  function DescriptionOf(doc: Document): (description: string)
    ensures (forall k :: 0 <= k < |doc.elements| ==> !Selects(META_DESCRIPTION, doc.elements[k])) ==> description == ""
    ensures forall i :: IsFirst(doc.elements, META_DESCRIPTION, i) ==> description == Attr(doc.elements[i], "content")
  {
    match SelectFirst(doc.elements, META_DESCRIPTION)
    case None => ""
    case Some(i) => FirstIsUnique(doc.elements, META_DESCRIPTION, i); Attr(doc.elements[i], "content")
  }

  /**
   * An element whose `name` reads "description" once trimmed and lower-cased, such
   * as " Description", is the page's description element.
   */
  lemma DescriptionIgnoresCaseAndBlanks(name: string, content: string)
    requires Lower(Trim(name)) == "description"
    ensures DescriptionOf(Document("", [Element("meta", "", map["name" := name, "content" := content])])) == content
  {
    var e := Element("meta", "", map["name" := name, "content" := content]);
    ValueMatchesLower(name, "description");
    assert IsFirst([e], META_DESCRIPTION, 0);
  }

  /**
   * `new UrlCheck(statusCode, title, h1, description)` for a fetched page: a new
   * check (no id, url or time yet) with the status, the page's title, the text of
   * its first `h1` and the content of its first description, each "" when absent.
   */
  function Inspect(statusCode: int, doc: Document): (check: UrlCheck)
    ensures check.id.None? && check.urlId.None? && check.createdAt.None?
    ensures check.statusCode == statusCode && check.title == doc.title
    ensures (forall k :: 0 <= k < |doc.elements| ==> !Selects(H1, doc.elements[k])) ==> check.h1 == ""
    ensures forall i :: IsFirst(doc.elements, H1, i) ==> check.h1 == doc.elements[i].text
    ensures (forall k :: 0 <= k < |doc.elements| ==> !Selects(META_DESCRIPTION, doc.elements[k])) ==> check.description == ""
    ensures forall i :: IsFirst(doc.elements, META_DESCRIPTION, i) ==> check.description == Attr(doc.elements[i], "content")
  {
    NewUrlCheck(statusCode, doc.title, H1Of(doc), DescriptionOf(doc))
  }

  /** What the HTTP client and the HTML parser produce for a request. */
  datatype FetchResult =
    | Fetched(status: int, body: Document)   // a response arrived, whatever its status
    | TransportFailure                       // `UnirestException`: no response
    | Failure(message: string)               // any other exception

  // ===========================================================================
  // Handlers

  /** The flash message a handler leaves in the session. */
  datatype Flash =
    | InvalidUrl        // "Некорректный URL", danger
    | UrlExists         // "Страница уже существует", info
    | UrlAdded          // "Страница успешно добавлена", success
    | PageChecked       // "Страница успешно проверена", success
    | IncorrectAddress  // "Некорректный адрес", danger
    | CheckFailed(message: string)  // the exception's message, danger

  /** The outcome of a request: a redirect with a flash, a 404, or an exception escaping the handler. */
  datatype Response = Redirect(location: string, flash: Flash) | NotFound | ServerError(message: string)

  datatype UrlPage = UrlPage(url: Url, urlChecks: seq<UrlCheck>)

  datatype UrlListPage = UrlListPage(urls: seq<Url>, urlChecks: map<int, UrlCheck>)

  /** Every check belongs to a stored url. */
  ghost predicate ChecksReferToUrls(urlRows: seq<UrlRow>, checkRows: seq<CheckRow>) {
    forall i :: 0 <= i < |checkRows| ==> exists j :: 0 <= j < |urlRows| && urlRows[j].id == checkRows[i].urlId
  }

  /** Appending a check of a stored url keeps every check referring to a stored url. */
  lemma AppendedCheckRefersToUrl(urlRows: seq<UrlRow>, checkRows: seq<CheckRow>, row: CheckRow, j: int)
    requires ChecksReferToUrls(urlRows, checkRows)
    requires 0 <= j < |urlRows| && urlRows[j].id == row.urlId
    ensures ChecksReferToUrls(urlRows, checkRows + [row])
  {
    forall i | 0 <= i < |checkRows + [row]|
      ensures exists k :: 0 <= k < |urlRows| && urlRows[k].id == (checkRows + [row])[i].urlId
    {
      if i < |checkRows| {
        assert (checkRows + [row])[i] == checkRows[i];
      } else {
        assert urlRows[j].id == (checkRows + [row])[i].urlId;
      }
    }
  }

  class UrlsController {
    const urlRepository: UrlRepository
    const urlCheckRepository: UrlCheckRepository

    constructor (urlRepository: UrlRepository, urlCheckRepository: UrlCheckRepository)
      ensures this.urlRepository == urlRepository && this.urlCheckRepository == urlCheckRepository
    {
      this.urlRepository := urlRepository;
      this.urlCheckRepository := urlCheckRepository;
    }

    /**
     * `createUrl`: an address that does not parse is refused; otherwise its
     * normalised name is looked up and stored only when it is not there yet.
     */
    method CreateUrl(inputUrl: string, parse: string -> Option<ParsedUrl>, now: Timestamp, keyReturned: bool)
      returns (r: Response)
      requires urlRepository.Valid()
      modifies urlRepository
      ensures urlRepository.Valid()
      ensures parse(inputUrl).None? ==> r == Redirect(Routes.RootPath(), InvalidUrl) && unchanged(urlRepository)
      ensures parse(inputUrl).Some? && HasName(old(urlRepository.rows), NormalizedName(parse(inputUrl).value)) ==>
        r == Redirect(Routes.UrlsPath(), UrlExists) && unchanged(urlRepository)
      ensures parse(inputUrl).Some? && !HasName(old(urlRepository.rows), NormalizedName(parse(inputUrl).value)) ==>
        && urlRepository.rows == old(urlRepository.rows) + [UrlRow(old(urlRepository.nextId), NormalizedName(parse(inputUrl).value), now)]
        && r == if keyReturned then Redirect(Routes.UrlsPath(), UrlAdded) else ServerError(NO_ID_MESSAGE)
      ensures parse(inputUrl).Some? ==> HasName(urlRepository.rows, NormalizedName(parse(inputUrl).value))
      ensures NamesUnique(old(urlRepository.rows)) ==> NamesUnique(urlRepository.rows)
      ensures ChecksReferToUrls(old(urlRepository.rows), urlCheckRepository.rows) ==>
        ChecksReferToUrls(urlRepository.rows, urlCheckRepository.rows)
    {
      var parsed := parse(inputUrl);
      if parsed.None? {
        r := Redirect(Routes.RootPath(), InvalidUrl);
        return;
      }
      var normalizedUrl := NormalizedName(parsed.value);
      var url := urlRepository.FindByName(normalizedUrl);
      if url.Some? {
        r := Redirect("/urls", UrlExists);
      } else {
        ghost var before := urlRepository.rows;
        var saved := urlRepository.Save(NewUrl(normalizedUrl), now, keyReturned);
        assert urlRepository.rows[|before|].name == normalizedUrl;
        forall i | 0 <= i < |before| ensures urlRepository.rows[i] == before[i] { }
        if saved.Err? {
          r := ServerError(saved.message);
        } else {
          r := Redirect("/urls", UrlAdded);
        }
      }
    }

    /** `showUrl`: the url with that id and its checks, newest first; not found for an unknown id. */
    method ShowUrl(id: int) returns (page: Option<UrlPage>)
      requires urlRepository.Valid() && urlCheckRepository.Valid()
      ensures page.None? <==> forall i :: 0 <= i < |urlRepository.rows| ==> urlRepository.rows[i].id != id
      ensures page.Some? ==> page.value.url.id == Some(id) && page.value.url.createdAt.Some?
      ensures page.Some? ==> UrlRow(id, page.value.url.name, page.value.url.createdAt.value) in urlRepository.rows
      ensures page.Some? ==> |page.value.urlChecks| == |NewestFirst(urlCheckRepository.rows, id)|
      ensures page.Some? ==> forall k :: 0 <= k < |page.value.urlChecks| ==>
        page.value.urlChecks[k] == FillCheckEntity(NewestFirst(urlCheckRepository.rows, id)[k])
    {
      var url := urlRepository.FindById(id);
      if url.None? {
        return None;
      }
      var urlChecks := urlCheckRepository.FindByUrlId(id);
      page := Some(UrlPage(url.value, urlChecks));
    }

    /** `listUrls`: all urls in id order, with the latest check of each url that has one. */
    method ListUrls() returns (page: UrlListPage)
      requires urlRepository.Valid() && urlCheckRepository.Valid()
      ensures |page.urls| == |urlRepository.rows|
      ensures forall i :: 0 <= i < |urlRepository.rows| ==> page.urls[i] == FillUrlEntity(urlRepository.rows[i])
      ensures forall u :: u in page.urlChecks <==> exists i :: 0 <= i < |urlCheckRepository.rows| && urlCheckRepository.rows[i].urlId == u
      ensures forall u :: u in page.urlChecks ==>
        && LatestRow(urlCheckRepository.rows, u).Some?
        && page.urlChecks[u] == FillCheckEntity(LatestRow(urlCheckRepository.rows, u).value).(urlId := Some(u))
    {
      var urls := urlRepository.GetEntities();
      var urlChecks := urlCheckRepository.FindLatestChecks();
      page := UrlListPage(urls, urlChecks);
    }
  }

  class CheckController {
    const urlRepository: UrlRepository
    const urlCheckRepository: UrlCheckRepository

    constructor (urlRepository: UrlRepository, urlCheckRepository: UrlCheckRepository)
      ensures this.urlRepository == urlRepository && this.urlCheckRepository == urlCheckRepository
    {
      this.urlRepository := urlRepository;
      this.urlCheckRepository := urlCheckRepository;
    }

    /**
     * The end of the response branch of `checkUrl`: the inspected check is tied to
     * the stored url and saved, and the flash says whether the store returned its key.
     */
    method StoreCheck(url: UrlRow, check: UrlCheck, now: Timestamp, keyReturned: bool) returns (flash: Flash)
      requires urlCheckRepository.Valid()
      requires url in urlRepository.rows
      modifies urlCheckRepository
      ensures urlCheckRepository.Valid()
      ensures urlCheckRepository.rows == old(urlCheckRepository.rows) + [InsertedCheckRow(check.(urlId := Some(url.id)), old(urlCheckRepository.nextId), now)]
      ensures flash == if keyReturned then PageChecked else CheckFailed(NO_ID_MESSAGE)
      ensures ChecksReferToUrls(urlRepository.rows, old(urlCheckRepository.rows)) ==>
        ChecksReferToUrls(urlRepository.rows, urlCheckRepository.rows)
    {
      var newUrlCheck := check.(urlId := Some(url.id));
      ghost var before, nextId := urlCheckRepository.rows, urlCheckRepository.nextId;
      var saved := urlCheckRepository.Save(newUrlCheck, now, keyReturned);
      // the new check refers to the url, which is stored
      ghost var j :| 0 <= j < |urlRepository.rows| && urlRepository.rows[j] == url;
      if ChecksReferToUrls(urlRepository.rows, before) {
        AppendedCheckRefersToUrl(urlRepository.rows, before, InsertedCheckRow(newUrlCheck, nextId, now), j);
      }
      flash := if saved.Ok? then PageChecked else CheckFailed(saved.message);
    }

    /**
     * `checkUrl`: fetches the page of the url with that id and stores one check when
     * a response arrived, whatever its status; a transport failure or any other
     * exception stores nothing. Every outcome for a known url redirects to its page.
     */
    method CheckUrl(id: int, fetch: string -> FetchResult, now: Timestamp, keyReturned: bool)
      returns (r: Response)
      requires urlRepository.Valid() && urlCheckRepository.Valid()
      modifies urlCheckRepository
      ensures urlCheckRepository.Valid()
      ensures r.NotFound? <==> forall i :: 0 <= i < |urlRepository.rows| ==> urlRepository.rows[i].id != id
      ensures r.NotFound? ==> unchanged(urlCheckRepository)
      ensures !r.NotFound? ==> r.Redirect? && r.location == Routes.UrlPathOfLong(Some(id))
      ensures forall i :: 0 <= i < |urlRepository.rows| && urlRepository.rows[i].id == id ==>
        match fetch(urlRepository.rows[i].name)
        case Fetched(status, doc) =>
          && urlCheckRepository.rows == old(urlCheckRepository.rows) + [InsertedCheckRow(Inspect(status, doc).(urlId := Some(id)), old(urlCheckRepository.nextId), now)]
          && r.flash == if keyReturned then PageChecked else CheckFailed(NO_ID_MESSAGE)
        case TransportFailure =>
          unchanged(urlCheckRepository) && r.flash == IncorrectAddress
        case Failure(message) =>
          unchanged(urlCheckRepository) && r.flash == CheckFailed(message)
      ensures ChecksReferToUrls(urlRepository.rows, old(urlCheckRepository.rows)) ==>
        ChecksReferToUrls(urlRepository.rows, urlCheckRepository.rows)
    {
      var url := urlRepository.FindById(id);
      if url.None? {
        return NotFound;
      }
      // ids are unique, so every row with this id is the one found
      assert forall i :: 0 <= i < |urlRepository.rows| && urlRepository.rows[i].id == id ==>
        urlRepository.rows[i].name == url.value.name;
      var flash: Flash;
      match fetch(url.value.name) {
        case TransportFailure =>
          flash := IncorrectAddress;
        case Failure(message) =>
          flash := CheckFailed(message);
        case Fetched(status, doc) =>
          flash := StoreCheck(UrlRow(id, url.value.name, url.value.createdAt.value), Inspect(status, doc), now, keyReturned);
      }
      Routes.UrlPathOfLongSpelledOut(url.value.id);
      r := Redirect("/urls/" + Routes.ValueOf(url.value.id), flash);
    }
  }
}
