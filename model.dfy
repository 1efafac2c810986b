/**
 * The two entities of the application, as the repositories and controllers see
 * them. Their Java classes (`hexlet.code.model.Url`, `hexlet.code.model.UrlCheck`)
 * are plain data holders whose id, creation time and (for a check) url id start
 * unset and are filled in by the repositories; an unset field is `None`.
 */
module Model {
  import opened Wrappers

  /** A creation time (`java.sql.Timestamp`), taken as an opaque value. */
  type Timestamp = int

  /** A monitored address. `name` is its normalised key. */
  datatype Url = Url(id: Option<int>, name: string, createdAt: Option<Timestamp>)

  /** One inspection of a url's page. */
  datatype UrlCheck = UrlCheck(
    id: Option<int>,
    urlId: Option<int>,
    statusCode: int,
    title: string,
    h1: string,
    description: string,
    createdAt: Option<Timestamp>)

  /** `new Url(name)`. */
  function NewUrl(name: string): Url {
    Url(None, name, None)
  }

  /** `new UrlCheck(statusCode, title, h1, description)`. */
  function NewUrlCheck(statusCode: int, title: string, h1: string, description: string): UrlCheck {
    UrlCheck(None, None, statusCode, title, h1, description, None)
  }
}
