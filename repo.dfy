/**
 * The two repositories (`hexlet.code.repo`), with the database tables they query
 * held in memory: a table is the sequence of its rows in insertion order plus the
 * next value of its identity column. Ids are handed out in increasing order, so
 * insertion order is id order, which is what the queries' `ORDER BY id` rely on.
 */
module Repo {
  import opened Wrappers
  import opened Model

  /** The message of the `SQLException` thrown when the driver returns no generated key. */
  const NO_ID_MESSAGE: string := "DB have not returned an id after saving an entity"

  // ===========================================================================
  // Table `urls`

  datatype UrlRow = UrlRow(id: int, name: string, createdAt: Timestamp)

  /** The column and value of `find(key, value)`: `WHERE name = ?` or `WHERE id = ?`. */
  datatype UrlKey = ByName(name: string) | ById(id: int)

  predicate Matches(row: UrlRow, key: UrlKey) {
    match key
    case ByName(n) => row.name == n
    case ById(i) => row.id == i
  }

  /**
   * The row `SELECT * FROM urls WHERE key = ?` yields first: the earliest matching
   * row, if there is one.
   */
  function FirstMatch(rows: seq<UrlRow>, key: UrlKey): (r: Option<UrlRow>)
    ensures r.Some? ==> r.value in rows && Matches(r.value, key)
    ensures r.None? <==> forall i :: 0 <= i < |rows| ==> !Matches(rows[i], key)
  {
    if rows == [] then None
    else if Matches(rows[0], key) then Some(rows[0])
    else FirstMatch(rows[1..], key)
  }

  /**
   * `fillUrlEntity`: the entity read from a row. It has its id and creation time
   * set, and writing it back under those gives the same row.
   */
  function FillUrlEntity(row: UrlRow): (url: Url)
    ensures url.id.Some? && url.createdAt.Some?
    ensures InsertedUrlRow(url, url.id.value, url.createdAt.value) == row
  {
    Url(Some(row.id), row.name, Some(row.createdAt))
  }

  /** The row `save` writes for `url`, under the id and time the store assigns. */
  function InsertedUrlRow(url: Url, id: int, now: Timestamp): UrlRow {
    UrlRow(id, url.name, now)
  }

  /** Reading back a saved url gives the saved entity, with its id and creation time set. */
  lemma SavedUrlReadsBack(url: Url, id: int, now: Timestamp)
    ensures FillUrlEntity(InsertedUrlRow(url, id, now)) == url.(id := Some(id), createdAt := Some(now))
  {
  }

  ghost predicate UrlIdsAscending(rows: seq<UrlRow>) {
    forall i, j :: 0 <= i < j < |rows| ==> rows[i].id < rows[j].id
  }

  /** Some row of the table has this name. */
  ghost predicate HasName(rows: seq<UrlRow>, name: string) {
    exists i :: 0 <= i < |rows| && rows[i].name == name
  }

  /** No two rows share a name. */
  ghost predicate NamesUnique(rows: seq<UrlRow>) {
    forall i, j :: 0 <= i < j < |rows| ==> rows[i].name != rows[j].name
  }

  /**
   * After a new row is appended to a table, looking it up by its (fresh) id finds it,
   * and so does looking it up by its name when no earlier row has that name.
   */
  lemma {:induction false} FindAfterSave(rows: seq<UrlRow>, row: UrlRow)
    requires forall i :: 0 <= i < |rows| ==> rows[i].id != row.id
    ensures FirstMatch(rows + [row], ById(row.id)) == Some(row)
    ensures !HasName(rows, row.name) ==> FirstMatch(rows + [row], ByName(row.name)) == Some(row)
  {
    if rows != [] {
      assert (rows + [row])[1..] == rows[1..] + [row];
      FindAfterSave(rows[1..], row);
      if !HasName(rows, row.name) {
        assert !HasName(rows[1..], row.name) by {
          forall i | 0 <= i < |rows[1..]| ensures rows[1..][i].name != row.name {
            assert rows[1..][i] == rows[i + 1];
          }
        }
      }
    }
  }

  class UrlRepository {
    /** The table `urls`, in id order. */
    var rows: seq<UrlRow>
    /** The value the identity column assigns next. */
    var nextId: int

    ghost predicate Valid()
      reads this
    {
      && 1 <= nextId
      && UrlIdsAscending(rows)
      && (forall i :: 0 <= i < |rows| ==> 1 <= rows[i].id < nextId)
    }

    /** A repository over an empty table. */
    constructor ()
      ensures Valid() && rows == [] && nextId == 1
    {
      rows := [];
      nextId := 1;
    }

    /**
     * `save(url)`: inserts one row with the url's name and the current time. The
     * store assigns a fresh id; when the driver hands it back, the url is returned
     * with its id and creation time set, otherwise the statement has already run
     * and the call fails with an `SQLException`.
     */
    method Save(url: Url, now: Timestamp, keyReturned: bool) returns (r: Result<Url>)
      requires Valid()
      modifies this
      ensures Valid()
      ensures forall i :: 0 <= i < |old(rows)| ==> old(rows)[i].id != old(nextId)
      ensures rows == old(rows) + [InsertedUrlRow(url, old(nextId), now)]
      ensures nextId > old(nextId)
      ensures keyReturned ==> r == Ok(url.(id := Some(old(nextId)), createdAt := Some(now)))
      ensures !keyReturned ==> r == Err(NO_ID_MESSAGE)
    {
      var id := nextId;
      rows := rows + [InsertedUrlRow(url, id, now)];
      nextId := nextId + 1;
      if keyReturned {
        r := Ok(url.(id := Some(id), createdAt := Some(now)));
      } else {
        r := Err(NO_ID_MESSAGE);
      }
    }

    /** `find(key, value)`: the url of a matching row, or empty. */
    method Find(key: UrlKey) returns (r: Option<Url>)
      requires Valid()
      ensures r.None? <==> forall i :: 0 <= i < |rows| ==> !Matches(rows[i], key)
      ensures r.Some? ==> exists i :: 0 <= i < |rows| && Matches(rows[i], key) && r.value == FillUrlEntity(rows[i])
    {
      var row := FirstMatch(rows, key);
      match row
      case None =>
        r := None;
      case Some(found) =>
        r := Some(FillUrlEntity(found));
    }

    /** `findByName(name)`: a stored url with that name, or empty when there is none. */
    method FindByName(name: string) returns (r: Option<Url>)
      requires Valid()
      ensures r.None? <==> !HasName(rows, name)
      ensures r.Some? ==> r.value.name == name && r.value.id.Some? && r.value.createdAt.Some?
      ensures r.Some? ==> UrlRow(r.value.id.value, name, r.value.createdAt.value) in rows
    {
      r := Find(ByName(name));
    }

    /** `findById(id)`: the stored url with that id, or empty when there is none. */
    method FindById(id: int) returns (r: Option<Url>)
      requires Valid()
      ensures r.None? <==> forall i :: 0 <= i < |rows| ==> rows[i].id != id
      ensures r.Some? ==> r.value.id == Some(id) && r.value.createdAt.Some?
      ensures r.Some? ==> UrlRow(id, r.value.name, r.value.createdAt.value) in rows
    {
      r := Find(ById(id));
    }

    /** `getEntities()`: every stored url, in ascending id order. */
    method GetEntities() returns (r: seq<Url>)
      requires Valid()
      ensures |r| == |rows|
      ensures forall i :: 0 <= i < |rows| ==> r[i] == FillUrlEntity(rows[i])
      ensures forall i, j :: 0 <= i < j < |r| ==> r[i].id.Some? && r[j].id.Some? && r[i].id.value < r[j].id.value
    {
      r := [];
      var i := 0;
      while i < |rows|
        invariant 0 <= i <= |rows|
        invariant |r| == i
        invariant forall k :: 0 <= k < i ==> r[k] == FillUrlEntity(rows[k])
      {
        r := r + [FillUrlEntity(rows[i])];
        i := i + 1;
      }
    }
  }

  // ===========================================================================
  // Table `url_checks`

  datatype CheckRow = CheckRow(
    id: int,
    urlId: int,
    statusCode: int,
    h1: string,
    title: string,
    description: string,
    createdAt: Timestamp)

  /**
   * The row `save(check)` writes. The statement binds url_id, status_code, h1,
   * title, description and created_at in that order.
   */
  function InsertedCheckRow(check: UrlCheck, id: int, now: Timestamp): CheckRow
    requires check.urlId.Some?
  {
    CheckRow(id, check.urlId.value, check.statusCode, check.h1, check.title, check.description, now)
  }

  /**
   * `fillCheckEntity`: the check read from a row. It has its id and creation time
   * set but leaves the url id unset; with the row's url id put back, writing it
   * under those gives the same row.
   */
  function FillCheckEntity(row: CheckRow): (check: UrlCheck)
    ensures check.id.Some? && check.createdAt.Some? && check.urlId.None?
    ensures InsertedCheckRow(check.(urlId := Some(row.urlId)), check.id.value, check.createdAt.value) == row
  {
    UrlCheck(Some(row.id), None, row.statusCode, row.title, row.h1, row.description, Some(row.createdAt))
  }

  /**
   * Reading back a saved check gives its status, title, heading and description
   * unchanged (title and heading are not swapped); the url id is not read back.
   */
  lemma SavedCheckReadsBack(check: UrlCheck, id: int, now: Timestamp)
    requires check.urlId.Some?
    ensures FillCheckEntity(InsertedCheckRow(check, id, now))
         == check.(id := Some(id), urlId := None, createdAt := Some(now))
  {
  }

  ghost predicate CheckIdsAscending(rows: seq<CheckRow>) {
    forall i, j :: 0 <= i < j < |rows| ==> rows[i].id < rows[j].id
  }

  /**
   * `SELECT * FROM url_checks WHERE url_id = ? ORDER BY id DESC` on a table kept
   * in id order: the rows of the url, last inserted first.
   */
  function NewestFirst(rows: seq<CheckRow>, urlId: int): (r: seq<CheckRow>)
    ensures |r| <= |rows|
    ensures forall k :: 0 <= k < |r| ==> r[k].urlId == urlId
  {
    if rows == [] then []
    else NewestFirst(rows[1..], urlId) + (if rows[0].urlId == urlId then [rows[0]] else [])
  }

  /** The history of a url holds exactly the rows of that url. */
  lemma {:induction false} NewestFirstRows(rows: seq<CheckRow>, urlId: int)
    ensures forall row :: row in NewestFirst(rows, urlId) <==> row in rows && row.urlId == urlId
  {
    if rows != [] {
      NewestFirstRows(rows[1..], urlId);
      assert forall row :: row in rows <==> row == rows[0] || row in rows[1..];
    }
  }

  /** The history of a url is empty exactly when the url has no checks (whether or not it exists). */
  lemma NewestFirstEmpty(rows: seq<CheckRow>, urlId: int)
    ensures NewestFirst(rows, urlId) == [] <==> forall i :: 0 <= i < |rows| ==> rows[i].urlId != urlId
  {
    NewestFirstRows(rows, urlId);
    if NewestFirst(rows, urlId) != [] {
      assert NewestFirst(rows, urlId)[0] in NewestFirst(rows, urlId);
    } else {
      forall i | 0 <= i < |rows| ensures rows[i].urlId != urlId {
        assert rows[i] in rows;
      }
    }
  }

  /** The history of a url is in strictly decreasing id order. */
  lemma {:induction false} NewestFirstDescending(rows: seq<CheckRow>, urlId: int)
    requires CheckIdsAscending(rows)
    ensures forall i, j :: 0 <= i < j < |NewestFirst(rows, urlId)| ==>
      NewestFirst(rows, urlId)[i].id > NewestFirst(rows, urlId)[j].id
  {
    if rows != [] {
      var tail := NewestFirst(rows[1..], urlId);
      NewestFirstDescending(rows[1..], urlId);
      NewestFirstRows(rows[1..], urlId);
      forall k | 0 <= k < |tail|
        ensures tail[k].id > rows[0].id
      {
        assert tail[k] in rows[1..];
        var m :| 0 <= m < |rows[1..]| && rows[1..][m] == tail[k];
        assert rows[m + 1] == tail[k];
      }
    }
  }

  /** The last inserted row of a url: the one `DISTINCT ON (url_id) ... ORDER BY url_id, id DESC` keeps. */
  function LatestRow(rows: seq<CheckRow>, urlId: int): (r: Option<CheckRow>)
    ensures r.Some? ==> r.value in rows && r.value.urlId == urlId
    ensures r.None? <==> forall i :: 0 <= i < |rows| ==> rows[i].urlId != urlId
  {
    if rows == [] then None
    else if rows[|rows| - 1].urlId == urlId then Some(rows[|rows| - 1])
    else LatestRow(rows[..|rows| - 1], urlId)
  }

  /** One more row makes that row the latest of its url and leaves the other urls alone. */
  lemma LatestRowOfLongerPrefix(rows: seq<CheckRow>, i: int)
    requires 0 <= i < |rows|
    ensures LatestRow(rows[..i + 1], rows[i].urlId) == Some(rows[i])
    ensures forall u :: u != rows[i].urlId ==> LatestRow(rows[..i + 1], u) == LatestRow(rows[..i], u)
  {
    assert rows[..i + 1][..i] == rows[..i];
  }

  /** The latest row of a url carries the largest id among that url's rows. */
  lemma {:induction false} LatestRowHasLargestId(rows: seq<CheckRow>, urlId: int)
    requires CheckIdsAscending(rows)
    requires LatestRow(rows, urlId).Some?
    ensures forall i :: 0 <= i < |rows| && rows[i].urlId == urlId ==> rows[i].id <= LatestRow(rows, urlId).value.id
  {
    if rows[|rows| - 1].urlId != urlId {
      var init := rows[..|rows| - 1];
      LatestRowHasLargestId(init, urlId);
      forall i | 0 <= i < |rows| && rows[i].urlId == urlId
        ensures rows[i].id <= LatestRow(rows, urlId).value.id
      {
        assert rows[i] == init[i];
      }
    }
  }

  /** The latest check of a url is the first entry of its history. */
  lemma LatestRowHeadsHistory(rows: seq<CheckRow>, urlId: int)
    requires CheckIdsAscending(rows)
    ensures LatestRow(rows, urlId) == if NewestFirst(rows, urlId) == [] then None else Some(NewestFirst(rows, urlId)[0])
  {
    var history := NewestFirst(rows, urlId);
    NewestFirstEmpty(rows, urlId);
    if history != [] {
      var latest := LatestRow(rows, urlId).value;
      NewestFirstRows(rows, urlId);
      NewestFirstDescending(rows, urlId);
      LatestRowHasLargestId(rows, urlId);
      assert latest in history;
      var k :| 0 <= k < |history| && history[k] == latest;
      assert history[0] in rows;
      var m :| 0 <= m < |rows| && rows[m] == history[0];
      assert rows[m].id <= latest.id;
      assert k == 0;
    }
  }

  /** A check appended to the table becomes the latest check of its url and heads its history. */
  lemma {:induction false} AppendedCheckIsLatest(rows: seq<CheckRow>, row: CheckRow)
    ensures LatestRow(rows + [row], row.urlId) == Some(row)
    ensures NewestFirst(rows + [row], row.urlId) == [row] + NewestFirst(rows, row.urlId)
  {
    if rows == [] {
      assert NewestFirst([row], row.urlId) == NewestFirst([row][1..], row.urlId) + [row];
    } else {
      assert (rows + [row])[1..] == rows[1..] + [row];
      AppendedCheckIsLatest(rows[1..], row);
    }
  }

  /**
   * A map holding, for each url with checks, the entity of its latest row has a key
   * for exactly those urls, and each value carries the largest id of its url.
   */
  lemma LatestCheckMap(rows: seq<CheckRow>, m: map<int, UrlCheck>)
    requires CheckIdsAscending(rows)
    requires forall u :: u in m <==> LatestRow(rows, u).Some?
    requires forall u :: u in m ==> m[u] == FillCheckEntity(LatestRow(rows, u).value).(urlId := Some(u))
    ensures forall u :: u in m <==> exists i :: 0 <= i < |rows| && rows[i].urlId == u
    ensures forall u :: u in m ==> m[u].urlId == Some(u) && m[u].id.Some?
    ensures forall u, i :: u in m && 0 <= i < |rows| && rows[i].urlId == u ==> rows[i].id <= m[u].id.value
  {
    forall u | u in m
      ensures forall i :: 0 <= i < |rows| && rows[i].urlId == u ==> rows[i].id <= m[u].id.value
    {
      LatestRowHasLargestId(rows, u);
    }
  }

  class UrlCheckRepository {
    /** The table `url_checks`, in id order. */
    var rows: seq<CheckRow>
    /** The value the identity column assigns next. */
    var nextId: int

    ghost predicate Valid()
      reads this
    {
      && 1 <= nextId
      && CheckIdsAscending(rows)
      && (forall i :: 0 <= i < |rows| ==> 1 <= rows[i].id < nextId)
    }

    /** A repository over an empty table. */
    constructor ()
      ensures Valid() && rows == [] && nextId == 1
    {
      rows := [];
      nextId := 1;
    }

    /**
     * `save(check)`: appends one row with the check's url id, status, heading, title
     * and description and the current time, under a fresh id. When the driver hands
     * the id back the check is returned with its id and creation time set; otherwise
     * the statement has already run and the call fails with an `SQLException`.
     * The url id must be set: the statement unboxes it.
     */
    method Save(check: UrlCheck, now: Timestamp, keyReturned: bool) returns (r: Result<UrlCheck>)
      requires Valid()
      requires check.urlId.Some?
      modifies this
      ensures Valid()
      ensures forall i :: 0 <= i < |old(rows)| ==> old(rows)[i].id != old(nextId)
      ensures rows == old(rows) + [InsertedCheckRow(check, old(nextId), now)]
      ensures nextId > old(nextId)
      ensures keyReturned ==> r == Ok(check.(id := Some(old(nextId)), createdAt := Some(now)))
      ensures !keyReturned ==> r == Err(NO_ID_MESSAGE)
    {
      var id := nextId;
      rows := rows + [InsertedCheckRow(check, id, now)];
      nextId := nextId + 1;
      if keyReturned {
        r := Ok(check.(id := Some(id), createdAt := Some(now)));
      } else {
        r := Err(NO_ID_MESSAGE);
      }
    }

    /**
     * `findByUrlId(urlId)`: the checks of the url, newest first; empty, and no
     * failure, for a url without checks or an unknown url.
     */
    method FindByUrlId(urlId: int) returns (r: seq<UrlCheck>)
      requires Valid()
      ensures |r| == |NewestFirst(rows, urlId)|
      ensures forall k :: 0 <= k < |r| ==> r[k] == FillCheckEntity(NewestFirst(rows, urlId)[k])
      ensures r == [] <==> forall i :: 0 <= i < |rows| ==> rows[i].urlId != urlId
      ensures forall i, j :: 0 <= i < j < |r| ==> r[i].id.Some? && r[j].id.Some? && r[i].id.value > r[j].id.value
    {
      r := [];
      var i := |rows|;
      while i > 0
        invariant 0 <= i <= |rows|
        invariant |r| == |NewestFirst(rows[i..], urlId)|
        invariant forall k :: 0 <= k < |r| ==> r[k] == FillCheckEntity(NewestFirst(rows[i..], urlId)[k])
      {
        i := i - 1;
        assert rows[i..][1..] == rows[i + 1..];
        if rows[i].urlId == urlId {
          r := r + [FillCheckEntity(rows[i])];
        }
      }
      assert rows[0..] == rows;
      NewestFirstEmpty(rows, urlId);
      NewestFirstDescending(rows, urlId);
    }

    /**
     * `findLatestChecks()`: for every url that has checks, its check with the largest
     * id, with the url id set to the key. The query's `DISTINCT ON` and the loop that
     * fills the map are taken together as one pass over the table in id order, in
     * which a later check of a url replaces an earlier one.
     */
    method FindLatestChecks() returns (m: map<int, UrlCheck>)
      requires Valid()
      ensures forall u :: u in m <==> exists i :: 0 <= i < |rows| && rows[i].urlId == u
      ensures forall u :: u in m ==> LatestRow(rows, u).Some? && m[u] == FillCheckEntity(LatestRow(rows, u).value).(urlId := Some(u))
      ensures forall u :: u in m ==> m[u].urlId == Some(u) && m[u].id.Some?
      ensures forall u, i :: u in m && 0 <= i < |rows| && rows[i].urlId == u ==> rows[i].id <= m[u].id.value
    {
      m := map[];
      var i := 0;
      while i < |rows|
        invariant 0 <= i <= |rows|
        invariant forall u :: u in m <==> LatestRow(rows[..i], u).Some?
        invariant forall u :: u in m ==> m[u] == FillCheckEntity(LatestRow(rows[..i], u).value).(urlId := Some(u))
      {
        var row := rows[i];
        m := m[row.urlId := FillCheckEntity(row).(urlId := Some(row.urlId))];
        LatestRowOfLongerPrefix(rows, i);
        i := i + 1;
      }
      assert rows[..|rows|] == rows;
      LatestCheckMap(rows, m);
    }
  }
}
