/** The `website_account` store of src/db.rs. The SQLite table is modelled
    as the sequence of its rows in storage order, held by a `Db` object whose
    methods insert, update, delete and query it; the connection pool and the
    outcome of each SQL statement are given by a `Backend` value. */
module Database {
  import opened Models

  /** diesel's error type, abstract apart from `NotFound`, which `get_conn`
      reports when the pool cannot hand out a connection. */
  datatype StoreError = NotFound | QueryFailed(reason: string)

  /** What the pool and the database engine do on one call: no connection
      available, or a connection on which the statement fails or runs. */
  datatype Backend = PoolExhausted | Connected(fault: Option<StoreError>)

  /** `get_conn`: a pool failure becomes `Error::NotFound`. */
  function GetConn(backend: Backend): Result<(), StoreError> {
    if backend.PoolExhausted? then Err(NotFound) else Ok(())
  }

  /** The outcome of one call: the connection, then the statement on it. */
  function Execute(backend: Backend): Result<(), StoreError> {
    if GetConn(backend).Err? then GetConn(backend)
    else if backend.fault.Some? then Err(backend.fault.value)
    else Ok(())
  }

  /** A query's answer: its value, unless the call failed. */
  function Answer<T>(backend: Backend, value: T): Result<T, StoreError> {
    if Execute(backend).Err? then Err(Execute(backend).error) else Ok(value)
  }

  /** The five data columns an update writes. */
  datatype Columns = Columns(
    account: string,
    password: string,
    site_name: Option<string>,
    site_url: string,
    note: Option<string>)

  /** One row after `UPDATE ... SET <columns> WHERE id = websiteId`. */
  function UpdateRow(row: WebsiteAccount, websiteId: i32, c: Columns): WebsiteAccount {
    if row.id == Some(websiteId) then
      row.(account := c.account, password := c.password, site_name := c.site_name,
           site_url := c.site_url, note := c.note)
    else row
  }

  /** The table after the update: every row whose id is `websiteId` carries
      the new columns and keeps its id; every other row is unchanged. */
  function Updated(rows: seq<WebsiteAccount>, websiteId: i32, c: Columns): (r: seq<WebsiteAccount>)
    ensures |r| == |rows|
    ensures forall i :: 0 <= i < |rows| ==> r[i].id == rows[i].id
    ensures forall i :: 0 <= i < |rows| && rows[i].id == Some(websiteId) ==>
      && r[i].account == c.account && r[i].password == c.password && r[i].site_name == c.site_name
      && r[i].site_url == c.site_url && r[i].note == c.note
    ensures forall i :: 0 <= i < |rows| && rows[i].id != Some(websiteId) ==> r[i] == rows[i]
  {
    if rows == [] then [] else [UpdateRow(rows[0], websiteId, c)] + Updated(rows[1..], websiteId, c)
  }

  /** The table after `DELETE ... WHERE id = websiteId`: no row with that id
      is left. */
  function Deleted(rows: seq<WebsiteAccount>, websiteId: i32): (r: seq<WebsiteAccount>)
    ensures |r| <= |rows|
    ensures forall i :: 0 <= i < |r| ==> r[i].id != Some(websiteId)
  {
    if rows == [] then []
    else (if rows[0].id == Some(websiteId) then [] else [rows[0]]) + Deleted(rows[1..], websiteId)
  }

  /** Deletion removes exactly the rows with that id: every other row is
      kept as often as it was there. */
  lemma {:induction false} DeletedKeepsOthers(rows: seq<WebsiteAccount>, websiteId: i32)
    ensures forall x :: multiset(Deleted(rows, websiteId))[x] == if x.id == Some(websiteId) then 0 else multiset(rows)[x]
  {
    if rows != [] {
      DeletedKeepsOthers(rows[1..], websiteId);
      assert rows == [rows[0]] + rows[1..];
      var h := if rows[0].id == Some(websiteId) then [] else [rows[0]];
      assert multiset(Deleted(rows, websiteId)) == multiset(h) + multiset(Deleted(rows[1..], websiteId));
      assert multiset(rows) == multiset([rows[0]]) + multiset(rows[1..]);
    }
  }

  /** The `(site_url, id)` pairs of the rows that have an id, in table order. */
  function IdAndUrls(rows: seq<WebsiteAccount>): (r: seq<(string, i32)>)
    ensures |r| <= |rows|
  {
    if rows == [] then []
    else (if rows[0].id.Some? then [(rows[0].site_url, rows[0].id.value)] else []) + IdAndUrls(rows[1..])
  }

  /** Some row has this id and this URL. */
  predicate ListedFrom(rows: seq<WebsiteAccount>, pair: (string, i32)) {
    exists i :: 0 <= i < |rows| && rows[i].id == Some(pair.1) && rows[i].site_url == pair.0
  }

  /** Every listed pair comes from a row with that id and URL. */
  lemma {:induction false} IdAndUrlsFromRows(rows: seq<WebsiteAccount>)
    ensures forall k :: 0 <= k < |IdAndUrls(rows)| ==> ListedFrom(rows, IdAndUrls(rows)[k])
  {
    if rows != [] {
      IdAndUrlsFromRows(rows[1..]);
      var rest := IdAndUrls(rows[1..]);
      var head := if rows[0].id.Some? then [(rows[0].site_url, rows[0].id.value)] else [];
      var r := IdAndUrls(rows);
      assert r == head + rest;
      forall k | 0 <= k < |r| ensures ListedFrom(rows, r[k]) {
        if k < |head| {
          assert rows[0].id == Some(r[k].1) && rows[0].site_url == r[k].0;
        } else {
          assert r[k] == rest[k - |head|];
          assert ListedFrom(rows[1..], rest[k - |head|]);
          var i :| 0 <= i < |rows[1..]| && rows[1..][i].id == Some(r[k].1) && rows[1..][i].site_url == r[k].0;
          assert rows[i + 1] == rows[1..][i];
        }
      }
    } else {
      assert IdAndUrls(rows) == [];
    }
  }

  /** When every row has an id, the listing is the rows' `(site_url, id)`,
      one for one. */
  lemma {:induction false} IdAndUrlsAllIds(rows: seq<WebsiteAccount>)
    requires forall i :: 0 <= i < |rows| ==> rows[i].id.Some?
    ensures |IdAndUrls(rows)| == |rows|
    ensures forall i :: 0 <= i < |rows| ==> IdAndUrls(rows)[i] == (rows[i].site_url, rows[i].id.value)
  {
    if rows != [] {
      assert forall i :: 1 <= i < |rows| ==> rows[i] == rows[1..][i - 1];
      IdAndUrlsAllIds(rows[1..]);
      assert IdAndUrls(rows) == [(rows[0].site_url, rows[0].id.value)] + IdAndUrls(rows[1..]);
    }
  }

  /** The row index `k` is the first whose id is `websiteId`. */
  predicate FirstWithId(rows: seq<WebsiteAccount>, websiteId: i32, k: int) {
    && 0 <= k < |rows| && rows[k].id == Some(websiteId)
    && forall j :: 0 <= j < k ==> rows[j].id != Some(websiteId)
  }

  /** `SELECT password ... WHERE id = websiteId` with `first().optional()`:
      the password of the first row with that id, or `None` if there is none. */
  function PasswordOf(rows: seq<WebsiteAccount>, websiteId: i32): (r: Option<string>)
    ensures r.None? <==> forall i :: 0 <= i < |rows| ==> rows[i].id != Some(websiteId)
    ensures r.Some? ==> exists k :: FirstWithId(rows, websiteId, k) && r.value == rows[k].password
  {
    if rows == [] then None
    else if rows[0].id == Some(websiteId) then
      assert FirstWithId(rows, websiteId, 0);
      Some(rows[0].password)
    else
      var r := PasswordOf(rows[1..], websiteId);
      assert forall i :: 1 <= i < |rows| ==> rows[i] == rows[1..][i - 1];
      if r.Some? then
        var k :| FirstWithId(rows[1..], websiteId, k) && r.value == rows[1..][k].password;
        assert FirstWithId(rows, websiteId, k + 1);
        r
      else r
  }

  /** The row index `k` is the first whose account is `account`. */
  predicate FirstWithAccount(rows: seq<WebsiteAccount>, account: string, k: int) {
    && 0 <= k < |rows| && rows[k].account == account
    && forall j :: 0 <= j < k ==> rows[j].account != account
  }

  /** `SELECT id ... WHERE account = account` with `first().optional()`:
      the (nullable) id of the first row with that account, if any. */
  function FirstIdOf(rows: seq<WebsiteAccount>, account: string): (r: Option<Option<i32>>)
    ensures r.None? <==> forall i :: 0 <= i < |rows| ==> rows[i].account != account
    ensures r.Some? ==> exists k :: FirstWithAccount(rows, account, k) && r.value == rows[k].id
  {
    if rows == [] then None
    else if rows[0].account == account then
      assert FirstWithAccount(rows, account, 0);
      Some(rows[0].id)
    else
      var r := FirstIdOf(rows[1..], account);
      assert forall i :: 1 <= i < |rows| ==> rows[i] == rows[1..][i - 1];
      if r.Some? then
        var k :| FirstWithAccount(rows[1..], account, k) && r.value == rows[1..][k].id;
        assert FirstWithAccount(rows, account, k + 1);
        r
      else r
  }

  /** `Option::flatten`. */
  function Flatten<T>(o: Option<Option<T>>): (r: Option<T>)
    ensures r.Some? <==> o.Some? && o.value.Some?
    ensures r.Some? ==> r.value == o.value.value
  {
    if o.Some? then o.value else None
  }

  /** An update that matches no row changes nothing: a missing id is not an
      error and leaves the table as it was. */
  lemma {:induction false} UpdateMissingId(rows: seq<WebsiteAccount>, websiteId: i32, c: Columns)
    requires forall i :: 0 <= i < |rows| ==> rows[i].id != Some(websiteId)
    ensures Updated(rows, websiteId, c) == rows
  {
    assert forall i :: 0 <= i < |rows| ==> Updated(rows, websiteId, c)[i] == rows[i];
  }

  /** Updating twice with the same columns is updating once. */
  lemma UpdateIdempotent(rows: seq<WebsiteAccount>, websiteId: i32, c: Columns)
    ensures Updated(Updated(rows, websiteId, c), websiteId, c) == Updated(rows, websiteId, c)
  {
    var once := Updated(rows, websiteId, c);
    var twice := Updated(once, websiteId, c);
    forall i | 0 <= i < |rows| ensures twice[i] == once[i] {
      if rows[i].id == Some(websiteId) {
        assert once[i].id == Some(websiteId);
      }
    }
  }

  /** A single row survives the delete exactly when it has another id. */
  lemma DeletedOne(row: WebsiteAccount, websiteId: i32)
    ensures Deleted([row], websiteId) == if row.id == Some(websiteId) then [] else [row]
  {
    assert [row][1..] == [];
  }

  /** Deletion keeps the order of the rows it keeps: it works on each part
      of a table independently. */
  lemma {:induction false} DeletedConcat(a: seq<WebsiteAccount>, b: seq<WebsiteAccount>, websiteId: i32)
    ensures Deleted(a + b, websiteId) == Deleted(a, websiteId) + Deleted(b, websiteId)
  {
    if a != [] {
      assert (a + b)[0] == a[0];
      assert (a + b)[1..] == a[1..] + b;
      DeletedConcat(a[1..], b, websiteId);
      var h := if a[0].id == Some(websiteId) then [] else [a[0]];
      calc {
        Deleted(a + b, websiteId);
        h + Deleted(a[1..] + b, websiteId);
        h + (Deleted(a[1..], websiteId) + Deleted(b, websiteId));
        (h + Deleted(a[1..], websiteId)) + Deleted(b, websiteId);
      }
    } else {
      assert a + b == b;
    }
  }

  /** A delete that matches no row changes nothing. */
  lemma {:induction false} DeleteMissingId(rows: seq<WebsiteAccount>, websiteId: i32)
    requires forall i :: 0 <= i < |rows| ==> rows[i].id != Some(websiteId)
    ensures Deleted(rows, websiteId) == rows
  {
    if rows != [] {
      DeleteMissingId(rows[1..], websiteId);
      assert rows == [rows[0]] + rows[1..];
    }
  }

  /** Deleting twice is deleting once. */
  lemma DeleteIdempotent(rows: seq<WebsiteAccount>, websiteId: i32)
    ensures Deleted(Deleted(rows, websiteId), websiteId) == Deleted(rows, websiteId)
  {
    DeleteMissingId(Deleted(rows, websiteId), websiteId);
  }

  /** The id-and-URL listing keeps table order and skips rows without id:
      it works on each part of a table independently. */
  lemma {:induction false} IdAndUrlsConcat(a: seq<WebsiteAccount>, b: seq<WebsiteAccount>)
    ensures IdAndUrls(a + b) == IdAndUrls(a) + IdAndUrls(b)
  {
    if a != [] {
      assert (a + b)[0] == a[0];
      assert (a + b)[1..] == a[1..] + b;
      IdAndUrlsConcat(a[1..], b);
      var h := if a[0].id.Some? then [(a[0].site_url, a[0].id.value)] else [];
      calc {
        IdAndUrls(a + b);
        h + IdAndUrls(a[1..] + b);
        h + (IdAndUrls(a[1..]) + IdAndUrls(b));
        (h + IdAndUrls(a[1..])) + IdAndUrls(b);
      }
    } else {
      assert a + b == b;
    }
  }

  /** A single row contributes its `(site_url, id)` pair exactly when it has
      an id. */
  lemma IdAndUrlsOne(row: WebsiteAccount)
    ensures IdAndUrls([row]) == if row.id.Some? then [(row.site_url, row.id.value)] else []
  {
    assert [row][1..] == [];
  }

  /** Every row that has an id is listed with its URL, whatever the other
      rows hold; rows whose id is null are the only ones skipped. */
  lemma IdAndUrlsListsEveryId(rows: seq<WebsiteAccount>)
    ensures forall i :: 0 <= i < |rows| && rows[i].id.Some? ==> (rows[i].site_url, rows[i].id.value) in IdAndUrls(rows)
  {
    forall i | 0 <= i < |rows| && rows[i].id.Some?
      ensures (rows[i].site_url, rows[i].id.value) in IdAndUrls(rows)
    {
      assert rows == rows[..i] + ([rows[i]] + rows[i + 1..]);
      IdAndUrlsConcat(rows[..i], [rows[i]] + rows[i + 1..]);
      IdAndUrlsConcat([rows[i]], rows[i + 1..]);
      IdAndUrlsOne(rows[i]);
    }
  }

  /** The in-process handle to the store. */
  class Db {
    /** The `website_account` table, in storage order. */
    var rows: seq<WebsiteAccount>

    /** `Db::new`: a handle on the table as the database file holds it. */
    constructor (table: seq<WebsiteAccount>)
      ensures rows == table
    {
      rows := table;
    }

    /** `add_new_website_account`: appends a row with the given columns and
      no id; on a failed call the table is unchanged. */
    method AddNewWebsiteAccount(
      backend: Backend,
      newAccount: string,
      newPassword: string,
      newSiteUrl: string,
      newSiteName: Option<string>,
      newNote: Option<string>)
      returns (r: Result<(), StoreError>)
      modifies this
      ensures backend.PoolExhausted? ==> r == Err(NotFound)
      ensures r == Execute(backend)
      ensures rows == if r.Ok? then old(rows) + [WebsiteAccount(None, newAccount, newPassword, newSiteUrl, newSiteName, newNote)]
                      else old(rows)
    {
      r := GetConn(backend);
      if r.Err? {
        return;
      }
      var newWebsiteAccount := WebsiteAccount(None, newAccount, newPassword, newSiteUrl, newSiteName, newNote);
      r := Execute(backend);
      if r.Ok? {
        rows := rows + [newWebsiteAccount];
      }
    }

    /** `update_website_account`: rewrites the five data columns of every row
      whose id is `websiteId`; no match is still a success. */
    method UpdateWebsiteAccount(
      backend: Backend,
      websiteId: i32,
      newAccount: string,
      newPassword: string,
      newSiteName: Option<string>,
      newSiteUrl: string,
      newNote: Option<string>)
      returns (r: Result<(), StoreError>)
      modifies this
      ensures backend.PoolExhausted? ==> r == Err(NotFound)
      ensures r == Execute(backend)
      ensures rows == if r.Ok? then Updated(old(rows), websiteId, Columns(newAccount, newPassword, newSiteName, newSiteUrl, newNote))
                      else old(rows)
    {
      r := GetConn(backend);
      if r.Err? {
        return;
      }
      r := Execute(backend);
      if r.Ok? {
        rows := Updated(rows, websiteId, Columns(newAccount, newPassword, newSiteName, newSiteUrl, newNote));
      }
    }

    /** `delete_website_account`: removes every row whose id is `websiteId`. */
    method DeleteWebsiteAccount(backend: Backend, websiteId: i32) returns (r: Result<(), StoreError>)
      modifies this
      ensures backend.PoolExhausted? ==> r == Err(NotFound)
      ensures r == Execute(backend)
      ensures rows == if r.Ok? then Deleted(old(rows), websiteId) else old(rows)
    {
      r := GetConn(backend);
      if r.Err? {
        return;
      }
      r := Execute(backend);
      if r.Ok? {
        rows := Deleted(rows, websiteId);
      }
    }

    /** `get_website_account_password`: the password of the first row with
      that id, `None` when no row has it. */
    method GetWebsiteAccountPassword(backend: Backend, websiteId: i32) returns (r: Result<Option<string>, StoreError>)
      ensures r.Err? <==> Execute(backend).Err?
      ensures r.Ok? ==> (r.value.None? <==> forall i :: 0 <= i < |rows| ==> rows[i].id != Some(websiteId))
      ensures r.Ok? && r.value.Some? ==> exists k :: FirstWithId(rows, websiteId, k) && r.value.value == rows[k].password
      ensures r == Answer(backend, PasswordOf(rows, websiteId))
    {
      var conn := GetConn(backend);
      if conn.Err? {
        return Err(conn.error);
      }
      r := Answer(backend, PasswordOf(rows, websiteId));
    }

    /** `get_all_website_account`: every row, in table order. */
    method GetAllWebsiteAccount(backend: Backend) returns (r: Result<seq<WebsiteAccount>, StoreError>)
      ensures r.Err? <==> Execute(backend).Err?
      ensures r.Ok? ==> r.value == rows
      ensures r == Answer(backend, rows)
    {
      var conn := GetConn(backend);
      if conn.Err? {
        return Err(conn.error);
      }
      r := Answer(backend, rows);
    }

    /** `get_all_id_and_url`: loads `(site_url, id)` for every row and keeps,
      in order, the pairs whose id is not null. */
    method GetAllIdAndUrl(backend: Backend) returns (r: Result<seq<(string, i32)>, StoreError>)
      ensures r.Err? <==> Execute(backend).Err?
      ensures r.Ok? ==> r.value == IdAndUrls(rows)
      ensures r == Answer(backend, IdAndUrls(rows))
    {
      var conn := GetConn(backend);
      if conn.Err? {
        return Err(conn.error);
      }
      var table := rows;
      var loaded := Answer(backend, seq(|table|, i requires 0 <= i < |table| => (table[i].site_url, table[i].id)));
      if loaded.Err? {
        return Err(loaded.error);
      }
      var result := loaded.value;
      assert |result| == |rows| && forall j :: 0 <= j < |rows| ==> result[j] == (rows[j].site_url, rows[j].id);
      var resultVec: seq<(string, i32)> := [];
      for k := 0 to |result|
        invariant resultVec == IdAndUrls(rows[..k])
      {
        var (url, someId) := result[k];
        if someId.Some? {
          resultVec := resultVec + [(url, someId.value)];
        }
        assert rows[..k + 1] == rows[..k] + [rows[k]];
        IdAndUrlsConcat(rows[..k], [rows[k]]);
        IdAndUrlsOne(rows[k]);
      }
      assert rows[..|rows|] == rows;
      return Ok(resultVec);
    }

    /** `get_website_id_by_account`: the id of the first row with that
      account, flattened: `None` when no row has the account or when that
      row's id is null. */
    method GetWebsiteIdByAccount(backend: Backend, accountToSearch: string) returns (r: Result<Option<i32>, StoreError>)
      ensures r.Err? <==> Execute(backend).Err?
      ensures r.Ok? ==> (r.value.Some? <==> exists k :: FirstWithAccount(rows, accountToSearch, k) && rows[k].id.Some?)
      ensures r.Ok? && r.value.Some? ==> exists k :: FirstWithAccount(rows, accountToSearch, k) && rows[k].id == r.value
      ensures r == Answer(backend, Flatten(FirstIdOf(rows, accountToSearch)))
    {
      var conn := GetConn(backend);
      if conn.Err? {
        return Err(conn.error);
      }
      var result := Answer(backend, FirstIdOf(rows, accountToSearch));
      if result.Err? {
        return Err(result.error);
      }
      r := Ok(Flatten(result.value));
      FirstAccountUnique(rows, accountToSearch);
    }
  }

  /** There is at most one first row with a given account. */
  lemma FirstAccountUnique(rows: seq<WebsiteAccount>, account: string)
    ensures forall k, l :: FirstWithAccount(rows, account, k) && FirstWithAccount(rows, account, l) ==> k == l
  {
  }
}
