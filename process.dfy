/** The request handling of src/process.rs: one request is read and decoded,
    dispatched to the store, the login check or the dead-link checker, and
    the outcome is written back as text. The login check and the link probes
    are given as oracles: `auth(password)` is PAM's verdict for the current
    user, `probe(slot, url)` what the probe of the entry at `slot` saw. */
module Process {
  import opened Models
  import opened RustStr
  import opened RustInt
  import opened Actions
  import opened Database
  import opened ProcessResult
  import DeadLinkCheck

  // ---------------------------------------------------------------------
  // Dispatch
  // ---------------------------------------------------------------------

  /** A store call's outcome: `ok` when the call ran, its error as
      `DbError` when it did not. */
  function StoreOutcome(backend: Backend, ok: ProOk): (r: Result<ProOk, ProError>)
    ensures r.Ok? <==> Execute(backend).Ok?
    ensures r.Ok? ==> r.value == ok
    ensures r.Err? ==> r.error == DbError(Execute(backend).error)
  {
    if Execute(backend).Err? then Err(DbError(Execute(backend).error)) else Ok(ok)
  }

  /** What `handle_action` answers for `action` on a table holding `rows`. */
  function Outcome(
    action: Action,
    rows: seq<WebsiteAccount>,
    auth: string -> Result<(), PamError>,
    backend: Backend,
    probe: (nat, string) -> DeadLinkCheck.ProbeResult)
    : Result<ProOk, ProError>
  {
    match action
    case CheckIdentity(password) =>
      if auth(password).Err? then Err(IdentityError(auth(password).error)) else Ok(Ack)
    case GetInfo => StoreOutcome(backend, Info(rows))
    case AddWebsiteAccount(_, _, _, _, _) => StoreOutcome(backend, Ack)
    case ChangeWebsiteAccount(_, _, _, _, _, _) => StoreOutcome(backend, Ack)
    case DeleteWebsiteAccount(_) => StoreOutcome(backend, Ack)
    case CheckDeadLink =>
      StoreOutcome(backend, DeadLink(DeadLinkCheck.LinkStatus(IdAndUrls(rows), probe)))
  }

  /** The table after `handle_action` ran `action` on `rows`. */
  function Effect(action: Action, rows: seq<WebsiteAccount>, backend: Backend): seq<WebsiteAccount> {
    if Execute(backend).Err? then rows
    else
      match action
      case AddWebsiteAccount(account, password, site_url, site_name, note) =>
        rows + [WebsiteAccount(None, account, password, site_url, site_name, note)]
      case ChangeWebsiteAccount(id, account, password, site_name, site_url, note) =>
        Updated(rows, id, Columns(account, password, site_name, site_url, note))
      case DeleteWebsiteAccount(website_id) => Deleted(rows, website_id)
      case _ => rows
  }

  /** `handle_action`: each action goes to its collaborator, with its fields
      in the collaborator's order; a collaborator's failure becomes the
      matching `ProError`. */
  method HandleAction(
    action: Action,
    db: Db,
    auth: string -> Result<(), PamError>,
    backend: Backend,
    probe: (nat, string) -> DeadLinkCheck.ProbeResult)
    returns (result: Result<ProOk, ProError>)
    modifies db
    ensures result == Outcome(action, old(db.rows), auth, backend, probe)
    ensures db.rows == Effect(action, old(db.rows), backend)
  {
    match action {
      case CheckIdentity(password) =>
        var verdict := auth(password);
        if verdict.Err? {
          return Err(IdentityError(verdict.error));
        }
        return Ok(Ack);
      case GetInfo =>
        var list := db.GetAllWebsiteAccount(backend);
        if list.Err? {
          return Err(DbError(list.error));
        }
        return Ok(Info(list.value));
      case AddWebsiteAccount(account, password, site_url, site_name, note) =>
        var done := db.AddNewWebsiteAccount(backend, account, password, site_url, site_name, note);
        if done.Err? {
          return Err(DbError(done.error));
        }
        return Ok(Ack);
      case ChangeWebsiteAccount(id, new_account, new_password, new_site_name, new_site_url, new_note) =>
        var done := db.UpdateWebsiteAccount(backend, id, new_account, new_password, new_site_name, new_site_url, new_note);
        if done.Err? {
          return Err(DbError(done.error));
        }
        return Ok(Ack);
      case DeleteWebsiteAccount(website_id) =>
        var done := db.DeleteWebsiteAccount(backend, website_id);
        if done.Err? {
          return Err(DbError(done.error));
        }
        return Ok(Ack);
      case CheckDeadLink =>
        var idAndUrl := db.GetAllIdAndUrl(backend);
        if idAndUrl.Err? {
          return Err(DbError(idAndUrl.error));
        }
        var list := DeadLinkCheck.CheckDeadLink(idAndUrl.value, probe);
        return Ok(DeadLink(list));
    }
  }

  /** A request that fails leaves the table as it was. */
  lemma FailureKeepsTable(
    action: Action,
    rows: seq<WebsiteAccount>,
    auth: string -> Result<(), PamError>,
    backend: Backend,
    probe: (nat, string) -> DeadLinkCheck.ProbeResult)
    ensures Outcome(action, rows, auth, backend, probe).Err? ==> Effect(action, rows, backend) == rows
  {
  }

  /** Only the add, change and delete actions write to the table. */
  lemma ReadOnlyActions(action: Action, rows: seq<WebsiteAccount>, backend: Backend)
    requires action.CheckIdentity? || action.GetInfo? || action.CheckDeadLink?
    ensures Effect(action, rows, backend) == rows
  {
  }

  /** The login check consults PAM only: its answer is `Ack` exactly when PAM
      accepts, and it neither reads nor writes the table. */
  lemma CheckIdentityOutcome(
    password: string,
    rows: seq<WebsiteAccount>,
    rows': seq<WebsiteAccount>,
    auth: string -> Result<(), PamError>,
    backend: Backend,
    backend': Backend,
    probe: (nat, string) -> DeadLinkCheck.ProbeResult)
    ensures Outcome(CheckIdentity(password), rows, auth, backend, probe) == Ok(Ack) <==> auth(password).Ok?
    ensures auth(password).Err? ==>
              Outcome(CheckIdentity(password), rows, auth, backend, probe) == Err(IdentityError(auth(password).error))
    ensures Outcome(CheckIdentity(password), rows, auth, backend, probe)
            == Outcome(CheckIdentity(password), rows', auth, backend', probe)
    ensures Effect(CheckIdentity(password), rows, backend) == rows
  {
  }

  /** No action other than the login check consults PAM: a client that never
      logged in gets the same answers. */
  lemma NoLoginRequired(
    action: Action,
    rows: seq<WebsiteAccount>,
    auth: string -> Result<(), PamError>,
    auth': string -> Result<(), PamError>,
    backend: Backend,
    probe: (nat, string) -> DeadLinkCheck.ProbeResult)
    requires !action.CheckIdentity?
    ensures Outcome(action, rows, auth, backend, probe) == Outcome(action, rows, auth', backend, probe)
  {
  }

  /** `GetInfo` returns the table unchanged and in order, or `DbError`. */
  lemma GetInfoOutcome(
    rows: seq<WebsiteAccount>,
    auth: string -> Result<(), PamError>,
    backend: Backend,
    probe: (nat, string) -> DeadLinkCheck.ProbeResult)
    ensures Execute(backend).Ok? ==> Outcome(GetInfo, rows, auth, backend, probe) == Ok(Info(rows))
    ensures Execute(backend).Err? ==> Outcome(GetInfo, rows, auth, backend, probe) == Err(DbError(Execute(backend).error))
  {
  }

  /** A write action answers `Ack` and applies its change when the store call
      runs, and answers `DbError` changing nothing when it does not. */
  lemma WriteOutcome(
    action: Action,
    rows: seq<WebsiteAccount>,
    auth: string -> Result<(), PamError>,
    backend: Backend,
    probe: (nat, string) -> DeadLinkCheck.ProbeResult)
    requires action.AddWebsiteAccount? || action.ChangeWebsiteAccount? || action.DeleteWebsiteAccount?
    ensures Outcome(action, rows, auth, backend, probe) == StoreOutcome(backend, Ack)
    ensures action.AddWebsiteAccount? && Execute(backend).Ok? ==>
              Effect(action, rows, backend)
              == rows + [WebsiteAccount(None, action.account, action.password, action.site_url, action.site_name, action.note)]
    ensures action.ChangeWebsiteAccount? && Execute(backend).Ok? ==>
              Effect(action, rows, backend)
              == Updated(rows, action.id, Columns(action.new_account, action.new_password, action.new_site_name, action.new_site_url, action.new_note))
    ensures action.DeleteWebsiteAccount? && Execute(backend).Ok? ==>
              Effect(action, rows, backend) == Deleted(rows, action.website_id)
    ensures Execute(backend).Err? ==> Effect(action, rows, backend) == rows
  {
  }

  /** `CheckDeadLink` reports, in table order, one `(id, dead)` pair per row
      with an id, `dead` being the verdict on that row's URL. */
  lemma DeadLinkOutcome(
    rows: seq<WebsiteAccount>,
    auth: string -> Result<(), PamError>,
    backend: Backend,
    probe: (nat, string) -> DeadLinkCheck.ProbeResult)
    requires Execute(backend).Ok?
    ensures var r := Outcome(CheckDeadLink, rows, auth, backend, probe);
            && r.Ok? && r.value.DeadLink?
            && |r.value.links| == |IdAndUrls(rows)|
            && forall i :: 0 <= i < |IdAndUrls(rows)| ==>
                 && r.value.links[i].0 == IdAndUrls(rows)[i].1
                 && (r.value.links[i].1 <==> DeadLinkCheck.IsDead(probe(i, IdAndUrls(rows)[i].0)))
  {
    var pairs := IdAndUrls(rows);
    var links := DeadLinkCheck.LinkStatus(pairs, probe);
    assert Outcome(CheckDeadLink, rows, auth, backend, probe) == Ok(DeadLink(links));
  }

  // ---------------------------------------------------------------------
  // The response text
  // ---------------------------------------------------------------------

  /** A row's id as written: a missing id is written as `-1`. */
  function IdText(id: Option<i32>): string {
    I32ToString(if id.Some? then id.value as int else -1)
  }

  /** An optional column as written: a missing value is the empty string. */
  function OrEmpty(o: Option<string>): (r: string)
    ensures o.Some? ==> r == o.value
    ensures o.None? ==> r == ""
  {
    if o.Some? then o.value else ""
  }

  /** Rust's `Display` of a `bool`. */
  function BoolText(b: bool): string {
    if b then "true" else "false"
  }

  /** One `Info` line as `format!` writes it: id, account, URL, site name
      and note, tab-separated. The password is not written. */
  function InfoLine(item: WebsiteAccount): string {
    IdText(item.id) + "\t" + item.account + "\t" + item.site_url + "\t" + OrEmpty(item.site_name) + "\t" + OrEmpty(item.note) + "\n"
  }

  /** One `DeadLink` line: the id, a tab, `true` for a dead link. */
  function LinkLine(item: (i32, bool)): string {
    I32ToString(item.0 as int) + "\t" + BoolText(item.1) + "\n"
  }

  /** The `Info` lines of a list, pushed in list order. */
  function InfoRows(list: seq<WebsiteAccount>): string {
    if list == [] then "" else InfoRows(list[..|list| - 1]) + InfoLine(list[|list| - 1])
  }

  /** The `DeadLink` lines of a report, pushed in report order. */
  function LinkRows(list: seq<(i32, bool)>): string {
    if list == [] then "" else LinkRows(list[..|list| - 1]) + LinkLine(list[|list| - 1])
  }

  /** The text `answer_request` writes for an outcome. */
  function ResponseText(result: Result<ProOk, ProError>): string {
    match result
    case Ok(Ack) => "Ack"
    case Ok(Info(list)) => "Info\n" + InfoRows(list)
    case Ok(DeadLink(list)) => "DeadLink\n" + LinkRows(list)
    case Err(IdentityError(_)) => "IdentityError"
    case Err(DbError(_)) => "DbError"
  }

  lemma Assoc(a: string, b: string, c: string)
    ensures a + b + c == a + (b + c)
  {
  }

  lemma InfoRowsStep(list: seq<WebsiteAccount>, k: nat)
    requires k < |list|
    ensures InfoRows(list[..k + 1]) == InfoRows(list[..k]) + InfoLine(list[k])
  {
    assert list[..k + 1][..k] == list[..k];
  }

  lemma LinkRowsStep(list: seq<(i32, bool)>, k: nat)
    requires k < |list|
    ensures LinkRows(list[..k + 1]) == LinkRows(list[..k]) + LinkLine(list[k])
  {
    assert list[..k + 1][..k] == list[..k];
  }

  /** `answer_request`'s text building: the scalar words, or the heading
      line followed by one `format!`-ed line per item, in list order. */
  method AnswerRequest(result: Result<ProOk, ProError>) returns (response: string)
    ensures response == ResponseText(result)
  {
    match result {
      case Ok(Ack) =>
        response := "Ack";
      case Ok(Info(list)) =>
        response := "Info\n";
        for k := 0 to |list|
          invariant response == "Info\n" + InfoRows(list[..k])
        {
          var item := list[k];
          var siteName := if item.site_name.Some? then item.site_name.value else "";
          var note := if item.note.Some? then item.note.value else "";
          var id := if item.id.Some? then item.id.value as int else -1;
          var line := I32ToString(id) + "\t" + item.account + "\t" + item.site_url + "\t" + siteName + "\t" + note + "\n";
          assert line == InfoLine(item);
          InfoRowsStep(list, k);
          Assoc("Info\n", InfoRows(list[..k]), line);
          response := response + line;
        }
        assert list[..|list|] == list;
      case Ok(DeadLink(list)) =>
        response := "DeadLink\n";
        for k := 0 to |list|
          invariant response == "DeadLink\n" + LinkRows(list[..k])
        {
          var item := list[k];
          var line := I32ToString(item.0 as int) + "\t" + BoolText(item.1) + "\n";
          LinkRowsStep(list, k);
          Assoc("DeadLink\n", LinkRows(list[..k]), line);
          response := response + line;
        }
        assert list[..|list|] == list;
      case Err(IdentityError(_)) =>
        response := "IdentityError";
      case Err(DbError(_)) =>
        response := "DbError";
    }
  }

  // ---------------------------------------------------------------------
  // Reading the response back
  // ---------------------------------------------------------------------

  /** A text column a client can read back: it holds no tab and no newline. */
  predicate Plain(s: string) {
    '\t' !in s && '\n' !in s
  }

  /** A row whose written columns are all plain. */
  predicate PlainRow(item: WebsiteAccount) {
    && Plain(item.account)
    && Plain(item.site_url)
    && (item.site_name.Some? ==> Plain(item.site_name.value))
    && (item.note.Some? ==> Plain(item.note.value))
  }

  /** The columns of one `Info` line. */
  function InfoFields(item: WebsiteAccount): (r: seq<string>)
    ensures |r| == 5
  {
    [IdText(item.id), item.account, item.site_url, OrEmpty(item.site_name), OrEmpty(item.note)]
  }

  /** The columns of one `DeadLink` line. */
  function LinkFields(item: (i32, bool)): (r: seq<string>)
    ensures |r| == 2
  {
    [I32ToString(item.0 as int), BoolText(item.1)]
  }

  /** Each text followed by a newline, in order. */
  function Lines(bodies: seq<string>): string {
    if bodies == [] then "" else bodies[0] + "\n" + Lines(bodies[1..])
  }

  lemma {:induction false} LinesSnoc(bodies: seq<string>, last: string)
    ensures Lines(bodies + [last]) == Lines(bodies) + (last + "\n")
  {
    if bodies == [] {
      assert bodies + [last] == [last];
    } else {
      assert (bodies + [last])[1..] == bodies[1..] + [last];
      LinesSnoc(bodies[1..], last);
    }
  }

  lemma Join5(a: string, b: string, c: string, d: string, e: string)
    ensures Join([a, b, c, d, e], '\t') == a + "\t" + b + "\t" + c + "\t" + d + "\t" + e
  {
    assert "\t" == ['\t'];
    assert [d, e][1..] == [e];
    assert Join([e], '\t') == e;
    assert Join([d, e], '\t') == d + "\t" + e;
    assert [c, d, e][1..] == [d, e];
    assert Join([c, d, e], '\t') == c + "\t" + d + "\t" + e;
    assert [b, c, d, e][1..] == [c, d, e];
    assert Join([b, c, d, e], '\t') == b + "\t" + c + "\t" + d + "\t" + e;
    assert [a, b, c, d, e][1..] == [b, c, d, e];
  }

  lemma Join2(a: string, b: string)
    ensures Join([a, b], '\t') == a + "\t" + b
  {
    assert "\t" == ['\t'];
    assert [a, b][1..] == [b];
    assert Join([b], '\t') == b;
  }

  /** An `Info` line is its columns joined by tabs, then a newline. */
  lemma InfoLineColumns(item: WebsiteAccount)
    ensures InfoLine(item) == Join(InfoFields(item), '\t') + "\n"
  {
    Join5(IdText(item.id), item.account, item.site_url, OrEmpty(item.site_name), OrEmpty(item.note));
  }

  /** A `DeadLink` line is its columns joined by a tab, then a newline. */
  lemma LinkLineColumns(item: (i32, bool))
    ensures LinkLine(item) == Join(LinkFields(item), '\t') + "\n"
  {
    Join2(I32ToString(item.0 as int), BoolText(item.1));
  }

  /** The tab-joined columns of each row. */
  function InfoBodies(list: seq<WebsiteAccount>): (r: seq<string>)
    ensures |r| == |list|
  {
    seq(|list|, i requires 0 <= i < |list| => Join(InfoFields(list[i]), '\t'))
  }

  /** The tab-joined columns of each report entry. */
  function LinkBodies(list: seq<(i32, bool)>): (r: seq<string>)
    ensures |r| == |list|
  {
    seq(|list|, i requires 0 <= i < |list| => Join(LinkFields(list[i]), '\t'))
  }

  lemma InfoBodiesSnoc(list: seq<WebsiteAccount>)
    requires list != []
    ensures InfoBodies(list) == InfoBodies(list[..|list| - 1]) + [Join(InfoFields(list[|list| - 1]), '\t')]
  {
  }

  lemma LinkBodiesSnoc(list: seq<(i32, bool)>)
    requires list != []
    ensures LinkBodies(list) == LinkBodies(list[..|list| - 1]) + [Join(LinkFields(list[|list| - 1]), '\t')]
  {
  }

  lemma {:induction false} InfoRowsAreLines(list: seq<WebsiteAccount>)
    ensures InfoRows(list) == Lines(InfoBodies(list))
  {
    if list != [] {
      var init := list[..|list| - 1];
      var last := list[|list| - 1];
      InfoRowsAreLines(init);
      InfoLineColumns(last);
      InfoBodiesSnoc(list);
      LinesSnoc(InfoBodies(init), Join(InfoFields(last), '\t'));
    }
  }

  lemma {:induction false} LinkRowsAreLines(list: seq<(i32, bool)>)
    ensures LinkRows(list) == Lines(LinkBodies(list))
  {
    if list != [] {
      var init := list[..|list| - 1];
      var last := list[|list| - 1];
      LinkRowsAreLines(init);
      LinkLineColumns(last);
      LinkBodiesSnoc(list);
      LinesSnoc(LinkBodies(init), Join(LinkFields(last), '\t'));
    }
  }

  lemma {:induction false} JoinAvoids(parts: seq<string>, sep: char, c: char)
    requires |parts| >= 1 && c != sep
    requires forall i :: 0 <= i < |parts| ==> c !in parts[i]
    ensures c !in Join(parts, sep)
  {
    if |parts| > 1 {
      JoinAvoids(parts[1..], sep, c);
    }
  }

  /** Splitting newline-terminated lines that hold no newline gives the
      lines back, followed by the empty text after the last newline. */
  lemma {:induction false} SplitLines(bodies: seq<string>)
    requires forall i :: 0 <= i < |bodies| ==> '\n' !in bodies[i]
    ensures Split(Lines(bodies), '\n') == bodies + [""]
  {
    if bodies == [] {
      assert Split("", '\n') == [""];
    } else {
      SplitLines(bodies[1..]);
      SplitAfterPiece(bodies[0], Lines(bodies[1..]), '\n');
      assert [bodies[0]] + (bodies[1..] + [""]) == bodies + [""];
    }
  }

  /** The heading lines as written are the heading words and a newline. */
  lemma HeadingLiterals()
    ensures "Info\n" == "Info" + "\n" && "DeadLink\n" == "DeadLink" + "\n"
  {
  }

  /** A heading word and a newline before some text: the split gives the
      word, then the pieces of the text. */
  lemma HeadedSplit(word: string, rest: string, pieces: seq<string>)
    requires '\n' !in word
    requires Split(rest, '\n') == pieces
    ensures Split(word + "\n" + rest, '\n') == [word] + pieces
  {
    SplitAfterPiece(word, rest, '\n');
    assert word + "\n" + rest == word + ['\n'] + rest;
  }

  lemma InfoFieldsPlain(item: WebsiteAccount)
    requires PlainRow(item)
    ensures forall i :: 0 <= i < 5 ==> Plain(InfoFields(item)[i])
  {
    I32ToStringPlain(if item.id.Some? then item.id.value as int else -1);
  }

  lemma InfoBodyPlain(item: WebsiteAccount)
    requires PlainRow(item)
    ensures '\n' !in Join(InfoFields(item), '\t')
    ensures Split(Join(InfoFields(item), '\t'), '\t') == InfoFields(item)
  {
    InfoFieldsPlain(item);
    JoinAvoids(InfoFields(item), '\t', '\n');
    SplitJoin(InfoFields(item), '\t');
  }

  /** The `Info` response is the heading line, then one line per row in list
      order, then nothing; each line splits on tabs into exactly the row's id
      (`-1` when missing), account, URL, site name and note (empty when
      missing). */
  lemma InfoRowsSplit(list: seq<WebsiteAccount>)
    requires forall i :: 0 <= i < |list| ==> '\n' !in InfoBodies(list)[i]
    ensures Split(InfoRows(list), '\n') == InfoBodies(list) + [""]
  {
    InfoRowsAreLines(list);
    SplitLines(InfoBodies(list));
  }

  lemma InfoResponseSplit(list: seq<WebsiteAccount>)
    requires forall i :: 0 <= i < |list| ==> '\n' !in InfoBodies(list)[i]
    ensures Split(ResponseText(Ok(Info(list))), '\n') == ["Info"] + InfoBodies(list) + [""]
  {
    var bodies := InfoBodies(list);
    InfoRowsSplit(list);
    HeadingLiterals();
    HeadedSplit("Info", InfoRows(list), bodies + [""]);
    assert ["Info"] + (bodies + [""]) == ["Info"] + bodies + [""];
  }

  /** The `Info` response is the heading line, then one line per row in list
      order, then nothing; each line splits on tabs into exactly the row's id
      (`-1` when missing), account, URL, site name and note (empty when
      missing). */
  lemma InfoResponseLines(list: seq<WebsiteAccount>)
    requires forall i :: 0 <= i < |list| ==> PlainRow(list[i])
    ensures var lines := Split(ResponseText(Ok(Info(list))), '\n');
            && |lines| == |list| + 2
            && lines[0] == "Info"
            && lines[|list| + 1] == ""
            && forall i :: 0 <= i < |list| ==> Split(lines[i + 1], '\t') == InfoFields(list[i])
  {
    var bodies := InfoBodies(list);
    InfoBodiesPlain(list);
    InfoResponseSplit(list);
    Framed(Split(ResponseText(Ok(Info(list))), '\n'), "Info", bodies);
  }

  /** The pieces of a framed split: the heading, the middle, the empty end. */
  lemma Framed(lines: seq<string>, head: string, middle: seq<string>)
    requires lines == [head] + middle + [""]
    ensures |lines| == |middle| + 2 && lines[0] == head && lines[|middle| + 1] == ""
    ensures lines[1..|lines| - 1] == middle
    ensures forall i :: 0 <= i < |middle| ==> lines[i + 1] == middle[i]
  {
  }

  lemma InfoBodiesPlain(list: seq<WebsiteAccount>)
    requires forall i :: 0 <= i < |list| ==> PlainRow(list[i])
    ensures forall i :: 0 <= i < |list| ==>
              '\n' !in InfoBodies(list)[i] && Split(InfoBodies(list)[i], '\t') == InfoFields(list[i])
  {
    forall i | 0 <= i < |list|
      ensures '\n' !in InfoBodies(list)[i] && Split(InfoBodies(list)[i], '\t') == InfoFields(list[i])
    {
      InfoBodyPlain(list[i]);
    }
  }

  /** The first column of an `Info` line parses back to the row's id, or to
      `-1` for a row without one. */
  lemma InfoIdReadable(item: WebsiteAccount)
    ensures ParseI32(InfoFields(item)[0]) == Ok(if item.id.Some? then item.id.value else -1)
  {
    ParseDisplayed(if item.id.Some? then item.id.value else -1);
  }

  /** The password never reaches the response: lists that differ only in
      their passwords are written identically. */
  lemma {:induction false} InfoHidesPassword(list: seq<WebsiteAccount>, list': seq<WebsiteAccount>)
    requires |list| == |list'|
    requires forall i :: 0 <= i < |list| ==> list'[i] == list[i].(password := list'[i].password)
    ensures InfoRows(list) == InfoRows(list')
  {
    if list != [] {
      InfoHidesPassword(list[..|list| - 1], list'[..|list'| - 1]);
    }
  }

  /** A row without an id is written like a row whose id is `-1`. */
  lemma MissingIdLooksLikeMinusOne(item: WebsiteAccount)
    requires item.id.None?
    ensures InfoFields(item) == InfoFields(item.(id := Some(-1)))
  {
  }

  /** Rust's `bool` parsed back from its `Display`. */
  function ParseBool(s: string): (r: Option<bool>)
    ensures r.Some? <==> s == "true" || s == "false"
    ensures r.Some? ==> BoolText(r.value) == s
  {
    if s == "true" then Some(true) else if s == "false" then Some(false) else None
  }

  /** A client's reading of one `DeadLink` line: an `i32`, a tab, a `bool`. */
  function ParseLinkLine(line: string): Option<(i32, bool)> {
    var cols := Split(line, '\t');
    if |cols| != 2 then None
    else
      match ParseI32(cols[0])
      case Err(_) => None
      case Ok(id) =>
        match ParseBool(cols[1])
        case None => None
        case Some(dead) => Some((id, dead))
  }

  function ParseLinkLines(lines: seq<string>): Option<seq<(i32, bool)>> {
    if lines == [] then Some([])
    else
      match ParseLinkLine(lines[0])
      case None => None
      case Some(item) =>
        match ParseLinkLines(lines[1..])
        case None => None
        case Some(rest) => Some([item] + rest)
  }

  /** A client's reading of a `DeadLink` response. */
  function ParseDeadLinkResponse(text: string): Option<seq<(i32, bool)>> {
    var lines := Split(text, '\n');
    if lines[0] != "DeadLink" || |lines| < 2 || lines[|lines| - 1] != "" then None
    else ParseLinkLines(lines[1..|lines| - 1])
  }

  lemma LinkLineRoundTrip(item: (i32, bool))
    ensures ParseLinkLine(Join(LinkFields(item), '\t')) == Some(item)
  {
    var fields := LinkFields(item);
    I32ToStringPlain(item.0 as int);
    assert '\t' !in BoolText(item.1);
    SplitJoin(fields, '\t');
    ParseDisplayed(item.0);
    assert ParseI32(fields[0]) == Ok(item.0);
    assert ParseBool(fields[1]) == Some(item.1);
  }

  lemma {:induction false} LinkLinesRoundTrip(list: seq<(i32, bool)>)
    ensures ParseLinkLines(LinkBodies(list)) == Some(list)
  {
    if list != [] {
      assert LinkBodies(list)[1..] == LinkBodies(list[1..]);
      LinkLinesRoundTrip(list[1..]);
      LinkLineRoundTrip(list[0]);
      assert [list[0]] + list[1..] == list;
    }
  }

  lemma LinkBodyPlain(item: (i32, bool))
    ensures '\n' !in Join(LinkFields(item), '\t')
  {
    I32ToStringPlain(item.0 as int);
    assert '\n' !in BoolText(item.1);
    JoinAvoids(LinkFields(item), '\t', '\n');
  }

  /** The `DeadLink` response can be read back into exactly the report it
      was written from. */
  lemma DeadLinkRoundTrip(list: seq<(i32, bool)>)
    ensures ParseDeadLinkResponse(ResponseText(Ok(DeadLink(list)))) == Some(list)
  {
    LinkBodiesPlain(list);
    LinkResponseSplit(list);
    Framed(Split(ResponseText(Ok(DeadLink(list))), '\n'), "DeadLink", LinkBodies(list));
    LinkLinesRoundTrip(list);
  }

  lemma LinkRowsSplit(list: seq<(i32, bool)>)
    requires forall i :: 0 <= i < |list| ==> '\n' !in LinkBodies(list)[i]
    ensures Split(LinkRows(list), '\n') == LinkBodies(list) + [""]
  {
    LinkRowsAreLines(list);
    SplitLines(LinkBodies(list));
  }

  lemma LinkResponseSplit(list: seq<(i32, bool)>)
    requires forall i :: 0 <= i < |list| ==> '\n' !in LinkBodies(list)[i]
    ensures Split(ResponseText(Ok(DeadLink(list))), '\n') == ["DeadLink"] + LinkBodies(list) + [""]
  {
    var bodies := LinkBodies(list);
    LinkRowsSplit(list);
    HeadingLiterals();
    HeadedSplit("DeadLink", LinkRows(list), bodies + [""]);
    assert ["DeadLink"] + (bodies + [""]) == ["DeadLink"] + bodies + [""];
  }

  lemma LinkBodiesPlain(list: seq<(i32, bool)>)
    ensures forall i :: 0 <= i < |list| ==> '\n' !in LinkBodies(list)[i]
  {
    forall i | 0 <= i < |list|
      ensures '\n' !in LinkBodies(list)[i]
    {
      LinkBodyPlain(list[i]);
    }
  }

  /** The word a response starts with. */
  function Heading(result: Result<ProOk, ProError>): string {
    match result
    case Ok(Ack) => "Ack"
    case Ok(Info(_)) => "Info"
    case Ok(DeadLink(_)) => "DeadLink"
    case Err(IdentityError(_)) => "IdentityError"
    case Err(DbError(_)) => "DbError"
  }

  /** A heading word followed by a newline is the first line. */
  lemma HeadingFirst(word: string, rest: string)
    requires '\n' !in word
    ensures Split(word + "\n" + rest, '\n')[0] == word
  {
    SplitAfterPiece(word, rest, '\n');
    assert word + "\n" + rest == word + ['\n'] + rest;
  }

  lemma InfoHeading(list: seq<WebsiteAccount>)
    ensures Split(ResponseText(Ok(Info(list))), '\n')[0] == "Info"
  {
    assert "Info" + "\n" == "Info\n";
    HeadingFirst("Info", InfoRows(list));
  }

  lemma DeadLinkHeading(list: seq<(i32, bool)>)
    ensures Split(ResponseText(Ok(DeadLink(list))), '\n')[0] == "DeadLink"
  {
    assert "DeadLink" + "\n" == "DeadLink\n";
    HeadingFirst("DeadLink", LinkRows(list));
  }

  /** Every response starts with the word naming its kind. */
  lemma FirstLineIsHeading(result: Result<ProOk, ProError>)
    ensures Split(ResponseText(result), '\n')[0] == Heading(result)
  {
    if result.Ok? && result.value.Info? {
      InfoHeading(result.value.accounts);
    } else if result.Ok? && result.value.DeadLink? {
      DeadLinkHeading(result.value.links);
    } else {
      assert ResponseText(result) == Heading(result);
      SplitNoSeparator(Heading(result), '\n');
    }
  }

  /** Outcomes of different kinds are written differently, and a `DeadLink`
      report is determined by its text. */
  lemma ResponseDeterminesKind(r: Result<ProOk, ProError>, r': Result<ProOk, ProError>)
    requires ResponseText(r) == ResponseText(r')
    ensures r.Ok? == r'.Ok?
    ensures r.Ok? ==> (r.value.Ack? == r'.value.Ack? && r.value.Info? == r'.value.Info?)
    ensures r.Err? ==> r.error.DbError? == r'.error.DbError?
    ensures r.Ok? && r.value.DeadLink? ==> r == r'
  {
    FirstLineIsHeading(r);
    FirstLineIsHeading(r');
    assert Heading(r) == Heading(r');
    if r.Ok? && r.value.DeadLink? {
      DeadLinkRoundTrip(r.value.links);
      DeadLinkRoundTrip(r'.value.links);
    }
  }

  // ---------------------------------------------------------------------
  // One connection
  // ---------------------------------------------------------------------

  /** `process`: a request that cannot be read or decoded ends the
      connection with nothing written and the table untouched; otherwise
      the outcome of its action is written back. */
  method Process(
    read: SocketRead,
    db: Db,
    auth: string -> Result<(), PamError>,
    backend: Backend,
    probe: (nat, string) -> DeadLinkCheck.ProbeResult)
    returns (written: Option<string>)
    modifies db
    ensures ReadResult(read).Err? ==> written == None && db.rows == old(db.rows)
    ensures ReadResult(read).Ok? ==>
              && written == Some(ResponseText(Outcome(ReadResult(read).value, old(db.rows), auth, backend, probe)))
              && db.rows == Effect(ReadResult(read).value, old(db.rows), backend)
  {
    var action := ReadRequest(read);
    if action.Err? {
      return None;
    }
    var result := HandleAction(action.value, db, auth, backend, probe);
    var response := AnswerRequest(result);
    return Some(response);
  }

  /** Two entries, the first answering 200 and the second unreachable: the
      report keeps input order, marks only the second dead, and is written
      as two lines. */
  lemma DeadLinkReportExample(probe: (nat, string) -> DeadLinkCheck.ProbeResult)
    requires probe(0, "https://www.baidu.com") == DeadLinkCheck.Response(200)
    requires probe(1, "https://www.not_exist.not_exist") == DeadLinkCheck.TransportError
    ensures DeadLinkCheck.LinkStatus([("https://www.baidu.com", 1), ("https://www.not_exist.not_exist", 2)], probe) == [(1, false), (2, true)]
    ensures ResponseText(Ok(DeadLink([(1, false), (2, true)]))) == "DeadLink\n1\tfalse\n2\ttrue\n"
  {
    var l := DeadLinkCheck.LinkStatus([("https://www.baidu.com", 1), ("https://www.not_exist.not_exist", 2)], probe);
    assert l[0] == (1, false);
    assert l[1] == (2, true);
    assert I32ToString(1) == "1";
    assert I32ToString(2) == "2";
    var list: seq<(i32, bool)> := [(1, false), (2, true)];
    assert list[..1] == [(1 as i32, false)];
    assert [(1 as i32, false)][..0] == [];
    assert LinkLine((1, false)) == "1\tfalse\n";
    assert LinkLine((2, true)) == "2\ttrue\n";
    assert LinkRows([(1 as i32, false)]) == "1\tfalse\n";
    assert LinkRows(list) == "1\tfalse\n" + "2\ttrue\n";
  }
}
