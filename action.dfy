/** The request decoder of src/process/action.rs: the received text is split
    on tabs, every part loses its trailing NUL padding, and the positional
    parts are packed into an `Action` by the action code in part 0. */
module Actions {
  import opened Models
  import opened RustStr
  import opened RustInt

  /** One decoded request. */
  datatype Action =
    | CheckIdentity(password: string)
    | GetInfo
    | AddWebsiteAccount(
        account: string,
        password: string,
        site_url: string,
        site_name: Option<string>,
        note: Option<string>)
    | ChangeWebsiteAccount(
        id: i32,
        new_account: string,
        new_password: string,
        new_site_name: Option<string>,
        new_site_url: string,
        new_note: Option<string>)
    | DeleteWebsiteAccount(website_id: i32)
    | CheckDeadLink

  /** Why a request could not be read or decoded. */
  datatype DecodeError =
    | ReadFailed(reason: string)
    | ParseInt(kind: IntErrorKind)
    | Missing(message: string)
    | InvalidAction

  /** What one read from the socket produced: the received buffer as text,
      nothing (the peer closed), or an I/O failure. */
  datatype SocketRead = Received(text: string) | ReadZero | ReadError(reason: string)

  /** `parts.get(i)`. */
  function Get(parts: seq<string>, i: nat): (r: Option<string>)
    ensures r.Some? <==> i < |parts|
    ensures r.Some? ==> r.value == parts[i]
  {
    if i < |parts| then Some(parts[i]) else None
  }

  /** `parts.get(i).ok_or(message)`: a required part. */
  function Required(parts: seq<string>, i: nat, message: string): (r: Result<string, DecodeError>)
    ensures r.Ok? <==> i < |parts|
    ensures r.Ok? ==> r.value == parts[i]
    ensures r.Err? ==> r.error == Missing(message)
  {
    if i < |parts| then Ok(parts[i]) else Err(Missing(message))
  }

  /** A required part that must also parse as an `i32`. */
  function RequiredI32(parts: seq<string>, i: nat, message: string): (r: Result<i32, DecodeError>)
    ensures r.Ok? <==> i < |parts| && IsI32Literal(parts[i])
    ensures r.Ok? ==> r.value as int == SignedValue(parts[i])
  {
    var text :- Required(parts, i, message);
    ParseI32Accepts(text);
    match ParseI32(text)
    case Err(kind) => Err(ParseInt(kind))
    case Ok(v) => Ok(v)
  }

  /** `pack_action`: the action code in part 0 selects the variant, whose
      fields are taken from fixed positions. `parts[0]` panics in Rust on an
      empty vector, hence the precondition; a split never yields one. */
  function PackAction(parts: seq<string>): Result<Action, DecodeError>
    requires |parts| >= 1
  {
    var code := ParseI32(TrimEndMatches(parts[0], '\0'));
    if code.Err? then Err(ParseInt(code.error))
    else if code.value == 0 then
      var password :- Required(parts, 1, "Password is missing");
      Ok(CheckIdentity(password))
    else if code.value == 1 then
      Ok(GetInfo)
    else if code.value == 2 then
      var account :- Required(parts, 1, "Account is missing");
      var password :- Required(parts, 2, "Password is missing");
      var site_url :- Required(parts, 3, "Site URL is missing");
      Ok(AddWebsiteAccount(account, password, site_url, Get(parts, 4), Get(parts, 5)))
    else if code.value == 3 then
      var id :- RequiredI32(parts, 1, "Website id is missing");
      var new_account :- Required(parts, 2, "Account is missing");
      var new_password :- Required(parts, 3, "Password is missing");
      var new_site_name := Get(parts, 4);
      var new_site_url :- Required(parts, 5, "Site URL is missing");
      Ok(ChangeWebsiteAccount(id, new_account, new_password, new_site_name, new_site_url, Get(parts, 6)))
    else if code.value == 4 then
      var website_id :- RequiredI32(parts, 1, "Website id is missing");
      Ok(DeleteWebsiteAccount(website_id))
    else if code.value == 5 then
      Ok(CheckDeadLink)
    else
      Err(InvalidAction)
  }

  /** Every part with its trailing NUL padding removed. */
  function TrimAll(parts: seq<string>): (r: seq<string>)
    ensures |r| == |parts|
  {
    seq(|parts|, i requires 0 <= i < |parts| => TrimEndMatches(parts[i], '\0'))
  }

  /** The decoding of one received text. */
  function DecodeRequest(text: string): Result<Action, DecodeError> {
    PackAction(TrimAll(Split(text, '\t')))
  }

  /** What `read_request` returns for one socket read. */
  function ReadResult(read: SocketRead): Result<Action, DecodeError> {
    match read
    case Received(text) => DecodeRequest(text)
    case ReadZero => Err(ReadFailed("Failed to read from socket"))
    case ReadError(reason) => Err(ReadFailed(reason))
  }

  /** `read_request`, from the point where the socket read has returned:
      split on tabs, trim every part, pack. */
  method ReadRequest(read: SocketRead) returns (r: Result<Action, DecodeError>)
    ensures r == ReadResult(read)
  {
    match read {
      case ReadZero =>
        return Err(ReadFailed("Failed to read from socket"));
      case ReadError(reason) =>
        return Err(ReadFailed(reason));
      case Received(request) =>
        var parts := Split(request, '\t');
        var result: seq<string> := [];
        for k := 0 to |parts|
          invariant |result| == k
          invariant forall j :: 0 <= j < k ==> result[j] == TrimEndMatches(parts[j], '\0')
        {
          result := result + [TrimEndMatches(parts[k], '\0')];
        }
        assert result == TrimAll(parts);
        r := PackAction(result);
    }
  }

  /** The parts `PackAction` sees: one more than there are tabs, each the
      corresponding piece of the text with its trailing NULs, and only
      those, removed; the untrimmed pieces join back to the text. */
  lemma RequestParts(text: string)
    ensures |TrimAll(Split(text, '\t'))| == multiset(text)['\t'] + 1
    ensures Join(Split(text, '\t'), '\t') == text
    ensures forall i :: 0 <= i < |Split(text, '\t')| ==>
      var piece, part := Split(text, '\t')[i], TrimAll(Split(text, '\t'))[i];
      && part <= piece
      && (part == [] || part[|part| - 1] != '\0')
      && (forall j :: |part| <= j < |piece| ==> piece[j] == '\0')
  {
    JoinSplit(text, '\t');
    SplitPieces(text, '\t');
  }

  /** The requests `PackAction` accepts, code by code. */
  predicate Acceptable(parts: seq<string>)
    requires |parts| >= 1
  {
    var code := TrimEndMatches(parts[0], '\0');
    && IsI32Literal(code)
    && var c := SignedValue(code);
    && 0 <= c <= 5
    && (c == 0 ==> |parts| >= 2)
    && (c == 2 ==> |parts| >= 4)
    && (c == 3 ==> |parts| >= 6 && IsI32Literal(parts[1]))
    && (c == 4 ==> |parts| >= 2 && IsI32Literal(parts[1]))
  }

  /** Decoding succeeds exactly on acceptable requests; a malformed code is
      a parse error and an unknown code `InvalidAction`. */
  lemma PackActionAccepts(parts: seq<string>)
    requires |parts| >= 1
    ensures PackAction(parts).Ok? <==> Acceptable(parts)
    ensures !IsI32Literal(TrimEndMatches(parts[0], '\0')) ==> PackAction(parts).Err? && PackAction(parts).error.ParseInt?
    ensures IsI32Literal(TrimEndMatches(parts[0], '\0')) && !(0 <= SignedValue(TrimEndMatches(parts[0], '\0')) <= 5) ==>
      PackAction(parts) == Err(InvalidAction)
  {
    ParseI32Accepts(TrimEndMatches(parts[0], '\0'));
  }

  /** The code of an acceptable request. */
  function Code(parts: seq<string>): int
    requires |parts| >= 1
  {
    SignedValue(TrimEndMatches(parts[0], '\0'))
  }

  /** Code 0 takes the password from part 1; codes 1 and 5 ignore what follows. */
  lemma PackSimpleActions(parts: seq<string>)
    requires |parts| >= 1 && IsI32Literal(TrimEndMatches(parts[0], '\0'))
    ensures Code(parts) == 0 ==>
      PackAction(parts) == if |parts| >= 2 then Ok(CheckIdentity(parts[1])) else Err(Missing("Password is missing"))
    ensures Code(parts) == 1 ==> PackAction(parts) == Ok(GetInfo)
    ensures Code(parts) == 5 ==> PackAction(parts) == Ok(CheckDeadLink)
  {
    ParseI32Accepts(TrimEndMatches(parts[0], '\0'));
  }

  /** Code 2: account, password and site URL are parts 1 to 3; the site name
      and the note are present exactly when parts 4 and 5 are; later parts
      are ignored. */
  lemma PackAdd(parts: seq<string>)
    requires |parts| >= 1 && IsI32Literal(TrimEndMatches(parts[0], '\0')) && Code(parts) == 2
    ensures |parts| < 2 ==> PackAction(parts) == Err(Missing("Account is missing"))
    ensures |parts| == 2 ==> PackAction(parts) == Err(Missing("Password is missing"))
    ensures |parts| == 3 ==> PackAction(parts) == Err(Missing("Site URL is missing"))
    ensures |parts| >= 4 ==> PackAction(parts).Ok? && PackAction(parts).value.AddWebsiteAccount?
    ensures |parts| >= 4 ==>
      var a := PackAction(parts).value;
      && a.account == parts[1] && a.password == parts[2] && a.site_url == parts[3]
      && (a.site_name.Some? <==> |parts| > 4) && (a.site_name.Some? ==> a.site_name.value == parts[4])
      && (a.note.Some? <==> |parts| > 5) && (a.note.Some? ==> a.note.value == parts[5])
  {
    ParseI32Accepts(TrimEndMatches(parts[0], '\0'));
  }

  /** Code 3: part 1 is the id, parts 2 and 3 account and password,
      part 4 the optional site name, part 5 the required site URL, part 6
      the optional note; fewer than six parts never decode. */
  lemma PackChange(parts: seq<string>)
    requires |parts| >= 1 && IsI32Literal(TrimEndMatches(parts[0], '\0')) && Code(parts) == 3
    ensures |parts| < 2 ==> PackAction(parts) == Err(Missing("Website id is missing"))
    ensures |parts| >= 2 && !IsI32Literal(parts[1]) ==> PackAction(parts).Err? && PackAction(parts).error.ParseInt?
    ensures |parts| < 6 ==> PackAction(parts).Err?
    ensures PackAction(parts).Ok? <==> |parts| >= 6 && IsI32Literal(parts[1])
    ensures PackAction(parts).Ok? ==>
      var a := PackAction(parts).value;
      && a.ChangeWebsiteAccount?
      && a.id as int == SignedValue(parts[1])
      && a.new_account == parts[2] && a.new_password == parts[3]
      && a.new_site_name == Some(parts[4]) && a.new_site_url == parts[5]
      && (a.new_note.Some? <==> |parts| > 6) && (a.new_note.Some? ==> a.new_note.value == parts[6])
  {
    ParseI32Accepts(TrimEndMatches(parts[0], '\0'));
  }

  /** Code 4 decodes exactly when part 1 is an `i32`, which becomes the id. */
  lemma PackDelete(parts: seq<string>)
    requires |parts| >= 1 && IsI32Literal(TrimEndMatches(parts[0], '\0')) && Code(parts) == 4
    ensures PackAction(parts).Ok? <==> |parts| >= 2 && IsI32Literal(parts[1])
    ensures PackAction(parts).Ok? ==>
      PackAction(parts).value.DeleteWebsiteAccount? &&
      PackAction(parts).value.website_id as int == SignedValue(parts[1])
  {
    ParseI32Accepts(TrimEndMatches(parts[0], '\0'));
  }

  /** The decoded `ChangeWebsiteAccount` always carries a site name: part 4
      sits before the required part 5, so it is never absent. */
  lemma ChangeAlwaysHasSiteName(parts: seq<string>)
    requires |parts| >= 1
    requires PackAction(parts).Ok? && PackAction(parts).value.ChangeWebsiteAccount?
    ensures PackAction(parts).value.new_site_name.Some?
  {
    ParseI32Accepts(TrimEndMatches(parts[0], '\0'));
  }

  /** The unit test of action.rs, vector by vector. */
  lemma PackActionTestVectors()
    ensures PackAction(["0", "my_password"]) == Ok(CheckIdentity("my_password"))
    ensures PackAction(["1"]) == Ok(GetInfo)
    ensures PackAction(["2", "my_account", "my_password", "my_site_url", "my_site_name", "my_note"])
      == Ok(AddWebsiteAccount("my_account", "my_password", "my_site_url", Some("my_site_name"), Some("my_note")))
    ensures PackAction(["3", "1", "my_account", "my_password", "my_site_name", "my_site_url", "my_note"])
      == Ok(ChangeWebsiteAccount(1, "my_account", "my_password", Some("my_site_name"), "my_site_url", Some("my_note")))
    ensures PackAction(["4", "1"]) == Ok(DeleteWebsiteAccount(1))
    ensures PackAction(["5"]) == Ok(CheckDeadLink)
  {
    CodeLiteral(0);
    CodeLiteral(1);
    CodeLiteral(2);
    CodeLiteral(3);
    CodeLiteral(4);
    CodeLiteral(5);
  }

  /** A one-digit action code parses to itself. */
  lemma CodeLiteral(c: i32)
    requires 0 <= c <= 5
    ensures ParseI32([('0' as int + c as int) as char]) == Ok(c)
    ensures TrimEndMatches([('0' as int + c as int) as char], '\0') == [('0' as int + c as int) as char]
  {
    ParseDisplayed(c);
    assert I32ToString(c as int) == [('0' as int + c as int) as char];
  }

  /** A field the client can send: no tab inside it and no NUL at its end. */
  predicate Sendable(field: string) {
    '\t' !in field && (field == [] || field[|field| - 1] != '\0')
  }

  /** The actions a client can express in this format: every text field is
      sendable, the note of an addition comes only after a site name, and
      a change always has a site name (part 4 precedes the required part 5). */
  predicate Encodable(a: Action) {
    match a
    case CheckIdentity(password) => Sendable(password)
    case GetInfo => true
    case AddWebsiteAccount(account, password, site_url, site_name, note) =>
      && Sendable(account) && Sendable(password) && Sendable(site_url)
      && (site_name.Some? ==> Sendable(site_name.value))
      && (note.Some? ==> site_name.Some? && Sendable(note.value))
    case ChangeWebsiteAccount(_, new_account, new_password, new_site_name, new_site_url, new_note) =>
      && Sendable(new_account) && Sendable(new_password) && Sendable(new_site_url)
      && new_site_name.Some? && Sendable(new_site_name.value)
      && (new_note.Some? ==> Sendable(new_note.value))
    case DeleteWebsiteAccount(_) => true
    case CheckDeadLink => true
  }

  /** The parts a client sends for an action, in the documented format. */
  function EncodeRequest(a: Action): (parts: seq<string>)
    requires Encodable(a)
    ensures |parts| >= 1
  {
    match a
    case CheckIdentity(password) => ["0", password]
    case GetInfo => ["1"]
    case AddWebsiteAccount(account, password, site_url, site_name, note) =>
      ["2", account, password, site_url]
        + (if site_name.Some? then [site_name.value] else [])
        + (if note.Some? then [note.value] else [])
    case ChangeWebsiteAccount(id, new_account, new_password, new_site_name, new_site_url, new_note) =>
      ["3", I32ToString(id as int), new_account, new_password, new_site_name.value, new_site_url]
        + (if new_note.Some? then [new_note.value] else [])
    case DeleteWebsiteAccount(website_id) => ["4", I32ToString(website_id as int)]
    case CheckDeadLink => ["5"]
  }

  /** What `Display` writes for an `i32` is sendable. */
  lemma DisplayedSendable(x: int)
    ensures Sendable(I32ToString(x))
  {
    I32ToStringPlain(x);
    var n := NatToString(if x < 0 then -x else x);
    assert IsDigit(n[|n| - 1]);
    if x < 0 {
      assert I32ToString(x) == "-" + n;
    }
  }

  /** Every part of an encoded request is sendable. */
  lemma EncodedSendable(a: Action)
    requires Encodable(a)
    ensures forall i :: 0 <= i < |EncodeRequest(a)| ==> Sendable(EncodeRequest(a)[i])
  {
    match a
    case ChangeWebsiteAccount(id, _, _, _, _, _) =>
      DisplayedSendable(id as int);
    case DeleteWebsiteAccount(website_id) =>
      DisplayedSendable(website_id as int);
    case AddWebsiteAccount(_, _, _, _, _) =>
      EncodedAddSendable(a);
    case _ =>
  }

  lemma EncodedAddSendable(a: Action)
    requires a.AddWebsiteAccount? && Encodable(a)
    ensures forall i :: 0 <= i < |EncodeRequest(a)| ==> Sendable(EncodeRequest(a)[i])
  {
    var parts := EncodeRequest(a);
    assert parts[..4] == ["2", a.account, a.password, a.site_url];
    assert |parts| >= 5 <==> a.site_name.Some?;
    assert |parts| >= 6 <==> a.note.Some?;
    assert a.site_name.Some? ==> parts[4] == a.site_name.value;
    assert a.note.Some? ==> parts[5] == a.note.value;
    assert Sendable("2");
  }

  /** The parts with `pad` appended to the last one. */
  function PadLast(parts: seq<string>, pad: string): (r: seq<string>)
    requires |parts| >= 1
    ensures |r| == |parts|
  {
    parts[..|parts| - 1] + [parts[|parts| - 1] + pad]
  }

  /** Padding the last of some sendable parts and trimming all of them
      gives back the parts. */
  lemma TrimPaddedParts(parts: seq<string>, pad: string)
    requires |parts| >= 1
    requires forall i :: 0 <= i < |parts| ==> Sendable(parts[i])
    requires forall i :: 0 <= i < |pad| ==> pad[i] == '\0'
    ensures TrimAll(PadLast(parts, pad)) == parts
  {
    var n := |parts|;
    var padded := parts[..n - 1] + [parts[n - 1] + pad];
    forall i | 0 <= i < n ensures TrimAll(padded)[i] == parts[i] {
      if i == n - 1 {
        TrimPadded(parts[n - 1], pad, '\0');
      } else {
        assert padded[i] == parts[i];
        TrimPadded(parts[i], [], '\0');
        assert parts[i] + [] == parts[i];
      }
    }
  }

  /** Padding the last of some sendable parts keeps every part free of tabs. */
  lemma PaddedPartsHaveNoTab(parts: seq<string>, pad: string)
    requires |parts| >= 1
    requires forall i :: 0 <= i < |parts| ==> Sendable(parts[i])
    requires forall i :: 0 <= i < |pad| ==> pad[i] == '\0'
    ensures forall i :: 0 <= i < |parts| ==> '\t' !in PadLast(parts, pad)[i]
  {
    var n := |parts|;
    var padded := parts[..n - 1] + [parts[n - 1] + pad];
    forall i | 0 <= i < n ensures '\t' !in padded[i] {
      if i == n - 1 {
        assert padded[i] == parts[n - 1] + pad;
        assert '\t' !in pad;
      } else {
        assert padded[i] == parts[i];
      }
    }
  }

  /** Packing the parts of an encoded action gives back the action. */
  lemma PackEncoded(a: Action)
    requires Encodable(a)
    ensures PackAction(EncodeRequest(a)) == Ok(a)
  {
    match a
    case CheckIdentity(_) => CodeLiteral(0);
    case GetInfo => CodeLiteral(1);
    case AddWebsiteAccount(_, _, _, _, _) => PackEncodedAdd(a);
    case ChangeWebsiteAccount(_, _, _, _, _, _) => PackEncodedChange(a);
    case DeleteWebsiteAccount(website_id) => CodeLiteral(4); ParseDisplayed(website_id);
    case CheckDeadLink => CodeLiteral(5);
  }

  lemma PackEncodedAdd(a: Action)
    requires a.AddWebsiteAccount? && Encodable(a)
    ensures PackAction(EncodeRequest(a)) == Ok(a)
  {
    CodeLiteral(2);
    var parts := EncodeRequest(a);
    assert parts[..4] == ["2", a.account, a.password, a.site_url];
    assert |parts| >= 5 <==> a.site_name.Some?;
    assert |parts| >= 6 <==> a.note.Some?;
    assert a.site_name.Some? ==> parts[4] == a.site_name.value;
    assert a.note.Some? ==> parts[5] == a.note.value;
  }

  lemma PackEncodedChange(a: Action)
    requires a.ChangeWebsiteAccount? && Encodable(a)
    ensures PackAction(EncodeRequest(a)) == Ok(a)
  {
    CodeLiteral(3);
    ParseDisplayed(a.id);
    var parts := EncodeRequest(a);
    assert parts[..6] == ["3", I32ToString(a.id as int), a.new_account, a.new_password, a.new_site_name.value, a.new_site_url];
    assert |parts| >= 7 <==> a.new_note.Some?;
    assert a.new_note.Some? ==> parts[6] == a.new_note.value;
  }

  /** The round trip of the wire format: the text a client sends for an
      action, tab-joined and NUL-padded to any length, decodes to that
      action. */
  lemma DecodeEncoded(a: Action, pad: string)
    requires Encodable(a)
    requires forall i :: 0 <= i < |pad| ==> pad[i] == '\0'
    ensures DecodeRequest(Join(EncodeRequest(a), '\t') + pad) == Ok(a)
  {
    var parts := EncodeRequest(a);
    var n := |parts|;
    EncodedSendable(a);
    var padded := PadLast(parts, pad);
    JoinAppend(parts, '\t', pad);
    PaddedPartsHaveNoTab(parts, pad);
    SplitJoin(padded, '\t');
    TrimPaddedParts(parts, pad);
    PackEncoded(a);
  }
}
