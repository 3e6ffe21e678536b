# you_should_not_pass — a Dafny model of the request path

`you_should_not_pass` is a personal credential vault served over a small
tab-separated TCP protocol. This project models its request path:

- the decoder that turns one received text into an `Action`;
- the dispatcher that routes each action to the account store, the PAM
  login check or the dead-link checker;
- the writer that renders the outcome as the response text;
- the `website_account` store as a `Db` object over a sequence of rows;
- the dead-link checker, which probes every stored URL and reports
  `(id, is_dead)` in input order.

Modules, one per source file (plus two for the Rust library behaviour the
code relies on):

| module | models |
|---|---|
| `Models` (models.dfy) | `WebsiteAccount` (src/db/models.rs), Rust's `Option`, `Result` and `i32` |
| `RustStr` (rust_str.dfy) | `str::split` on one character, `trim_end_matches`, and `join` as its inverse |
| `RustInt` (rust_int.dfy) | `str::parse::<i32>`, including its error kinds, and the `Display` of an `i32` |
| `Actions` (action.dfy) | `Action`, `read_request` after the socket read, `pack_action`, and a client-side encoder for the round trip |
| `Database` (db.dfy) | `Db` and its seven queries and updates |
| `ProcessResult` (process_result.dfy) | `ProOk`, `ProError` |
| `DeadLinkCheck` (check_dead_link.dfy) | `check_dead_link` |
| `Process` (process.dfy) | `handle_action`, `answer_request` and `process`, plus client-side readers of the response |

The collaborators the core cannot see become parameters:

- A `Backend` value says what the connection pool and the SQL engine do on
  one call: no connection (reported as `NotFound`), a failing statement, or
  success.
- `auth: string -> Result<(), PamError>` is PAM's verdict on a password
  for the current user.
- `probe: (nat, string) -> ProbeResult` is what the probe spawned at a
  given position observed: a transport error, or an HTTP status.

Imperative code stays imperative:

- `read_request`'s trim loop, `get_all_id_and_url`'s filter loop, the two
  loops of `check_dead_link` and the two `push_str` loops of
  `answer_request` are `for` loops with invariants.
- Each is proved equal to a specification function, and the properties
  are proved as lemmas about those functions.
- The table's updates are methods on `Db` that modify its `rows` field.

What the response writer produces, as the code does it:

- Each outcome gets a word: `Ack`, `Info` followed by a newline and the
  rows, `DeadLink` followed by a newline and the report, `IdentityError`
  or `DbError` (src/process.rs:114, 116, 140, 148, 152).
- An `Info` line has five tab-separated columns: id, account, URL, site
  name and note (src/process.rs:132-135). The password is not written.
- A `DeadLink` line is the id and the verdict, written by `bool`'s
  `Display`, so `true` means dead (src/process.rs:142).
- `GetInfo` answers with the stored list as it is loaded
  (src/process.rs:40-46).
- The action list in the doc comment of src/process/action.rs calls code 1
  "Login". The code maps code 1 to `GetInfo` (line 91).

An `Info` response can be read back line by line and column by column only
while the stored fields hold no tab or newline
(`Process.InfoResponseLines`). The decoder splits requests on tabs only,
so a field added with a newline in it is stored. It then breaks the
line structure of every later `Info` response.

Two behaviours of the code are proved rather than assumed:

- A `ChangeWebsiteAccount` that decodes always has a site name, because
  part 4 comes before the required part 5 (`Actions.ChangeAlwaysHasSiteName`).
- A row without an id is written exactly like a row whose id is `-1`
  (`Process.MissingIdLooksLikeMinusOne`).

## Model

| member | source | states |
|---|---|---|
| RustStr.Split | src/process/action.rs:61 | `split` always yields at least one piece |
| RustStr.SplitPieces | src/process/action.rs:61 | there is one more piece than there are separators, and no piece holds a separator |
| RustStr.JoinSplit | src/process/action.rs:61 | joining the pieces with the separator gives back the text, so no character is lost |
| RustStr.SplitJoin | src/process/action.rs:61 | splitting the join of separator-free pieces gives back the pieces |
| RustStr.SplitAfterPiece | src/process/action.rs:61 | a separator-free piece and a separator at the front split off as the first piece |
| RustStr.SplitNoSeparator | src/process/action.rs:61 | a text without the separator is one piece |
| RustStr.JoinAppend | src/process/action.rs:60-61 | text appended after a join lands in the last piece |
| RustStr.TrimEndMatches | src/process/action.rs:66 | `trim_end_matches` leaves a prefix that does not end with the character, and removes only that character |
| RustStr.TrimPadded | src/process/action.rs:66 | trimming a text padded with the character gives back the unpadded text |
| RustStr.TrimIdempotent | src/process/action.rs:78 | trimming twice (as `read_request` and then `pack_action` do with part 0) is trimming once |
| RustInt.ParseI32Accepts | src/process/action.rs:79 | `parse::<i32>` succeeds exactly on an optional sign, at least one ASCII digit and nothing else, denoting a value in the `i32` range, and yields that value |
| RustInt.ParsePositive | src/process/action.rs:79 | the positive digit loop succeeds exactly on all-digit text whose value stays at most `i32::MAX`, and then yields that value |
| RustInt.ParseNegative | src/process/action.rs:79 | the negative digit loop succeeds exactly on all-digit text whose value stays at least `i32::MIN`, and then yields it |
| RustInt.ParseDigitsInRange | src/process/action.rs:79 | a successful digit loop ends within the `i32` range |
| RustInt.ParseI32NoDigits | src/process/action.rs:79 | the empty text is the `Empty` error; a lone sign is `InvalidDigit` |
| RustInt.HornerIsDecimal | src/process/action.rs:79 | reading digits left to right computes the numeral's decimal value |
| RustInt.NatToString | src/process.rs:132-135 | `Display` of a number writes at least one digit, and the digits denote the number |
| RustInt.ParseDisplayed | src/process.rs:130-135 | parsing what `Display` wrote for an `i32` gives back the number |
| RustInt.DisplayedIsLiteral | src/process.rs:130-135 | what `Display` writes for an `i32` is an `i32` literal for the same value |
| RustInt.I32ToStringPlain | src/process.rs:132-135 | a written id holds neither a tab nor a newline |
| Actions.Get | src/process/action.rs:96-97 | an optional part is present exactly when it exists, and is that part |
| Actions.Required | src/process/action.rs:88 | a required part is that part when it exists; otherwise it is the `Missing` error with the given message |
| Actions.RequiredI32 | src/process/action.rs:107-110 | a required id succeeds exactly when the part exists and is an `i32` literal, and yields its value |
| Actions.TrimAll | src/process/action.rs:64-67 | trimming keeps the number of parts |
| Actions.ReadRequest | src/process/action.rs:54-75 | a zero-length read or a read error fails before decoding; otherwise the result is splitting on tabs, trimming every part in a loop, and packing |
| Actions.RequestParts | src/process/action.rs:60-67 | the decoder sees one part per tab plus one; each is its piece with the trailing NULs removed and nothing else changed; the pieces join back to the text |
| Actions.PackActionAccepts | src/process/action.rs:77-138 | `pack_action` succeeds exactly on acceptable part lists; a malformed code is a parse error; an unknown code is `InvalidAction` |
| Actions.PackSimpleActions | src/process/action.rs:86-132 | code 0 needs part 1 (else "Password is missing"); codes 1 and 5 succeed whatever follows |
| Actions.PackAdd | src/process/action.rs:92-105 | code 2: parts 1 to 3 are required, in the order account, password, URL, each with its own message; site name and note are present exactly when parts 4 and 5 are; extra parts are ignored |
| Actions.PackChange | src/process/action.rs:106-124 | code 3: part 1 must be an `i32` id; it succeeds exactly with at least six parts; fields sit at their fixed positions; the note is present exactly when part 6 is |
| Actions.PackDelete | src/process/action.rs:125-131 | code 4 succeeds exactly when part 1 exists and is an `i32`, which becomes the website id |
| Actions.ChangeAlwaysHasSiteName | src/process/action.rs:113-114 | a decoded change always carries a site name |
| Actions.PackActionTestVectors | src/process/action.rs:145-207 | the six vectors of the unit test decode to exactly the asserted actions |
| Actions.CodeLiteral | src/process/action.rs:86-132 | each one-digit action code parses to itself |
| Actions.EncodeRequest | src/process/action.rs:39-52 | a client's request for an action has at least the action code |
| Actions.EncodedSendable | src/process/action.rs:39-52 | every part of an encoded request is free of tabs and trailing NULs |
| Actions.PackEncoded | src/process/action.rs:77-138 | packing the parts of an encoded action gives back the action |
| Actions.DecodeEncoded | src/process/action.rs:54-138 | a client's request, tab-joined and NUL-padded to any length (as the 4096-byte buffer is), decodes to the action it was built from |
| Database.Updated | src/db.rs:74-82 | an update keeps length and ids; matching rows take the five new columns; other rows are unchanged |
| Database.UpdateMissingId | src/db.rs:74-83 | an update of an id no row has changes nothing |
| Database.UpdateIdempotent | src/db.rs:74-83 | applying the same update twice is applying it once |
| Database.Deleted | src/db.rs:93 | a delete removes every row with the id and never adds rows |
| Database.DeletedKeepsOthers | src/db.rs:93 | a row with the id is left zero times; every other row is left exactly as many times as it was there |
| Database.DeletedConcat | src/db.rs:93 | deleting from a concatenation deletes from each side, so the kept rows stay in their relative order |
| Database.DeletedOne | src/db.rs:93 | a single row is kept exactly when its id differs from the deleted id |
| Database.DeleteMissingId | src/db.rs:93 | deleting an id no row has changes nothing |
| Database.DeleteIdempotent | src/db.rs:93 | deleting twice is deleting once |
| Database.IdAndUrls | src/db.rs:134-139 | the id-and-URL list is never longer than the table |
| Database.IdAndUrlsFromRows | src/db.rs:134-139 | each listed pair is the URL and id of some row |
| Database.IdAndUrlsAllIds | src/db.rs:134-139 | when every row has an id, the list is one `(url, id)` per row, in table order |
| Database.IdAndUrlsConcat | src/db.rs:134-139 | the list of a concatenation is the concatenation of the lists, so table order is kept |
| Database.IdAndUrlsOne | src/db.rs:136-138 | one row yields its pair exactly when its id is present |
| Database.IdAndUrlsListsEveryId | src/db.rs:134-139 | in any table, every row with an id is listed with its URL; only rows with a null id are skipped |
| Database.PasswordOf | src/db.rs:104-108 | the lookup is absent exactly when no row has the id, and otherwise is the password of the first row that has it |
| Database.FirstIdOf | src/db.rs:150-154 | the account lookup is absent exactly when no row has the account, and otherwise is the id column of the first such row |
| Database.Flatten | src/db.rs:157 | `flatten` is present exactly when both layers are |
| Database.FirstAccountUnique | src/db.rs:150-154 | the first row with an account is unique |
| Database.Db.constructor | src/db.rs:17-23 | a handle starts on the table the database holds |
| Database.Db.AddNewWebsiteAccount | src/db.rs:36-60 | no connection is `NotFound`; on success one row is appended with the given fields and no id, and nothing else changes; on failure nothing changes |
| Database.Db.UpdateWebsiteAccount | src/db.rs:62-84 | no connection is `NotFound`; on success the table is the update of the old table, which succeeds even when no row matches; on failure nothing changes |
| Database.Db.DeleteWebsiteAccount | src/db.rs:86-95 | no connection is `NotFound`; on success the matching rows are gone; on failure nothing changes |
| Database.Db.GetWebsiteAccountPassword | src/db.rs:97-111 | the password of the first row with the id, `None` exactly when no row has it; the store's failure otherwise; the table is untouched |
| Database.Db.GetAllWebsiteAccount | src/db.rs:113-122 | every row in table order, or the store's failure |
| Database.Db.GetAllIdAndUrl | src/db.rs:124-141 | the loop returns `(url, id)` for every row with an id, in table order, or the store's failure |
| Database.Db.GetWebsiteIdByAccount | src/db.rs:143-158 | the id of the first row with the account, `None` when there is no such row or its id is null, or the store's failure |
| DeadLinkCheck.Classify | src/process/check_dead_link.rs:14-22 | a task yields its entry's id; `true` (dead) exactly on a transport error or a non-2xx status |
| DeadLinkCheck.LinkStatus | src/process/check_dead_link.rs:7-33 | the report has one entry per input entry, with the input's id and the verdict on its own probe; the URL is dropped |
| DeadLinkCheck.CheckDeadLink | src/process/check_dead_link.rs:7-33 | after spawning every probe and awaiting them in spawn order, the result keeps input length and order, carries input ids and is dead exactly where its probe failed or was not 2xx |
| Process.StoreOutcome | src/process.rs:42-45 | a store call's outcome is its value when the call ran and `DbError` with the store's error when it did not |
| Process.HandleAction | src/process.rs:30-107 | each action goes to its collaborator with its fields in the collaborator's order; the result and the new table are those of the dispatch specification |
| Process.FailureKeepsTable | src/process.rs:30-107 | a request that fails leaves the table as it was |
| Process.ReadOnlyActions | src/process.rs:32-46 | the login check, the listing and the dead-link check never change the table |
| Process.CheckIdentityOutcome | src/process.rs:32-39 | the login check is `Ack` exactly when PAM accepts, and `IdentityError` with PAM's error otherwise; it does not depend on the table or the store |
| Process.NoLoginRequired | src/process.rs:30-107 | no action other than the login check consults PAM, so a client that never logged in gets the same answers |
| Process.GetInfoOutcome | src/process.rs:40-46 | `GetInfo` returns the table unchanged and in order, or `DbError` |
| Process.WriteOutcome | src/process.rs:48-94 | add, change and delete answer `Ack` and apply their change when the store call runs, and answer `DbError` changing nothing when it does not |
| Process.DeadLinkOutcome | src/process.rs:95-105 | the dead-link check reports, in table order, one `(id, dead)` pair per row with an id, judged by that row's probe |
| Process.OrEmpty | src/process.rs:118-128 | a missing site name or note is written as the empty text |
| Process.AnswerRequest | src/process.rs:113-154 | the loops write the heading line, then one formatted line per item in list order; scalar outcomes are exactly `Ack`, `IdentityError` and `DbError` |
| Process.InfoLineColumns | src/process.rs:132-135 | an `Info` line is id, account, URL, site name and note joined by tabs and ended by a newline |
| Process.LinkLineColumns | src/process.rs:142 | a `DeadLink` line is the id and the verdict joined by a tab and ended by a newline |
| Process.InfoRowsAreLines | src/process.rs:117-136 | the pushed `Info` lines are one newline-terminated line per row, in list order |
| Process.LinkRowsAreLines | src/process.rs:141-143 | the pushed `DeadLink` lines are one newline-terminated line per entry, in order |
| Process.InfoResponseLines | src/process.rs:115-137 | when no written column of any row holds a tab or a newline, an `Info` response is the heading, then one line per row, then nothing; each line splits into exactly the row's id (`-1` when missing), account, URL, site name and note (empty when missing) |
| Process.InfoIdReadable | src/process.rs:130 | the id column parses back to the row's id, or to `-1` for a row without one |
| Process.InfoHidesPassword | src/process.rs:132-135 | lists that differ only in passwords are written identically, so the password is never sent |
| Process.MissingIdLooksLikeMinusOne | src/process.rs:130 | a row without an id is written like a row whose id is `-1` |
| Process.ParseBool | src/process.rs:142 | reading a written `bool` back succeeds exactly on `true` and `false`, and writing it again gives the same text |
| Process.LinkLineRoundTrip | src/process.rs:142 | a `DeadLink` line can be read back into its `(id, dead)` pair |
| Process.LinkLinesRoundTrip | src/process.rs:141-143 | the `DeadLink` lines, read back one by one, give exactly the report in order |
| Process.DeadLinkRoundTrip | src/process.rs:139-144 | a `DeadLink` response can be read back into exactly the report it was written from |
| Process.FirstLineIsHeading | src/process.rs:113-154 | every response starts with the word naming its kind |
| Process.InfoHeading | src/process.rs:116 | the first line of an `Info` response is `Info` |
| Process.DeadLinkHeading | src/process.rs:140 | the first line of a `DeadLink` response is `DeadLink` |
| Process.ResponseDeterminesKind | src/process.rs:113-154 | outcomes of different kinds are written differently, and equal `DeadLink` texts mean equal reports |
| Process.Process | src/process.rs:14-28 | a request that cannot be read or decoded ends the connection with nothing written and the table untouched; otherwise the written text and the new table are those of the decoded action |
| Process.DeadLinkReportExample | src/process/check_dead_link.rs:39-56 | with one probe answering 200 and one unreachable, the report is `[(1, false), (2, true)]`, written as `DeadLink\n1\tfalse\n2\ttrue\n` |

## Left out

- Socket I/O: `readable`/`writable`, `try_read`/`try_write` and the `WouldBlock` branch. The decoder's input is the outcome of one read (`SocketRead`), and the writer's output is the response text.
- The 4096-byte buffer and `String::from_utf8_lossy`: received text is a Dafny string. The NUL padding the buffer adds is covered by the NUL-trimming lemmas and by `Actions.DecodeEncoded`. Invalid UTF-8 is not modelled.
- A failed write in `answer_request` is not modelled: `Process.Process` reports the text it would write.
- `eprintln!` logging everywhere has no effect on the model.
- The tokio runtime, `task::spawn` concurrency and the accept loop of main.rs. These concern scheduling only; awaiting in spawn order is modelled.
- DeadLinkCheck.CheckDeadLink: the probes' completion order is not modelled. A task's panic at `unwrap` cannot happen (every probe error becomes "dead"), so it is not modelled either.
- reqwest's HTTP GET: each probe is the `probe` oracle's answer for its spawn position.
- PAM authentication and `whoami` (src/process/auth.rs is not part of this model): the `auth` oracle decides.
- src/encrypt.rs, src/bin/generate_key.rs and src/bin/add_test_data.rs: cryptography and setup tools outside the request path.
- Database.Db.GetWebsiteAccountPassword and Database.Db.GetWebsiteIdByAccount may fail with `NotFound` from the statement. This over-approximates Diesel: `.optional()` turns a statement's `NotFound` into `Ok(None)` (src/db.rs:107-108, 153-154). The same error still arises from `get_conn`, so no observable outcome is added.
- Diesel and r2d2 internals, SQL generation and src/db/schema.rs. SQLite's state is the `rows` sequence. `first` is taken as the first row in storage order.
- Database.Db.AddNewWebsiteAccount: the inserted row keeps `id = None`, because the store's own id assignment is not modelled.
- Database.Db.constructor: pool construction and its `expect` are not modelled; the handle is created over a given table.
- `WebsiteAccountWithDeadLink` (src/db/models.rs:16-24) is declared in the source but used nowhere on the request path.
- The schema's `site_name -> Text` column versus the model's `Option<String>` is not modelled.
