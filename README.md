# Door access scripts: a Dafny model

The repository keeps the credential lists on `esp-rfid` door controllers in step
with a desired list. This project models the deterministic core of its scripts.

- **setAccess.js and listUsers.js** log in to each door and download its user
  list page by page over a WebSocket (`getActualUsers`). They read the desired
  users from a CSV file (`getExpectedUsers`) and compare the two lists with
  `onlyInLeft` under `isSameUser`. The door's records the file does not ask for
  get a `remove` frame; the file's records the door lacks get a `userfile` frame.
- **update_door.py** keeps a `shelve` store of users keyed by uid. It turns a
  `upper:lower` uid into the door's integer form (`uid_to_int`) and renders the
  `adduser` MQTT commands (`mqtt_add`, `mqtt_delete`).
- **csv_logger.py** turns the integer a door reports back into the `upper:lower`
  text (`int_to_uid`).
- **waiver-based_door.py** reads waiver form responses. It selects those from the
  last 7 days that pass the screening questions and are less than 24 hours old.

## Files

| file | module | contents |
|---|---|---|
| `wrappers.dfy` | `Wrappers` | `Option` and `Result` |
| `pytext.dfy` | `PyText` | Python's `int()`, `format(i, '0Nd')`, `str.strip` and `str.split(':')` |
| `listops.dfy` | `ListOps` | `onlyInLeft`, `duplicates` and `findIndex` over any compare function |
| `records.dfy` | `Records` | the user record, `isSameUser`, the CSV-row mapping, the command frames |
| `session.dfy` | `Session` | a WebSocket, as the log of frames sent on it |
| `pager.dfy` | `Pager` | `getActualUsers` |
| `reconcile.dfy` | `Reconcile` | the diff of the door's list against the file |
| `sync.dfy` | `Sync` | the send loops of listUsers.js and one door's whole run |
| `update_door.dfy` | `UpdateDoor` | `AccType`, `uid_to_int`, `mqtt_add`/`mqtt_delete`, and the `add`, `remove` and `intake` commands |
| `csv_logger.dfy` | `CsvLogger` | `int_to_uid`, and its round trip with `uid_to_int` |
| `waiver.dfy` | `Waiver` | `Entry` and the selection loop of `main` |

Every function that the scripts compute by expression is a Dafny function.

- The state the scripts change in place is a class:
  - the socket's log of frames (`Session.Socket`);
  - the `shelve` store (`UpdateDoor.UserStore`).
- The loops that send frames, gather pages, store rows and collect waivers are
  methods with loop invariants. Each is proved equal to a specification function,
  and the properties are lemmas about those functions.
- The inputs from the network and the clock are parameters:
  - the frames a door sends;
  - the CSV rows;
  - the sheet rows;
  - the current time.

## Model

| member | source | states |
|---|---|---|
| Records.IsSameUser | setAccess.js:150-154 | holds exactly when uid, username, pincode, acctype and validuntil all agree, which is equality of records |
| Records.IsSameUserIsEquivalence | listUsers.js:122-126 | `isSameUser` is reflexive, symmetric and transitive |
| ListOps.AnyMatch | setAccess.js:160-161 | `right.some(r => eq(x, r))` holds exactly when some element of `right` matches `x` |
| ListOps.OnlyInLeft | setAccess.js:158-161 | the result is never longer than `left`; `x` is in it exactly when `x` is in `left` and nothing in `right` matches it; a kept element keeps its number of copies |
| ListOps.OnlyInLeftIsSubseq | listUsers.js:130-133 | the result is a subsequence of `left`, in `left`'s order |
| ListOps.OnlyInLeftOfEmptyRight | setAccess.js:158-161 | `onlyInLeft(l, [])` is `l` |
| ListOps.OnlyInLeftOfEmptyLeft | setAccess.js:158-161 | `onlyInLeft([], r)` is `[]` |
| ListOps.FindIndex | setAccess.js:164 | `findIndex` gives the first matching index, or -1 when nothing matches |
| ListOps.Duplicates | setAccess.js:162-164 | the result is never longer than `arr`; `x` is in it exactly when `x` stands at an index that is not the first index matching it; `x` is reported once per index holding it, less one when the index `findIndex` gives for `x` holds `x` itself |
| ListOps.DuplicatesIsSubseq | setAccess.js:162-164 | the duplicates are a subsequence of `arr` |
| ListOps.DuplicatesByIndex | setAccess.js:162-164 | the result lists, in increasing index order, the elements at exactly the indices whose `findIndex` is not the index itself |
| ListOps.DuplicatesAreLaterMatches | setAccess.js:162-164 | for a compare function reflexive on `arr`, `x` is reported exactly when it stands at some index with a match at an earlier index |
| ListOps.FirstOccurrenceNotDuplicate | listUsers.js:134-136 | an index with no match before it is never reported |
| ListOps.NoDuplicatesWhenDistinct | setAccess.js:162-164 | for a reflexive compare function and no element matching an earlier one, the result is empty |
| Reconcile.DuplicateRecords | setAccess.js:194 | `duplicates(users, isSameUser)` reports exactly the records that occur again after an earlier copy |
| Reconcile.AnyMatchIsMembership | setAccess.js:160-161 | under `isSameUser`, `some` is membership |
| Reconcile.BadUsers | setAccess.js:191 | at most as many as the door holds; a record is bad exactly when the door holds it and the file does not ask for it |
| Reconcile.MissingUsers | setAccess.js:192 | at most as many as the file asks for; a record is missing exactly when the file asks for it and the door does not hold it |
| Reconcile.NothingToDoIffInSync | setAccess.js:191-192 | nothing is bad and nothing is missing exactly when the door holds the same set of records as the file asks for |
| Reconcile.DiffConverges | setAccess.js:191-192 | the records the door keeps together with the missing ones are exactly the records the file asks for |
| Reconcile.DiffDisjoint | setAccess.js:191-192 | no record is both bad and missing |
| Reconcile.SingleNewUser | listUsers.js:162-163 | an empty door and a file with one user: that user is missing and nothing is bad |
| Records.ExpectedUsers | setAccess.js:31-43 | one desired record per CSV row |
| Records.AccessCsvMapping | setAccess.js:34-41 | row `i` gives uid = `key serial`, username = `CID: name`, pincode = `PIN`, acctype 1, validuntil 4200000000 |
| Records.ListCsvMapping | listUsers.js:14-21 | row `i` gives uid = `Serial`, username = `cid: Name`, pincode = `PIN`, acctype 1, validuntil 4200000000 |
| Records.RemoveFrame | setAccess.js:121-124 | a `remove` frame carrying the user's uid |
| Records.UserfileFrame | setAccess.js:134-144 | a `userfile` frame with acctype 1 and null acctype2 to acctype4 |
| Records.UserfileDescribesUser | setAccess.js:134-144 | the frame copies uid, pincode, username and validuntil and fixes acctype at 1; it describes the same user exactly when the user's acctype was 1 |
| Records.RemoveFrames | setAccess.js:117-128 | one `remove` frame per user, in list order, each with that user's uid |
| Records.UserfileFrames | setAccess.js:130-148 | one `userfile` frame per user, in list order, each that user's frame |
| Records.UserfileFramesDescribeExpected | listUsers.js:106-120 | every desired user's `userfile` frame describes exactly that user |
| Session.Socket.Send | listUsers.js:100-103 | a sent frame joins the end of the socket's log |
| Pager.FirstFinal | listUsers.js:65-69 | the index of the first `userlist` frame with `page >= haspages`, and no earlier frame is such a frame; None when there is none |
| Pager.GetActualUsers | listUsers.js:56-75 | sends page 1 first, then one request for page `p+1` per `userlist` frame of page `p < haspages`, in arrival order; resolves with `Resolution` of the frames |
| Pager.ResolutionAtFirstFinal | setAccess.js:71-91 | the promise resolves exactly when some frame reports the last page, with the lists of all `userlist` frames up to the first such frame, concatenated in arrival order |
| Pager.OtherFrameIgnored | setAccess.js:77 | a frame that is not a `userlist` frame changes neither the result, nor the users gathered, nor the requests sent, wherever it arrives |
| Pager.CompleteListing | setAccess.js:80-89 | against a door that answers each request with the page asked for, pages 1 to n are requested once each and in order, and the result is all pages' users in page order |
| Pager.ThreePageListing | listUsers.js:62-69 | pages of 2, 2 and 1 users give the 5 users in order after 3 requests |
| Sync.DeleteUsers | listUsers.js:98-105 | one `remove` frame per bad user is appended to the socket's log, in list order |
| Sync.AddUsers | listUsers.js:106-120 | one `userfile` frame per missing user is appended to the socket's log, in list order |
| Sync.SendMutations | listUsers.js:173-174 | the removals are sent and then the additions |
| Sync.RemovalsPrecedeAdditions | listUsers.js:173-174 | one frame per bad and per missing user, and every `remove` frame comes before every `userfile` frame |
| Sync.NoMutationsIffInSync | listUsers.js:162-174 | nothing is removed or added exactly when the door already holds the set of records the file asks for |
| Sync.ApplyDiff | listUsers.js:162-174 | the frames of the diff of the downloaded list against the file's rows are appended to the socket's log |
| Sync.SyncDoor | listUsers.js:157-176 | the socket carries the page-1 request, the page requests the handled frames trigger, and then, if the list resolved, the removals followed by the additions of its diff |
| PyText.Digits | csv_logger.py:33 | the decimal digits of a natural number, which read back as that number, with no leading zero unless the number is 0 |
| PyText.FormatInt | csv_logger.py:33 | `format(i, '0Nd')` is as long as `str(i)` or N, whichever is longer; all digits for `i >= 0`, a '-' and then digits for `i < 0`; exactly N characters when `0 <= i < 10^N` |
| PyText.FormatIntRoundTrip | update_door.py:37 | `int(format(i, '0Nd'))` gives `i` back, for every integer `i` |
| PyText.Strip | waiver-based_door.py:21-22 | `strip()` leaves no white space at either end, and leaves nothing exactly when the text is all white space |
| PyText.StripIsInfix | waiver-based_door.py:21-22 | what `strip()` returns is a slice of the text with only white space before and after it |
| PyText.StripUnpadded | waiver-based_door.py:21-22 | a text with no white space at either end is unchanged by `strip()` |
| PyText.Split | update_door.py:30 | `split(':')` gives at least one part, no part holds a colon, and joining the parts with colons gives the text back |
| PyText.SplitAround | update_door.py:30 | text with exactly one colon splits into the two pieces around it |
| PyText.ParseInt | update_door.py:30 | `int(text)` refuses blank text; accepted text ends in a digit once stripped; a negative result needs a leading '-'; stripped text of plain digits reads as its decimal value |
| PyText.ParseDigits | update_door.py:85 | `int()` reads a run of ASCII digits as its decimal value |
| UpdateDoor.FromValue | update_door.py:8-13 | `AccType(v)` succeeds exactly for 0, 1, 2, 99 and 127, with the member of that value |
| UpdateDoor.FromName | update_door.py:25 | `AccType[name]` gives a member of that name |
| UpdateDoor.AccTypeRoundTrips | update_door.py:8-13 | each member is found again from its value and from its name; values lie in [0, 127] |
| UpdateDoor.AccTypeInjective | update_door.py:8-13 | distinct members have distinct values and distinct names |
| UpdateDoor.UidToInt | update_door.py:28-31 | succeeds exactly when the uid splits on `:` into two parts that are both integers, with value `L * 65536 + R`; a part-count error names a count other than 2 |
| UpdateDoor.UidOfHalves | update_door.py:28-31 | `L:R` with integer halves converts to `L * 65536 + R` |
| UpdateDoor.UidWithoutColon | update_door.py:30 | a uid with no colon is rejected |
| UpdateDoor.PackRange | update_door.py:31 | halves in [0, 65536) give a value in [0, 2^32) whose upper and lower 16 bits are those halves |
| UpdateDoor.PackInjective | update_door.py:31 | distinct pairs of halves in [0, 65536) give distinct values |
| UpdateDoor.MqttAdd | update_door.py:36-37 | fails exactly when `uid_to_int` does; carries the username, the uid as an integer, the acctype's value, validuntil, and the PIN as `format(pin, '04d')`: zero-padded to at least four characters, exactly four digits for a PIN in [0, 9999] |
| UpdateDoor.MqttDelete | update_door.py:39-40 | fails exactly when `uid_to_int` does; keeps the username and integer uid and sets acctype 0 and validuntil 0 |
| UpdateDoor.DeleteIsDisabledAdd | update_door.py:39-40 | `mqtt_delete` is `mqtt_add` of the same user with acctype DISABLED and validuntil 0 |
| UpdateDoor.PinRoundTrip | update_door.py:37 | the rendered PIN reads back as the PIN, and both commands render it alike |
| UpdateDoor.Render | update_door.py:37 | the command text with the door's address substituted starts with the `adduser` command naming that door and the user, and ends with the quoted PIN |
| UpdateDoor.RenderReadsBack | update_door.py:37 | in the rendered text, the uid up to its closing quote, and the acctype and `validuntil` each up to the comma after it, read back through `int()` as the command's integers |
| UpdateDoor.IntakeUser | update_door.py:82-86 | a stored row's user has the row's `Serial` as uid |
| UpdateDoor.IntakeUserFields | update_door.py:82-86 | a row is accepted exactly when it has the four columns, PIN and acctype are integers and the acctype is a member; the user then has the row's Name, Serial, PIN and acctype |
| UpdateDoor.StoredLeavesOthers | update_door.py:81-87 | a uid that no stored row carries keeps its entry, or its absence |
| UpdateDoor.StoredCompletes | update_door.py:81-87 | with no failing row the run completes |
| UpdateDoor.StoredLastWriteWins | update_door.py:81-87 | a row's user is stored under its uid unless a later row carries the same uid |
| UpdateDoor.StoredStopsAtFirstError | update_door.py:81-87 | the first failing row stops the run, with the rows before it stored |
| UpdateDoor.IntakeLeavesOthers | update_door.py:80-87 | `intake` leaves the entry of a uid that no row's `Serial` names as it was, even when a row fails |
| UpdateDoor.IntakeLastWriteWins | update_door.py:80-87 | `intake` over well-formed rows completes, and the last row naming a uid decides its entry |
| UpdateDoor.IntakeStopsAtFirstError | update_door.py:80-87 | `intake` stops at the first malformed row, with that row's error and every earlier row stored |
| UpdateDoor.UserStore.Add | update_door.py:55-61 | the new user replaces the entry under its uid and nothing else changes; the command text is produced exactly when `uid_to_int` succeeds |
| UpdateDoor.UserStore.Remove | update_door.py:65-71 | an unknown uid raises KeyError; otherwise the text is the stored user's `mqtt_delete`, and the store is unchanged |
| UpdateDoor.UserStore.Intake | update_door.py:75-88 | the store and the error afterwards are those of storing the rows in order until the first failing one |
| CsvLogger.Upper | csv_logger.py:31 | `(x & 0xFFFF0000) >> 16` lies in [0, 65535] |
| CsvLogger.Lower | csv_logger.py:32 | `x & 0xFFFF` lies in [0, 65535] |
| CsvLogger.HalvesOfLow32 | csv_logger.py:31-32 | `upper * 65536 + lower` is the low 32 bits of `x`, so `x` itself for `0 <= x < 2^32` |
| CsvLogger.HighBitsDiscarded | csv_logger.py:31-32 | adding a multiple of 2^32 changes neither half |
| CsvLogger.IntToUid | csv_logger.py:30-33 | eleven characters: five digits reading as bits 16-31 of `x`, a colon, five digits reading as bits 0-15 |
| CsvLogger.UidRoundTrip | csv_logger.py:30-33 | `uid_to_int(int_to_uid(x))` is the low 32 bits of `x`, so `x` for every `x` in [0, 2^32) |
| CsvLogger.IntToUidInjective | csv_logger.py:30-33 | distinct integers in [0, 2^32) give distinct uid texts |
| Waiver.AnswersMeaning | waiver-based_door.py:24-30 | the check holds exactly when answers 4 to 9 are `No` and answer 11 is `I agree.`; it raises IndexError exactly when the row is shorter than 12 cells and every answer present up to 9 is `No` |
| Waiver.Expiry | waiver-based_door.py:32-36 | 24 hours after the timestamp when the check holds, the epoch otherwise |
| Waiver.EntryFields | waiver-based_door.py:18-36 | an entry has the row's timestamp, the stripped cells 2 and 1 as name and e-mail, a check that holds exactly when the row passes, and the expiry rule's expiry; a passing row always gives an entry |
| Waiver.NewEntry | waiver-based_door.py:18-36 | the check loop gives the entry, or the IndexError, that `EntryOf` describes |
| Waiver.StepMeaning | waiver-based_door.py:86-99 | for any time after the epoch, a row is kept exactly when it passes, lies within the last 7 days and is less than 24 hours old; what is kept is the row's entry |
| Waiver.KeptExactly | waiver-based_door.py:86-99 | a row is kept exactly when it is in the sheet and its step keeps an entry |
| Waiver.SelectedKeepsOrder | waiver-based_door.py:86-99 | the kept rows are a subsequence of the sheet, and the entries are theirs, one per row, in sheet order |
| Waiver.SelectedAreCurrent | waiver-based_door.py:94-99 | for any time after the epoch, every selected entry passed the check, lies within the last 7 days and has not expired |
| Waiver.SelectedFailsOnBadRow | waiver-based_door.py:86-93 | the loop raises exactly when some row raises |
| Waiver.SelectWaivers | waiver-based_door.py:86-99 | the loop's entries, or its first error, are those `Selected` describes |

listUsers.js repeats the helpers of setAccess.js (listUsers.js:11-23, 56-75,
122-136). The same members model both copies. The two copies differ only in:

- the CSV header names (`Records.AccessColumns`, `Records.ListColumns`);
- the 3-second wait before each page request in setAccess.js, which does not
  change which frames are sent.

## Left out

- HTTP login, WebSocket connection, the keypress gate, `config.json`, the
  per-door `forEach` and `process.exit`. These are I/O and process control. The
  frames a door sends and the CSV rows are parameters.
- Timers in setAccess.js (`delay`, the `i*1500` staggering, the 3000 ms page
  delay). In that file, `await deleteUsers(...)` awaits an array, not
  `Promise.all`. As a result, the order between removals and additions, and which
  removals are sent before `process.exit`, depend on the timers. Only the frame
  lists are modelled for setAccess.js.
- Replies to the mutation frames. No `remove`/`userfile` frame waits for a
  `result` reply, and the `duplicates` call is commented out (setAccess.js:194,
  listUsers.js:165). `Sync` sends without waiting, and `ListOps.Duplicates` is
  modelled as the unused helper it is.
- Sync.SyncDoor: `ws.send` followed at once by `process.exit` may leave frames
  unflushed. The model counts a frame as sent once `send` is called.
- JavaScript's loose `==` and dynamic types. Record fields are typed: uid,
  username and pincode are strings; acctype and validuntil are integers.
  `isSameUser` is therefore plain equality.
- Records.ExpectedUser: a missing CSV column renders as the text `undefined`
  inside a template literal. For `uid`, the source would hold the JavaScript
  value `undefined`, and `JSON.stringify` would then omit the field. The model
  uses the text `undefined` there too.
- The JSON text of the frames. Frames are a datatype, and `null` is `None`.
- UpdateDoor.UidToInt: the source computes `left * math.pow(2, 16) + right` in
  a double. The model uses exact integers. They can differ whenever the double
  arithmetic rounds: once `|L * 65536|`, `|R|` or `|L * 65536 + R|` exceeds 2^53,
  even when the exact sum is small, and Python raises
  OverflowError for halves too large for a double.
- PyText.ParseInt: only ASCII digits are modelled. Python's `int()` also accepts
  other Unicode decimal digits.
- `datetime` and `timestamp()`: `validuntil` is held as a whole-second POSIX
  timestamp. `DefaultValidUntil` is the value of `datetime(2038, 1, 18, 22, 14, 7)`
  on a host set to US Eastern time; other zones give other values.
- The click prompts, option parsing and `click.Choice`. `add` takes its acctype
  as a member, since the choice admits member names only. `shelve` is an
  in-memory map, and `__str__` and `click.echo` are not modelled.
- UpdateDoor.UserStore.Add: the source substitutes the door address with
  Python's `%` operator into text that already holds the username. A `%` in the
  username is then read as a conversion and can make that fail or change the
  text (`%%` becomes `%`). The model inserts the address directly.
- UpdateDoor.IntakeUser: `DictReader` gives `None` for the cells of a short row,
  which `int()` rejects with TypeError. Rows are modelled as complete maps, and a
  missing column is a KeyError.
- waiver-based_door.py: Google OAuth and Sheets calls, `arrow` parsing of the
  first cell (a row's timestamp is given as `stamp`), time zones, `humanize`, and
  printing. The window and the expiry are exact multiples of 86400 and 3600
  seconds. Daylight-saving shifts are ignored.
- sql_logger.py (MQTT callbacks and sqlite inserts), the MQTT and file parts of
  csv_logger.py, and setup.py (packaging metadata).
