/**
 * update_door.py: the access types, the `User` record with its uid arithmetic and
 * its two MQTT commands, and the `add`, `remove` and `intake` commands over the
 * `shelve` store of users keyed by uid.
 */
module UpdateDoor {
  import opened Wrappers
  import opened PyText

  /** `AccType`, an `IntEnum`. */
  datatype AccType = Disabled | Always | Expired | Admin | Denied

  /** The member's integer value. */
  function Value(t: AccType): int {
    match t
    case Disabled => 0
    case Always => 1
    case Expired => 2
    case Admin => 99
    case Denied => 127
  }

  /** `AccType(v)`: the member with value `v`; None stands for the ValueError. */
  function FromValue(v: int): (r: Option<AccType>)
    ensures r.Some? <==> v == 0 || v == 1 || v == 2 || v == 99 || v == 127
    ensures r.Some? ==> Value(r.value) == v
  {
    if v == 0 then Some(Disabled)
    else if v == 1 then Some(Always)
    else if v == 2 then Some(Expired)
    else if v == 99 then Some(Admin)
    else if v == 127 then Some(Denied)
    else None
  }

  /** The member's `name`. */
  function Name(t: AccType): string {
    match t
    case Disabled => "DISABLED"
    case Always => "ALWAYS"
    case Expired => "EXPIRED"
    case Admin => "ADMIN"
    case Denied => "DENIED"
  }

  /** `AccType[name]`: the member called `name`; None stands for the KeyError. */
  function FromName(name: string): (r: Option<AccType>)
    ensures r.Some? ==> Name(r.value) == name
  {
    if name == "DISABLED" then Some(Disabled)
    else if name == "ALWAYS" then Some(Always)
    else if name == "EXPIRED" then Some(Expired)
    else if name == "ADMIN" then Some(Admin)
    else if name == "DENIED" then Some(Denied)
    else None
  }

  /** Values and names are fixed and tell the members apart in both directions. */
  lemma AccTypeRoundTrips(t: AccType)
    ensures FromValue(Value(t)) == Some(t)
    ensures FromName(Name(t)) == Some(t)
    ensures 0 <= Value(t) <= 127
  {
  }

  /** Distinct members have distinct values and distinct names. */
  lemma AccTypeInjective(s: AccType, t: AccType)
    ensures Value(s) == Value(t) <==> s == t
    ensures Name(s) == Name(t) <==> s == t
  {
    AccTypeRoundTrips(s);
    AccTypeRoundTrips(t);
  }

  /**
   * A `User`: `validuntil` is held as the instant's POSIX timestamp in whole
   * seconds, the value `validuntil.timestamp()` has.
   */
  datatype DoorUser = DoorUser(username: string, uid: string, pin: int, acctype: AccType, validuntil: int)

  /**
   * The timestamp of the default `validuntil`, `datetime(2038, 1, 18, 22, 14, 7)` read
   * as local time on a host set to US Eastern time: 2038-01-19 03:14:07 UTC.
   */
  const DefaultValidUntil: int := 2147483647

  /** Why `uid_to_int` raises ValueError. */
  datatype UidError =
    | NotAnInteger(part: string)  // `int(part)` fails
    | WrongPartCount(count: nat)  // the unpacking into `left,right` fails

  /** The integer of a uid whose halves are `left` and `right`. */
  function Pack(left: int, right: int): int {
    left * 65536 + right
  }

  /** Halves in [0, 65536) give an integer in [0, 2^32) with those halves as its upper and lower 16 bits. */
  lemma PackRange(left: int, right: int)
    requires 0 <= left < 65536 && 0 <= right < 65536
    ensures 0 <= Pack(left, right) < 0x1_0000_0000
    ensures Pack(left, right) / 65536 == left && Pack(left, right) % 65536 == right
  {
  }

  /** Distinct pairs of halves in [0, 65536) give distinct integers. */
  lemma PackInjective(l1: int, r1: int, l2: int, r2: int)
    requires 0 <= l1 < 65536 && 0 <= r1 < 65536
    requires 0 <= l2 < 65536 && 0 <= r2 < 65536
    ensures Pack(l1, r1) == Pack(l2, r2) <==> l1 == l2 && r1 == r2
  {
    PackRange(l1, r1);
    PackRange(l2, r2);
  }

  /**
   * `uid_to_int`: `left,right = map(int, uid.split(':'))`, then `left * 2**16 + right`.
   * The lazy `map` and the unpacking fix which error comes first: the first part
   * is converted, then a missing second part is reported, then the second part is
   * converted, and with more than two parts the third is converted before the
   * surplus is reported.
   */
  function UidToInt(uid: string): (r: Result<int, UidError>)
    ensures r.Ok? <==>
      var parts := Split(uid, ':');
      |parts| == 2 && ParseInt(parts[0]).Some? && ParseInt(parts[1]).Some?
    ensures r.Ok? ==>
      var parts := Split(uid, ':');
      r.value == ParseInt(parts[0]).value * 65536 + ParseInt(parts[1]).value
    ensures r.Err? && r.error.WrongPartCount? ==> r.error.count == |Split(uid, ':')| != 2
  {
    var parts := Split(uid, ':');
    match ParseInt(parts[0])
    case None => Err(NotAnInteger(parts[0]))
    case Some(left) =>
      if |parts| < 2 then Err(WrongPartCount(|parts|))
      else
        match ParseInt(parts[1])
        case None => Err(NotAnInteger(parts[1]))
        case Some(right) =>
          if |parts| > 2 then
            if ParseInt(parts[2]).None? then Err(NotAnInteger(parts[2]))
            else Err(WrongPartCount(|parts|))
          else Ok(Pack(left, right))
  }

  /** A uid `L:R` with two integer halves converts to `L * 65536 + R`. */
  lemma UidOfHalves(a: string, b: string)
    requires ':' !in a && ':' !in b
    requires ParseInt(a).Some? && ParseInt(b).Some?
    ensures UidToInt(a + ":" + b) == Ok(Pack(ParseInt(a).value, ParseInt(b).value))
  {
    SplitAround(a, b, ':');
    assert a + [':'] + b == a + ":" + b;
  }

  /** A uid without a colon is rejected, whatever its text. */
  lemma UidWithoutColon(uid: string)
    requires ':' !in uid
    ensures UidToInt(uid).Err?
  {
    SplitNoSeparator(uid, ':');
  }

  /**
   * The fields of an `adduser` command; `doorip` stays the `%s` placeholder until
   * the door's address is substituted.
   */
  datatype AddUserCommand = AddUserCommand(user: string, uid: int, acctype: int, validuntil: int, pin: string)

  /** `mqtt_add`: the user's own fields, the uid as its integer, the PIN as `{pin:04d}`. */
  function MqttAdd(u: DoorUser): (r: Result<AddUserCommand, UidError>)
    ensures r.Ok? <==> UidToInt(u.uid).Ok?
    ensures r.Ok? ==> r.value.user == u.username && r.value.uid == UidToInt(u.uid).value
    ensures r.Ok? ==> r.value.acctype == Value(u.acctype) && r.value.validuntil == u.validuntil
    ensures r.Ok? ==> |r.value.pin| >= 4 && (0 <= u.pin < 10000 ==> |r.value.pin| == 4 && AllDigits(r.value.pin))
    ensures r.Ok? ==> r.value.pin == FormatInt(u.pin, 4)
  {
    match UidToInt(u.uid)
    case Err(e) => Err(e)
    case Ok(uid) =>
      assert Pow10(4) == 10000;
      Ok(AddUserCommand(u.username, uid, Value(u.acctype), u.validuntil, FormatInt(u.pin, 4)))
  }

  /** `mqtt_delete`: an `adduser` command with access type DISABLED and `validuntil` 0. */
  function MqttDelete(u: DoorUser): (r: Result<AddUserCommand, UidError>)
    ensures r.Ok? <==> UidToInt(u.uid).Ok?
    ensures r.Ok? ==> r.value.acctype == 0 && r.value.validuntil == 0
    ensures r.Ok? ==> r.value.user == u.username && r.value.uid == UidToInt(u.uid).value
  {
    match UidToInt(u.uid)
    case Err(e) => Err(e)
    case Ok(uid) => Ok(AddUserCommand(u.username, uid, Value(Disabled), 0, FormatInt(u.pin, 4)))
  }

  /** Deleting a user sends what adding the same user, disabled and expired at 0, would send. */
  lemma DeleteIsDisabledAdd(u: DoorUser)
    ensures MqttDelete(u) == MqttAdd(u.(acctype := Disabled, validuntil := 0))
  {
  }

  /** The rendered PIN reads back as the PIN, in both commands. */
  lemma PinRoundTrip(u: DoorUser)
    requires UidToInt(u.uid).Ok?
    ensures ParseInt(MqttAdd(u).value.pin) == Some(u.pin)
    ensures MqttDelete(u).value.pin == MqttAdd(u).value.pin
  {
    FormatIntRoundTrip(u.pin, 4);
  }

  /** The address the commands are rendered for. */
  const DoorIp: string := "10.11.12.126"

  /** The start of an `adduser` command's text, up to the opening quote of the uid. */
  function CommandHead(doorip: string, user: string): string {
    "{cmd:'adduser', doorip:'" + doorip + "', user:'" + user + "', uid:'"
  }

  /**
   * The text of an `adduser` command with `%s` replaced by `doorip`: it names the
   * door and the user first and ends with the quoted PIN; `RenderReadsBack` shows
   * that its three integer fields read back.
   */
  function Render(c: AddUserCommand, doorip: string): (r: string)
    ensures |CommandHead(doorip, c.user)| < |r| && r[..|CommandHead(doorip, c.user)|] == CommandHead(doorip, c.user)
    ensures |c.pin| + 2 <= |r| && r[|r| - |c.pin| - 2..] == c.pin + "'}"
  {
    CommandHead(doorip, c.user) + (FormatInt(c.uid, 0) + (['\''] + AccTypeField(c)))
  }

  /** The text after the uid's closing quote, from the acctype field on. */
  function AccTypeField(c: AddUserCommand): string {
    ", 'acctype':" + (FormatInt(c.acctype, 0) + ([','] + ValidUntilField(c)))
  }

  /** The closing field, the PIN in quotes. */
  function PinField(pin: string): string {
    " 'pin':'" + pin + "'}"
  }

  /** The text after the acctype's comma, from the `validuntil` field on. */
  function ValidUntilField(c: AddUserCommand): string {
    " 'validuntil':" + (FormatInt(c.validuntil, 0) + ([','] + PinField(c.pin)))
  }

  /** The text before the first `stop`, all of `s` when there is none: what a reader of one field takes. */
  function UpTo(s: string, stop: char): (f: string)
    ensures |f| <= |s| && f == s[..|f|] && stop !in f
    ensures |f| < |s| ==> s[|f|] == stop
  {
    if s == [] || s[0] == stop then []
    else
      var rest := UpTo(s[1..], stop);
      assert [s[0]] + rest == s[..|rest| + 1];
      [s[0]] + rest
  }

  lemma {:induction false} UpToAt(s: string, k: nat, stop: char)
    requires k < |s| && s[k] == stop && stop !in s[..k]
    ensures UpTo(s, stop) == s[..k]
  {
    if k > 0 {
      assert s[0] == s[..k][0];
      assert s[1..][..k - 1] == s[..k][1..];
      UpToAt(s[1..], k - 1, stop);
    }
  }

  /** A field written as `format(i, 'd')` and closed by a character no number holds reads back as `i`. */
  lemma FieldReadsBack(i: int, stop: char, post: string)
    requires !IsDigit(stop) && stop != '-'
    ensures ParseInt(UpTo(FormatInt(i, 0) + ([stop] + post), stop)) == Some(i)
  {
    var u := FormatInt(i, 0);
    var s := u + ([stop] + post);
    assert s[..|u|] == u;
    UpToAt(s, |u|, stop);
    FormatIntRoundTrip(i, 0);
  }

  /** Where the uid's text starts in the rendered command: right after `uid:'`. */
  function UidAt(c: AddUserCommand, doorip: string): (k: nat)
    ensures k <= |Render(c, doorip)|
    ensures Render(c, doorip)[k..] == FormatInt(c.uid, 0) + (['\''] + AccTypeField(c))
  {
    |CommandHead(doorip, c.user)|
  }

  /** Where the acctype's text starts: right after `'acctype':`. */
  function AccTypeAt(c: AddUserCommand, doorip: string): (k: nat)
    ensures k <= |Render(c, doorip)|
    ensures Render(c, doorip)[k..] == FormatInt(c.acctype, 0) + ([','] + ValidUntilField(c))
  {
    var k1 := UidAt(c, doorip);
    var u := FormatInt(c.uid, 0);
    var k := k1 + |u| + 13;
    var after := Render(c, doorip)[k1..][|u| + 1..];
    assert after == AccTypeField(c);
    assert AccTypeField(c)[12..] == FormatInt(c.acctype, 0) + ([','] + ValidUntilField(c));
    assert Render(c, doorip)[k..] == after[12..];
    k
  }

  /** Where the `validuntil` text starts: right after `'validuntil':`. */
  function ValidUntilAt(c: AddUserCommand, doorip: string): (k: nat)
    ensures k <= |Render(c, doorip)|
    ensures Render(c, doorip)[k..] == FormatInt(c.validuntil, 0) + ([','] + PinField(c.pin))
  {
    var k2 := AccTypeAt(c, doorip);
    var a := FormatInt(c.acctype, 0);
    var k := k2 + |a| + 15;
    var after := Render(c, doorip)[k2..][|a| + 1..];
    assert after == ValidUntilField(c);
    assert ValidUntilField(c)[14..] == FormatInt(c.validuntil, 0) + ([','] + PinField(c.pin));
    assert Render(c, doorip)[k..] == after[14..];
    k
  }

  /**
   * Reading the rendered text back: the uid up to its closing quote, the acctype
   * and `validuntil` each up to the comma after it, are the command's integers.
   */
  lemma RenderReadsBack(c: AddUserCommand, doorip: string)
    ensures ParseInt(UpTo(Render(c, doorip)[UidAt(c, doorip)..], '\'')) == Some(c.uid)
    ensures ParseInt(UpTo(Render(c, doorip)[AccTypeAt(c, doorip)..], ',')) == Some(c.acctype)
    ensures ParseInt(UpTo(Render(c, doorip)[ValidUntilAt(c, doorip)..], ',')) == Some(c.validuntil)
  {
    FieldReadsBack(c.uid, '\'', AccTypeField(c));
    FieldReadsBack(c.acctype, ',', ValidUntilField(c));
    FieldReadsBack(c.validuntil, ',', PinField(c.pin));
  }

  /** The errors of the three commands. */
  datatype CommandError =
    | BadUid(reason: UidError)        // ValueError from `uid_to_int`
    | UnknownUid(key: string)         // KeyError from `users[uid]`
    | MissingColumn(column: string)   // KeyError from `row[column]`
    | NotANumber(text: string)        // ValueError from `int(text)`
    | UnknownAccType(value: int)      // ValueError from `AccType(value)`

  /** A CSV row as Python's `csv.DictReader` yields it: column name to cell. */
  type DictRow = map<string, string>

  /** The user one `intake` row describes, or the error that row raises, in evaluation order. */
  function IntakeUser(row: DictRow): (r: Result<DoorUser, CommandError>)
    ensures r.Ok? ==> "Serial" in row && r.value.uid == row["Serial"]
  {
    if "Name" !in row then Err(MissingColumn("Name"))
    else if "Serial" !in row then Err(MissingColumn("Serial"))
    else if "PIN" !in row then Err(MissingColumn("PIN"))
    else
      match ParseInt(row["PIN"])
      case None => Err(NotANumber(row["PIN"]))
      case Some(pin) =>
        if "acctype" !in row then Err(MissingColumn("acctype"))
        else
          match ParseInt(row["acctype"])
          case None => Err(NotANumber(row["acctype"]))
          case Some(v) =>
            match FromValue(v)
            case None => Err(UnknownAccType(v))
            case Some(t) =>
              // `User` looks `AccType(v).name` up again with `AccType[...]`; that round trip gives `t` back.
              AccTypeRoundTrips(t);
              Ok(DoorUser(row["Name"], row["Serial"], pin, t, DefaultValidUntil))
  }

  /**
   * A row is stored exactly when it has the four columns, its PIN and access type
   * are integers and the access type is a member; the user then carries the row's
   * name, serial, PIN and access type and the default expiry.
   */
  lemma IntakeUserFields(row: DictRow)
    ensures IntakeUser(row).Ok? <==>
      && "Name" in row && "Serial" in row && "PIN" in row && "acctype" in row
      && ParseInt(row["PIN"]).Some? && ParseInt(row["acctype"]).Some?
      && FromValue(ParseInt(row["acctype"]).value).Some?
    ensures IntakeUser(row).Ok? ==>
      var u := IntakeUser(row).value;
      && u.username == row["Name"] && u.uid == row["Serial"]
      && Some(u.pin) == ParseInt(row["PIN"]) && Some(Value(u.acctype)) == ParseInt(row["acctype"])
      && u.validuntil == DefaultValidUntil
  {
  }

  /** What `intake` leaves behind: the store, and the error that stopped it, if any. */
  datatype IntakeOutcome = IntakeOutcome(users: map<string, DoorUser>, failure: Option<CommandError>)

  /** Each row's user, or the error it raises, in row order. */
  function Parsed(rows: seq<DictRow>): (ps: seq<Result<DoorUser, CommandError>>)
    ensures |ps| == |rows|
  {
    seq(|rows|, i requires 0 <= i < |rows| => IntakeUser(rows[i]))
  }

  /**
   * The parsed rows stored one after another; the first failing row stops the run,
   * and the rows before it stay stored because `shelve` writes through on close.
   */
  function Stored(users: map<string, DoorUser>, ps: seq<Result<DoorUser, CommandError>>): IntakeOutcome
    decreases ps
  {
    if ps == [] then IntakeOutcome(users, None)
    else
      match ps[0]
      case Err(e) => IntakeOutcome(users, Some(e))
      case Ok(u) => Stored(users[u.uid := u], ps[1..])
  }

  /** What `intake` makes of `rows` on a store holding `users`. */
  function Intaken(users: map<string, DoorUser>, rows: seq<DictRow>): IntakeOutcome {
    Stored(users, Parsed(rows))
  }

  /** A uid that no stored row carries keeps its entry, or its absence, whatever else happens. */
  lemma {:induction false} StoredLeavesOthers(users: map<string, DoorUser>, ps: seq<Result<DoorUser, CommandError>>, uid: string)
    requires forall j :: 0 <= j < |ps| && ps[j].Ok? ==> ps[j].value.uid != uid
    ensures var out := Stored(users, ps).users;
      (uid in out <==> uid in users) && (uid in users ==> out[uid] == users[uid])
    decreases ps
  {
    if ps != [] && ps[0].Ok? {
      var u := ps[0].value;
      assert u.uid != uid;
      StoredLeavesOthers(users[u.uid := u], ps[1..], uid);
    }
  }

  /** With no failing row the run does not fail. */
  lemma {:induction false} StoredCompletes(users: map<string, DoorUser>, ps: seq<Result<DoorUser, CommandError>>)
    requires forall k :: 0 <= k < |ps| ==> ps[k].Ok?
    ensures Stored(users, ps).failure == None
    decreases ps
  {
    if ps != [] {
      var u := ps[0].value;
      StoredCompletes(users[u.uid := u], ps[1..]);
    }
  }

  /**
   * With no failing row, the entry under a row's uid is that row's user as long as
   * no later row carries the same uid: the last write wins.
   */
  lemma {:induction false} StoredLastWriteWins(users: map<string, DoorUser>, ps: seq<Result<DoorUser, CommandError>>, j: nat)
    requires forall k :: 0 <= k < |ps| ==> ps[k].Ok?
    requires j < |ps|
    requires forall k :: j < k < |ps| ==> ps[k].value.uid != ps[j].value.uid
    ensures Stored(users, ps).failure == None
    ensures ps[j].value.uid in Stored(users, ps).users && Stored(users, ps).users[ps[j].value.uid] == ps[j].value
    decreases ps
  {
    StoredCompletes(users, ps);
    var u := ps[0].value;
    var rest := users[u.uid := u];
    if j == 0 {
      StoredLeavesOthers(rest, ps[1..], u.uid);
    } else {
      StoredLastWriteWins(rest, ps[1..], j - 1);
    }
  }

  /** The run stops at the first failing row, with every row before it stored. */
  lemma {:induction false} StoredStopsAtFirstError(users: map<string, DoorUser>, ps: seq<Result<DoorUser, CommandError>>, i: nat)
    requires i < |ps| && ps[i].Err?
    requires forall k :: 0 <= k < i ==> ps[k].Ok?
    ensures Stored(users, ps) == IntakeOutcome(Stored(users, ps[..i]).users, Some(ps[i].error))
    decreases ps
  {
    if i > 0 {
      var u := ps[0].value;
      assert ps[1..][..i - 1] == ps[..i][1..];
      StoredStopsAtFirstError(users[u.uid := u], ps[1..], i - 1);
    }
  }

  /** The row would be stored under `uid`. */
  predicate NamesUid(row: DictRow, uid: string) {
    "Serial" in row && row["Serial"] == uid
  }

  /** `intake` leaves the entry of a uid that no row's `Serial` names as it was, even when a row fails. */
  lemma IntakeLeavesOthers(users: map<string, DoorUser>, rows: seq<DictRow>, uid: string)
    requires forall k :: 0 <= k < |rows| ==> !NamesUid(rows[k], uid)
    ensures var out := Intaken(users, rows).users;
      (uid in out <==> uid in users) && (uid in users ==> out[uid] == users[uid])
  {
    var ps := Parsed(rows);
    forall k | 0 <= k < |ps| && ps[k].Ok?
      ensures ps[k].value.uid != uid
    {
      assert ps[k] == IntakeUser(rows[k]);
    }
    StoredLeavesOthers(users, ps, uid);
  }

  /**
   * `intake` over well-formed rows completes, and a row's user is stored under its
   * `Serial` unless a later row names the same one: the last write wins.
   */
  lemma IntakeLastWriteWins(users: map<string, DoorUser>, rows: seq<DictRow>, j: nat)
    requires forall k :: 0 <= k < |rows| ==> IntakeUser(rows[k]).Ok?
    requires j < |rows|
    requires forall k :: j < k < |rows| ==> !NamesUid(rows[k], IntakeUser(rows[j]).value.uid)
    ensures Intaken(users, rows).failure == None
    ensures "Serial" in rows[j] && rows[j]["Serial"] in Intaken(users, rows).users
    ensures Intaken(users, rows).users[rows[j]["Serial"]] == IntakeUser(rows[j]).value
  {
    var ps := Parsed(rows);
    forall k | 0 <= k < |ps|
      ensures ps[k].Ok? && NamesUid(rows[k], ps[k].value.uid)
    {
      assert ps[k] == IntakeUser(rows[k]);
    }
    StoredLastWriteWins(users, ps, j);
  }

  /** `intake` stops at the first malformed row, with every row before it stored. */
  lemma IntakeStopsAtFirstError(users: map<string, DoorUser>, rows: seq<DictRow>, i: nat)
    requires i < |rows| && IntakeUser(rows[i]).Err?
    requires forall k :: 0 <= k < i ==> IntakeUser(rows[k]).Ok?
    ensures Intaken(users, rows) == IntakeOutcome(Intaken(users, rows[..i]).users, Some(IntakeUser(rows[i]).error))
  {
    assert Parsed(rows)[..i] == Parsed(rows[..i]);
    StoredStopsAtFirstError(users, Parsed(rows), i);
  }

  /** The `shelve` file of users, keyed by uid. */
  class UserStore {
    var users: map<string, DoorUser>

    constructor(initial: map<string, DoorUser>)
      ensures users == initial
    {
      users := initial;
    }

    /**
     * `add`: the new user is stored under its uid, replacing any entry there, and
     * its `adduser` text is produced afterwards, so a uid `uid_to_int` rejects is
     * stored all the same before the error.
     */
    method Add(name: string, uid: string, pin: int, acctype: AccType, planend: int)
      returns (text: Result<string, CommandError>)
      modifies this
      ensures users == old(users)[uid := DoorUser(name, uid, pin, acctype, planend)]
      ensures text.Ok? <==> UidToInt(uid).Ok?
      ensures text.Ok? ==> text.value == Render(MqttAdd(DoorUser(name, uid, pin, acctype, planend)).value, DoorIp)
    {
      var u := DoorUser(name, uid, pin, acctype, planend);
      users := users[u.uid := u];
      match MqttAdd(u)
      case Err(e) =>
        text := Err(BadUid(e));
      case Ok(c) =>
        text := Ok(Render(c, DoorIp));
    }

    /** `remove`: the stored user's `mqtt_delete` text; the store is not changed. */
    method Remove(uid: string) returns (text: Result<string, CommandError>)
      ensures uid !in users ==> text == Err(UnknownUid(uid))
      ensures uid in users ==> (text.Ok? <==> UidToInt(users[uid].uid).Ok?)
      ensures text.Ok? ==> uid in users && text.value == Render(MqttDelete(users[uid]).value, DoorIp)
    {
      if uid !in users {
        return Err(UnknownUid(uid));
      }
      var u := users[uid];
      match MqttDelete(u)
      case Err(e) =>
        text := Err(BadUid(e));
      case Ok(c) =>
        text := Ok(Render(c, DoorIp));
    }

    /** `intake`: the CSV's rows stored one by one under their `Serial`. */
    method Intake(rows: seq<DictRow>) returns (failure: Option<CommandError>)
      modifies this
      ensures users == Intaken(old(users), rows).users
      ensures failure == Intaken(old(users), rows).failure
    {
      ghost var ps := Parsed(rows);
      for i := 0 to |rows|
        invariant Stored(users, ps[i..]) == Stored(old(users), ps)
      {
        assert ps[i..][0] == IntakeUser(rows[i]);
        assert ps[i..][1..] == ps[i + 1..];
        match IntakeUser(rows[i])
        case Err(e) =>
          return Some(e);
        case Ok(u) =>
          users := users[u.uid := u];
      }
      failure := None;
    }
  }
}
