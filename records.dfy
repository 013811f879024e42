/**
 * The credential record both reconciliation scripts work with, its equality, the
 * mapping from a CSV row to the record a door should hold, and the command frames
 * sent to a door over its WebSocket.
 */
module Records {
  import opened Wrappers

  /** A credential as a door lists it and as the scripts build it from the CSV file. */
  datatype User = User(uid: string, username: string, pincode: string, acctype: int, validuntil: int)

  /** The access type every desired user gets ("Always"). */
  const AlwaysAccess := 1

  /** The expiry every desired user gets: a Unix time in the year 2103. */
  const FarFuture := 4200000000

  /**
   * `isSameUser`: the five fields agree. As those are all the fields of a record,
   * this is record equality.
   */
  function IsSameUser(a: User, b: User): (r: bool)
    ensures r <==> a == b
  {
    && a.uid == b.uid
    && a.username == b.username
    && a.pincode == b.pincode
    && a.acctype == b.acctype
    && a.validuntil == b.validuntil
  }

  /** `isSameUser` is reflexive, symmetric and transitive. */
  lemma IsSameUserIsEquivalence()
    ensures forall a :: IsSameUser(a, a)
    ensures forall a, b :: IsSameUser(a, b) <==> IsSameUser(b, a)
    ensures forall a, b, c :: IsSameUser(a, b) && IsSameUser(b, c) ==> IsSameUser(a, c)
  {
  }

  /** A row of the CSV file as the CSV reader gives it: header name to cell text. */
  type CsvRow = map<string, string>

  /** The header names one script reads its four columns from. */
  datatype Columns = Columns(cid: string, name: string, serial: string, pin: string)

  /** setAccess.js reads "CID, name, key serial, PIN". */
  const AccessColumns := Columns("CID", "name", "key serial", "PIN")

  /** listUsers.js reads "cid, Name, Serial, PIN". */
  const ListColumns := Columns("cid", "Name", "Serial", "PIN")

  /** A cell interpolated into a template string; a missing column reads as "undefined". */
  function Cell(row: CsvRow, column: string): string {
    if column in row then row[column] else "undefined"
  }

  /** The record a door should hold for one CSV row. */
  function ExpectedUser(row: CsvRow, cols: Columns): User {
    User(Cell(row, cols.serial), Cell(row, cols.cid) + ": " + Cell(row, cols.name),
         Cell(row, cols.pin), AlwaysAccess, FarFuture)
  }

  /**
   * `getExpectedUsers` after the file is read: one desired record per row, in row
   * order, keyed by the serial column, named "<cid>: <name>", with access type
   * Always, the far-future expiry, and the PIN column kept as text.
   */
  function ExpectedUsers(rows: seq<CsvRow>, cols: Columns): (us: seq<User>)
    ensures |us| == |rows|
  {
    seq(|rows|, i requires 0 <= i < |rows| => ExpectedUser(rows[i], cols))
  }

  /** The desired records of setAccess.js, read from columns "key serial", "CID", "name" and "PIN". */
  lemma AccessCsvMapping(rows: seq<CsvRow>, i: nat)
    requires i < |rows|
    requires "key serial" in rows[i] && "CID" in rows[i] && "name" in rows[i] && "PIN" in rows[i]
    ensures |ExpectedUsers(rows, AccessColumns)| == |rows|
    ensures ExpectedUsers(rows, AccessColumns)[i] ==
      User(rows[i]["key serial"], rows[i]["CID"] + ": " + rows[i]["name"], rows[i]["PIN"], 1, 4200000000)
  {
  }

  /** The desired records of listUsers.js, read from columns "Serial", "cid", "Name" and "PIN". */
  lemma ListCsvMapping(rows: seq<CsvRow>, i: nat)
    requires i < |rows|
    requires "Serial" in rows[i] && "cid" in rows[i] && "Name" in rows[i] && "PIN" in rows[i]
    ensures |ExpectedUsers(rows, ListColumns)| == |rows|
    ensures ExpectedUsers(rows, ListColumns)[i] ==
      User(rows[i]["Serial"], rows[i]["cid"] + ": " + rows[i]["Name"], rows[i]["PIN"], 1, 4200000000)
  {
  }

  /** The JSON frames the scripts send to a door. `None` stands for a JSON null. */
  datatype Frame =
    | ListRequest(page: int)
    | RemoveRequest(uid: string)
    | UserfileRequest(uid: string, pincode: string, user: string, acctype: int,
                      acctype2: Option<int>, acctype3: Option<int>, acctype4: Option<int>,
                      validuntil: int)

  /** The `remove` frame for one user: it names the user by uid only. */
  function RemoveFrame(u: User): (f: Frame)
    ensures f.RemoveRequest? && f.uid == u.uid
  {
    RemoveRequest(u.uid)
  }

  /** The `userfile` frame for one user: access type Always, no secondary access types. */
  function UserfileFrame(u: User): (f: Frame)
    ensures f.UserfileRequest? && f.acctype == AlwaysAccess
    ensures f.acctype2 == None && f.acctype3 == None && f.acctype4 == None
  {
    UserfileRequest(u.uid, u.pincode, u.username, AlwaysAccess, None, None, None, u.validuntil)
  }

  /** The record a `userfile` frame describes. */
  function Described(f: Frame): User
    requires f.UserfileRequest?
  {
    User(f.uid, f.user, f.pincode, f.acctype, f.validuntil)
  }

  /**
   * A `userfile` frame carries every field of the user except the access type, which
   * it fixes at Always: it describes the same user exactly when the user's access
   * type was Always, as it is for every desired user.
   */
  lemma UserfileDescribesUser(u: User)
    ensures Described(UserfileFrame(u)) == u.(acctype := AlwaysAccess)
    ensures IsSameUser(Described(UserfileFrame(u)), u) <==> u.acctype == AlwaysAccess
  {
  }

  /** The frames the removal of `us` sends: one `remove` per user, in list order. */
  function RemoveFrames(us: seq<User>): (fs: seq<Frame>)
    ensures |fs| == |us|
    ensures forall i :: 0 <= i < |us| ==> fs[i] == RemoveFrame(us[i])
    ensures forall i :: 0 <= i < |us| ==> fs[i].RemoveRequest? && fs[i].uid == us[i].uid
  {
    if us == [] then [] else [RemoveFrame(us[0])] + RemoveFrames(us[1..])
  }

  /** The frames the addition of `us` sends: one `userfile` per user, in list order. */
  function UserfileFrames(us: seq<User>): (fs: seq<Frame>)
    ensures |fs| == |us|
    ensures forall i :: 0 <= i < |us| ==> fs[i] == UserfileFrame(us[i])
  {
    if us == [] then [] else [UserfileFrame(us[0])] + UserfileFrames(us[1..])
  }

  /** Every desired user is described exactly by its `userfile` frame. */
  lemma {:induction false} UserfileFramesDescribeExpected(rows: seq<CsvRow>, cols: Columns)
    ensures forall i :: 0 <= i < |rows| ==>
      Described(UserfileFrames(ExpectedUsers(rows, cols))[i]) == ExpectedUsers(rows, cols)[i]
  {
  }
}
