/**
 * The sending side of listUsers.js: `deleteUsers` and `addUsers` send one frame per
 * user, synchronously and in list order, and the run for one door downloads the
 * list, diffs it against the file and sends all removals before all additions.
 */
module Sync {
  import opened Wrappers
  import opened Records
  import opened Session
  import opened Pager
  import opened Reconcile

  /** `deleteUsers`: one `remove` frame per bad user, in list order. */
  method DeleteUsers(ws: Socket, bad: seq<User>)
    modifies ws
    ensures ws.sent == old(ws.sent) + RemoveFrames(bad)
  {
    for i := 0 to |bad|
      invariant ws.sent == old(ws.sent) + RemoveFrames(bad[..i])
    {
      assert RemoveFrames(bad[..i + 1]) == RemoveFrames(bad[..i]) + [RemoveFrame(bad[i])];
      ws.Send(RemoveFrame(bad[i]));
    }
    assert bad[..|bad|] == bad;
  }

  /** `addUsers`: one `userfile` frame per missing user, in list order. */
  method AddUsers(ws: Socket, missing: seq<User>)
    modifies ws
    ensures ws.sent == old(ws.sent) + UserfileFrames(missing)
  {
    for i := 0 to |missing|
      invariant ws.sent == old(ws.sent) + UserfileFrames(missing[..i])
    {
      assert UserfileFrames(missing[..i + 1]) == UserfileFrames(missing[..i]) + [UserfileFrame(missing[i])];
      ws.Send(UserfileFrame(missing[i]));
    }
    assert missing[..|missing|] == missing;
  }

  /** The frames of one run's mutation phase: the removals, then the additions. */
  function MutationFrames(bad: seq<User>, missing: seq<User>): seq<Frame> {
    RemoveFrames(bad) + UserfileFrames(missing)
  }

  /** `deleteUsers(ws, bad)` followed by `addUsers(ws, missing)`. */
  method SendMutations(ws: Socket, bad: seq<User>, missing: seq<User>)
    modifies ws
    ensures ws.sent == old(ws.sent) + MutationFrames(bad, missing)
  {
    DeleteUsers(ws, bad);
    AddUsers(ws, missing);
  }

  /**
   * `deleteUsers` runs to completion before `addUsers` starts: every `remove` frame
   * precedes every `userfile` frame, there is one `remove` per bad user carrying its
   * uid and one `userfile` per missing user.
   */
  lemma RemovalsPrecedeAdditions(bad: seq<User>, missing: seq<User>)
    ensures var fs := MutationFrames(bad, missing);
      && |fs| == |bad| + |missing|
      && (forall i :: 0 <= i < |bad| ==> fs[i] == RemoveRequest(bad[i].uid))
      && (forall i :: 0 <= i < |missing| ==> fs[|bad| + i] == UserfileFrame(missing[i]))
      && (forall i, j :: 0 <= i < |fs| && 0 <= j < |fs| && fs[i].RemoveRequest? && fs[j].UserfileRequest? ==> i < j)
  {
  }

  /**
   * What follows the download: nothing when no frame reported the last page,
   * otherwise the mutation frames of the diff between the downloaded list and the
   * users the file's rows describe.
   */
  function Mutations(resolved: Option<seq<User>>, rows: seq<CsvRow>): seq<Frame> {
    match resolved
    case None => []
    case Some(actual) =>
      var expected := ExpectedUsers(rows, ListColumns);
      MutationFrames(BadUsers(actual, expected), MissingUsers(actual, expected))
  }

  /**
   * A run that has the whole list sends no removal and no addition exactly when the
   * door already holds the records the file asks for.
   */
  lemma NoMutationsIffInSync(actual: seq<User>, rows: seq<CsvRow>)
    ensures Mutations(Some(actual), rows) == [] <==>
      forall u :: u in actual <==> u in ExpectedUsers(rows, ListColumns)
  {
    var expected := ExpectedUsers(rows, ListColumns);
    NothingToDoIffInSync(actual, expected);
    var fs := MutationFrames(BadUsers(actual, expected), MissingUsers(actual, expected));
    assert |fs| == |BadUsers(actual, expected)| + |MissingUsers(actual, expected)|;
  }

  /**
   * The mutation phase of one door's run once the whole list is in: the users on
   * the door but not in the file are removed, then the users in the file but not on
   * the door are added.
   */
  method ApplyDiff(ws: Socket, actual: seq<User>, rows: seq<CsvRow>)
    modifies ws
    ensures ws.sent == old(ws.sent) + Mutations(Some(actual), rows)
  {
    var expected := ExpectedUsers(rows, ListColumns);
    var bad := BadUsers(actual, expected);
    var missing := MissingUsers(actual, expected);
    SendMutations(ws, bad, missing);
  }

  /**
   * One door's run in listUsers.js, from the open socket on: download the list,
   * diff it against the file's rows, remove the bad users and add the missing ones.
   * `inbound` is every frame the handler sees before the mutation phase; the CSV
   * file is read after the list resolves, so frames may still arrive then, but the
   * sends and `process.exit` that follow run in one turn and no frame comes after
   * them. Until some frame reports the last page only page requests are sent.
   */
  method SyncDoor(ws: Socket, inbound: seq<Inbound>, rows: seq<CsvRow>)
    modifies ws
    ensures ws.sent == old(ws.sent) + [ListRequest(1)] + PageRequests(inbound)
      + Mutations(Resolution(inbound), rows)
  {
    var resolved := GetActualUsers(ws, inbound);
    ghost var listed := ws.sent;
    match resolved {
      case None =>
        assert listed + [] == listed;
      case Some(actual) =>
        ApplyDiff(ws, actual, rows);
    }
  }
}
