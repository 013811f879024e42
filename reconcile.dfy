/**
 * The diff both scripts compute between the users a door holds and the users the
 * CSV file asks for: `badUsers` are held but not asked for, `missingUsers` are asked
 * for but not held.
 */
module Reconcile {
  import opened ListOps
  import opened Records

  /** Under `isSameUser`, "some element matches" is plain membership. */
  lemma AnyMatchIsMembership(x: User, us: seq<User>)
    ensures AnyMatch(x, us, IsSameUser) <==> x in us
  {
    if x in us {
      var j :| 0 <= j < |us| && us[j] == x;
      assert IsSameUser(x, us[j]);
    }
  }

  /** `onlyInLeft(actualUsers, expectedUsers, isSameUser)`: the records the door must drop. */
  function BadUsers(actual: seq<User>, expected: seq<User>): (bad: seq<User>)
    ensures |bad| <= |actual|
    ensures forall u :: u in bad <==> u in actual && u !in expected
  {
    var bad := OnlyInLeft(actual, expected, IsSameUser);
    forall u ensures AnyMatch(u, expected, IsSameUser) <==> u in expected {
      AnyMatchIsMembership(u, expected);
    }
    bad
  }

  /** `onlyInLeft(expectedUsers, actualUsers, isSameUser)`: the records the door must get. */
  function MissingUsers(actual: seq<User>, expected: seq<User>): (missing: seq<User>)
    ensures |missing| <= |expected|
    ensures forall u :: u in missing <==> u in expected && u !in actual
  {
    var missing := OnlyInLeft(expected, actual, IsSameUser);
    forall u ensures AnyMatch(u, actual, IsSameUser) <==> u in actual {
      AnyMatchIsMembership(u, actual);
    }
    missing
  }

  /**
   * There is nothing to remove and nothing to add exactly when the door holds the
   * same records as the file asks for (as sets; order and repetition do not matter).
   */
  lemma NothingToDoIffInSync(actual: seq<User>, expected: seq<User>)
    ensures (BadUsers(actual, expected) == [] && MissingUsers(actual, expected) == [])
        <==> (forall u :: u in actual <==> u in expected)
  {
    var bad, missing := BadUsers(actual, expected), MissingUsers(actual, expected);
    assert forall i :: 0 <= i < |bad| ==> bad[i] in bad;
    assert forall i :: 0 <= i < |missing| ==> missing[i] in missing;
  }

  /**
   * Applying the diff converges: the records the door keeps (held and not bad)
   * together with the missing ones are exactly the records the file asks for.
   */
  lemma DiffConverges(actual: seq<User>, expected: seq<User>)
    ensures forall u ::
      ((u in actual && u !in BadUsers(actual, expected)) || u in MissingUsers(actual, expected))
      <==> u in expected
  {
  }

  /** Nothing both goes and comes: no record is bad and missing at once. */
  lemma DiffDisjoint(actual: seq<User>, expected: seq<User>)
    ensures forall u :: !(u in BadUsers(actual, expected) && u in MissingUsers(actual, expected))
  {
  }

  /** `duplicates(users, isSameUser)` reports the records that occur again after an earlier copy. */
  lemma DuplicateRecords(us: seq<User>)
    ensures forall x :: x in Duplicates(us, IsSameUser) <==>
      exists i, j :: 0 <= i < j < |us| && us[j] == x && us[i] == x
  {
    DuplicatesAreLaterMatches(us, IsSameUser);
  }

  /**
   * A door that holds nothing, and a file that asks for one user: that user is the
   * only one missing, and nothing is bad.
   */
  lemma SingleNewUser(u: User)
    ensures MissingUsers([], [u]) == [u]
    ensures BadUsers([], [u]) == []
  {
    assert [u][1..] == [];
  }
}
