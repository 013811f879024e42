/**
 * `getActualUsers`: the paginated download of a door's credential list. A
 * `message` handler appends the list of each `userlist` frame to an accumulator and
 * either asks for the next page or resolves the promise with the accumulator. The
 * handler stays registered after that, and a promise resolves only once.
 */
module Pager {
  import opened Wrappers
  import opened Records
  import opened Session

  /** An inbound frame: a page of the user list, or anything else. */
  datatype Inbound =
    | UserlistPage(page: int, haspages: int, list: seq<User>)
    | OtherFrame(command: string)

  /** The users a frame contributes to the accumulator. */
  function Listed(f: Inbound): seq<User> {
    if f.UserlistPage? then f.list else []
  }

  /** The request a frame triggers: the next page, while pages remain. */
  function FollowUp(f: Inbound): seq<Frame> {
    if f.UserlistPage? && f.page < f.haspages then [ListRequest(f.page + 1)] else []
  }

  /** A `userlist` frame that reports the last page (`page >= haspages`). */
  predicate IsFinal(f: Inbound) {
    f.UserlistPage? && !(f.page < f.haspages)
  }

  /** The users of all `userlist` frames, in arrival order. */
  function PageUsers(fs: seq<Inbound>): seq<User> {
    if fs == [] then [] else Listed(fs[0]) + PageUsers(fs[1..])
  }

  /** The page requests the frames trigger, in arrival order. */
  function PageRequests(fs: seq<Inbound>): seq<Frame> {
    if fs == [] then [] else FollowUp(fs[0]) + PageRequests(fs[1..])
  }

  /** What the promise resolves with, given the accumulator `acc` before `fs` arrive. */
  function Resolve(fs: seq<Inbound>, acc: seq<User>): Option<seq<User>> {
    if fs == [] then None
    else
      var acc' := acc + Listed(fs[0]);
      if IsFinal(fs[0]) then Some(acc') else Resolve(fs[1..], acc')
  }

  /** What `getActualUsers` resolves with when `fs` arrive; None while it is pending. */
  function Resolution(fs: seq<Inbound>): Option<seq<User>> {
    Resolve(fs, [])
  }

  /** The index of the first frame that reports the last page. */
  function FirstFinal(fs: seq<Inbound>): (k: Option<nat>)
    ensures k.Some? ==> k.value < |fs| && IsFinal(fs[k.value])
    ensures k.Some? ==> forall j :: 0 <= j < k.value ==> !IsFinal(fs[j])
    ensures k.None? ==> forall j :: 0 <= j < |fs| ==> !IsFinal(fs[j])
  {
    if fs == [] then None
    else if IsFinal(fs[0]) then Some(0)
    else
      match FirstFinal(fs[1..])
      case None => None
      case Some(k) => Some(k + 1)
  }

  lemma {:induction false} PageUsersAppend(fs: seq<Inbound>, f: Inbound)
    ensures PageUsers(fs + [f]) == PageUsers(fs) + Listed(f)
  {
    if fs != [] {
      assert (fs + [f])[1..] == fs[1..] + [f];
      PageUsersAppend(fs[1..], f);
    }
  }

  lemma {:induction false} PageRequestsAppend(fs: seq<Inbound>, f: Inbound)
    ensures PageRequests(fs + [f]) == PageRequests(fs) + FollowUp(f)
  {
    if fs != [] {
      assert (fs + [f])[1..] == fs[1..] + [f];
      PageRequestsAppend(fs[1..], f);
    }
  }

  /**
   * The handler run over the frames that arrive: it sends the request for page 1
   * first and one request for page `p + 1` per `userlist` frame of page `p` with
   * pages left, and resolves with what had accumulated at the first frame of the
   * last page.
   */
  method GetActualUsers(ws: Socket, inbound: seq<Inbound>) returns (resolved: Option<seq<User>>)
    modifies ws
    ensures ws.sent == old(ws.sent) + [ListRequest(1)] + PageRequests(inbound)
    ensures resolved == Resolution(inbound)
  {
    var users: seq<User> := [];
    resolved := None;
    ws.Send(ListRequest(1));
    for i := 0 to |inbound|
      invariant users == PageUsers(inbound[..i])
      invariant ws.sent == old(ws.sent) + [ListRequest(1)] + PageRequests(inbound[..i])
      invariant resolved.None? ==> Resolution(inbound) == Resolve(inbound[i..], users)
      invariant resolved.Some? ==> Resolution(inbound) == resolved
    {
      var f := inbound[i];
      assert inbound[..i + 1] == inbound[..i] + [f];
      PageUsersAppend(inbound[..i], f);
      PageRequestsAppend(inbound[..i], f);
      if f.UserlistPage? {
        users := users + f.list;
        if f.page < f.haspages {
          ws.Send(ListRequest(f.page + 1));
        } else if resolved.None? {
          resolved := Some(users);
        }
      }
      assert inbound[i..][1..] == inbound[i + 1..];
    }
    assert inbound[..|inbound|] == inbound;
  }

  /**
   * The promise resolves exactly when some frame reports the last page, with the
   * users of the frames up to and including the first such frame, in arrival order.
   */
  lemma ResolutionAtFirstFinal(fs: seq<Inbound>)
    ensures Resolution(fs) == match FirstFinal(fs)
      case None => None
      case Some(k) => Some(PageUsers(fs[..k + 1]))
  {
    ResolveAtFirstFinal(fs, []);
    match FirstFinal(fs)
    case None =>
    case Some(k) => assert [] + PageUsers(fs[..k + 1]) == PageUsers(fs[..k + 1]);
  }

  lemma {:induction false} ResolveAtFirstFinal(fs: seq<Inbound>, acc: seq<User>)
    ensures Resolve(fs, acc) == match FirstFinal(fs)
      case None => None
      case Some(k) => Some(acc + PageUsers(fs[..k + 1]))
  {
    if fs != [] {
      var acc' := acc + Listed(fs[0]);
      if IsFinal(fs[0]) {
        assert fs[..1][1..] == [];
        assert PageUsers(fs[..1]) == Listed(fs[0]);
      } else {
        ResolveAtFirstFinal(fs[1..], acc');
        match FirstFinal(fs[1..])
        case None =>
        case Some(k) =>
          assert fs[..k + 2][1..] == fs[1..][..k + 1];
          assert PageUsers(fs[..k + 2]) == Listed(fs[0]) + PageUsers(fs[1..][..k + 1]);
          assert acc' + PageUsers(fs[1..][..k + 1]) == acc + PageUsers(fs[..k + 2]);
      }
    }
  }

  /** A frame that is not a `userlist` frame changes nothing, wherever it arrives. */
  lemma {:induction false} OtherFrameIgnored(fs: seq<Inbound>, k: nat, command: string, acc: seq<User>)
    requires k <= |fs|
    ensures Resolve(fs[..k] + [OtherFrame(command)] + fs[k..], acc) == Resolve(fs, acc)
    ensures PageUsers(fs[..k] + [OtherFrame(command)] + fs[k..]) == PageUsers(fs)
    ensures PageRequests(fs[..k] + [OtherFrame(command)] + fs[k..]) == PageRequests(fs)
  {
    var gs := fs[..k] + [OtherFrame(command)] + fs[k..];
    if k == 0 {
      assert gs[1..] == fs;
      assert acc + Listed(OtherFrame(command)) == acc;
    } else {
      assert gs[0] == fs[0];
      assert gs[1..] == fs[1..][..k - 1] + [OtherFrame(command)] + fs[1..][k - 1..];
      OtherFrameIgnored(fs[1..], k - 1, command, acc + Listed(fs[0]));
    }
  }

  /** The frames of a door that answers page `p` of `n` with the `p`-th list. */
  function Pages(lists: seq<seq<User>>): (fs: seq<Inbound>)
    ensures |fs| == |lists|
  {
    seq(|lists|, k requires 0 <= k < |lists| => UserlistPage(k + 1, |lists|, lists[k]))
  }

  function Concat(lists: seq<seq<User>>): seq<User> {
    if lists == [] then [] else lists[0] + Concat(lists[1..])
  }

  /** The requests for pages `from` to `to`, in order. */
  function RequestsFor(from: int, to: int): seq<Frame>
    decreases to - from
  {
    if from > to then [] else [ListRequest(from)] + RequestsFor(from + 1, to)
  }

  /**
   * Against a door with `n >= 1` pages that answers each request with the page asked
   * for, the reader asks for pages 1 to `n`, each once and in order, and resolves with
   * all users of all pages in page order.
   */
  lemma CompleteListing(lists: seq<seq<User>>)
    requires |lists| >= 1
    ensures Resolution(Pages(lists)) == Some(Concat(lists))
    ensures [ListRequest(1)] + PageRequests(Pages(lists)) == RequestsFor(1, |lists|)
  {
    var fs := Pages(lists);
    assert fs[0..] == fs;
    assert lists[0..] == lists;
    PagesFrom(lists, 0, []);
    assert Resolution(fs) == Some([] + Concat(lists));
    assert [] + Concat(lists) == Concat(lists);
    assert RequestsFor(1, |lists|) == [ListRequest(1)] + RequestsFor(2, |lists|);
  }

  lemma {:induction false} PagesFrom(lists: seq<seq<User>>, m: nat, acc: seq<User>)
    requires m < |lists|
    ensures Resolve(Pages(lists)[m..], acc) == Some(acc + Concat(lists[m..]))
    ensures PageRequests(Pages(lists)[m..]) == RequestsFor(m + 2, |lists|)
    decreases |lists| - m
  {
    var fs := Pages(lists)[m..];
    assert fs[0] == UserlistPage(m + 1, |lists|, lists[m]);
    assert lists[m..] == [lists[m]] + lists[m + 1..];
    if m + 1 == |lists| {
      assert fs[1..] == [];
      assert lists[m + 1..] == [];
      assert Concat(lists[m..]) == lists[m] + Concat([]) == lists[m];
    } else {
      assert fs[1..] == Pages(lists)[m + 1..];
      PagesFrom(lists, m + 1, acc + lists[m]);
      assert Concat(lists[m..]) == lists[m] + Concat(lists[m + 1..]);
      assert (acc + lists[m]) + Concat(lists[m + 1..]) == acc + Concat(lists[m..]);
    }
  }

  /** Three pages of 2, 2 and 1 users give 5 users in arrival order after 3 requests. */
  lemma ThreePageListing(a: User, b: User, c: User, d: User, e: User)
    ensures var fs := [UserlistPage(1, 3, [a, b]), UserlistPage(2, 3, [c, d]), UserlistPage(3, 3, [e])];
      && Resolution(fs) == Some([a, b, c, d, e])
      && [ListRequest(1)] + PageRequests(fs) == [ListRequest(1), ListRequest(2), ListRequest(3)]
  {
    var lists := [[a, b], [c, d], [e]];
    CompleteListing(lists);
    assert lists[1..] == [[c, d], [e]] && lists[1..][1..] == [[e]] && lists[1..][1..][1..] == [];
    assert Concat(lists[1..][1..]) == [e] + Concat([]);
    assert Concat(lists[1..]) == [c, d] + Concat(lists[1..][1..]);
    assert Concat(lists) == [a, b] + Concat(lists[1..]);
    assert Concat(lists) == [a, b, c, d, e];
    assert Pages(lists) == [UserlistPage(1, 3, [a, b]), UserlistPage(2, 3, [c, d]), UserlistPage(3, 3, [e])];
  }
}
