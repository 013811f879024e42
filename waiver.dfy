/**
 * waiver-based_door.py: which waiver form responses open the door. A response
 * passes when every screening answer is `No` and the best-practices statement is
 * agreed to; a passing response opens the door for 24 hours from its timestamp,
 * and only responses from the last 7 days are looked at.
 */
module Waiver {
  import opened Wrappers
  import opened PyText
  import opened ListOps

  /** `DAYS_FOR_VALID_ENTRIES`. */
  const DaysForValidEntries: int := 7
  /** `DURATION_OF_KEY_EXPIRY`, in hours. */
  const DurationOfKeyExpiry: int := 24

  const SecondsPerHour: int := 3600
  const SecondsPerDay: int := 86400

  /**
   * One row of the sheet: `cells` as the Sheets API returns them (trailing empty
   * cells omitted), and `stamp` the instant the first cell names, in seconds.
   */
  datatype SheetRow = SheetRow(stamp: int, cells: seq<string>)

  /** An `Entry`; `expiry` is 0, the epoch, when the check fails. */
  datatype Entry = Entry(timestamp: int, name: string, email: string, check: bool, expiry: int)

  /** The IndexError raised when the row has no cell at `index`. */
  datatype SheetError = MissingCell(index: nat)

  /** The check the form is meant to make: answers 4 to 9 are `No`, answer 11 is `I agree.`. */
  predicate Passes(cells: seq<string>) {
    && |cells| >= 12
    && (forall q :: 4 <= q < 10 ==> cells[q] == "No")
    && cells[11] == "I agree."
  }

  /**
   * The value the check loop of `Entry.__init__` computes from question `q` on, given
   * that every earlier answer was `No`. The `and` does not look at a cell once the
   * check has failed, so a short row raises IndexError only if it passes so far.
   */
  function Answers(cells: seq<string>, q: nat): Result<bool, SheetError>
    requires 4 <= q <= 10
    decreases 10 - q
  {
    if q == 10 then
      if |cells| <= 11 then Err(MissingCell(11)) else Ok(cells[11] == "I agree.")
    else if |cells| <= q then Err(MissingCell(q))
    else if cells[q] != "No" then Ok(false)
    else Answers(cells, q + 1)
  }

  /**
   * The check succeeds exactly when the row passes, and it raises IndexError
   * exactly when the row is shorter than 12 cells and every answer it has up to
   * question 9 is `No`.
   */
  lemma {:induction false} AnswersMeaning(cells: seq<string>, q: nat)
    requires 4 <= q <= 10
    requires forall p :: 4 <= p < q && p < |cells| ==> cells[p] == "No"
    ensures Answers(cells, q) == Ok(true) <==> Passes(cells)
    ensures Answers(cells, q).Err? <==> |cells| < 12 && forall p :: q <= p < 10 && p < |cells| ==> cells[p] == "No"
    decreases 10 - q
  {
    if q < 10 && q < |cells| && cells[q] == "No" {
      AnswersMeaning(cells, q + 1);
    }
  }

  /** The expiry rule: 24 hours after the timestamp when the check holds, the epoch otherwise. */
  function Expiry(stamp: int, check: bool): (e: int)
    ensures check ==> e - stamp == DurationOfKeyExpiry * SecondsPerHour
    ensures !check ==> e == 0
  {
    if check then stamp + DurationOfKeyExpiry * SecondsPerHour else 0
  }

  /** `Entry(row)`: the entry, or the IndexError of the first cell it reads that is missing. */
  function EntryOf(row: SheetRow): Result<Entry, SheetError> {
    if |row.cells| == 0 then Err(MissingCell(0))
    else if |row.cells| < 3 then Err(MissingCell(2))
    else
      match Answers(row.cells, 4)
      case Err(e) => Err(e)
      case Ok(check) =>
        Ok(Entry(row.stamp, Strip(row.cells[2]), Strip(row.cells[1]), check, Expiry(row.stamp, check)))
  }

  /**
   * A well-formed entry carries the stripped name and e-mail of columns 2 and 1,
   * passes exactly when the row does, and expires by the expiry rule.
   */
  lemma EntryFields(row: SheetRow)
    ensures EntryOf(row).Ok? ==>
      var e := EntryOf(row).value;
      && e.timestamp == row.stamp
      && e.name == Strip(row.cells[2]) && e.email == Strip(row.cells[1])
      && (e.check <==> Passes(row.cells))
      && e.expiry == Expiry(row.stamp, Passes(row.cells))
    ensures Passes(row.cells) ==> EntryOf(row).Ok?
  {
    if |row.cells| >= 3 {
      AnswersMeaning(row.cells, 4);
    }
  }

  /** `Entry.__init__`, with its check loop over questions 4 to 9. */
  method NewEntry(row: SheetRow) returns (r: Result<Entry, SheetError>)
    ensures r == EntryOf(row)
  {
    if |row.cells| == 0 {
      return Err(MissingCell(0));
    }
    if |row.cells| < 3 {
      return Err(MissingCell(2));
    }
    var name := Strip(row.cells[2]);
    var email := Strip(row.cells[1]);
    var check := true;
    for q := 4 to 10
      invariant Answers(row.cells, 4) == if check then Answers(row.cells, q) else Ok(false)
    {
      if check {
        if |row.cells| <= q {
          return Err(MissingCell(q));
        }
        check := row.cells[q] == "No";
      }
    }
    if check {
      if |row.cells| <= 11 {
        return Err(MissingCell(11));
      }
      check := row.cells[11] == "I agree.";
    }
    r := Ok(Entry(row.stamp, name, email, check, Expiry(row.stamp, check)));
  }

  /**
   * What the loop of `main` does with one row at time `now`: an empty row raises
   * IndexError, a row older than the window is skipped, and otherwise the entry
   * is kept when it expires after `now`.
   */
  function Step(row: SheetRow, now: int): Result<Option<Entry>, SheetError> {
    if |row.cells| == 0 then Err(MissingCell(0))
    else if row.stamp < now - DaysForValidEntries * SecondsPerDay then Ok(None)
    else
      match EntryOf(row)
      case Err(e) => Err(e)
      case Ok(entry) => if entry.expiry > now then Ok(Some(entry)) else Ok(None)
  }

  /**
   * At any time after the epoch, a row is kept exactly when it lies inside the
   * window, passes the check and is less than 24 hours old; what is kept is the
   * row's entry.
   */
  lemma StepMeaning(row: SheetRow, now: int)
    requires now >= 0
    ensures Step(row, now).Ok? && Step(row, now).value.Some? <==>
      && Passes(row.cells)
      && now - DaysForValidEntries * SecondsPerDay <= row.stamp
      && now < row.stamp + DurationOfKeyExpiry * SecondsPerHour
    ensures Step(row, now).Ok? && Step(row, now).value.Some? ==>
      EntryOf(row).Ok? && Step(row, now).value.value == EntryOf(row).value
  {
    EntryFields(row);
    if |row.cells| > 0 && now - DaysForValidEntries * SecondsPerDay <= row.stamp {
      match EntryOf(row)
      case Err(_) =>
      case Ok(e) =>
        assert Step(row, now) == if e.expiry > now then Ok(Some(e)) else Ok(None);
        if !Passes(row.cells) {
          assert e.expiry == 0;
        }
    }
  }

  /** The entries gathered so far, put in front of what the rest of the rows give. */
  function Prepend(entries: seq<Entry>, r: Result<seq<Entry>, SheetError>): (p: Result<seq<Entry>, SheetError>)
    ensures r.Err? ==> p == r
    ensures r.Ok? ==> p == Ok(entries + r.value)
  {
    match r
    case Err(e) => Err(e)
    case Ok(rest) => Ok(entries + rest)
  }

  /** Putting `a` in front of `b` in front of `r` is putting `a + b` in front of `r`. */
  lemma PrependTwice(a: seq<Entry>, b: seq<Entry>, r: Result<seq<Entry>, SheetError>)
    ensures Prepend(a, Prepend(b, r)) == Prepend(a + b, r)
  {
    if r.Ok? {
      assert a + (b + r.value) == (a + b) + r.value;
    }
  }

  /** The entries one step adds: the kept entry, if any. */
  function Added(kept: Option<Entry>): (es: seq<Entry>)
    ensures |es| <= 1
    ensures kept.Some? ==> es == [kept.value]
    ensures kept.None? ==> es == []
  {
    if kept.Some? then [kept.value] else []
  }

  /** `Step` at time `now`, as a function of the row alone. */
  function StepAt(now: int): SheetRow -> Result<Option<Entry>, SheetError> {
    row => Step(row, now)
  }

  /** The result of `main`'s loop: the kept entries in row order, or the first error. */
  function Selected(rows: seq<SheetRow>, now: int): Result<seq<Entry>, SheetError> {
    SelectedBy(rows, StepAt(now))
  }

  /** The rows `main` keeps, in sheet order. */
  function Kept(rows: seq<SheetRow>, now: int): seq<SheetRow> {
    KeptBy(rows, StepAt(now))
  }

  /** The loop over `rows` for any per-row `step`: the kept entries in row order, or the first error. */
  function SelectedBy(rows: seq<SheetRow>, step: SheetRow -> Result<Option<Entry>, SheetError>): Result<seq<Entry>, SheetError> {
    if rows == [] then Ok([])
    else
      match step(rows[0])
      case Err(e) => Err(e)
      case Ok(kept) => Prepend(Added(kept), SelectedBy(rows[1..], step))
  }

  /** The rows `step` keeps an entry for, in order. */
  function KeptBy(rows: seq<SheetRow>, step: SheetRow -> Result<Option<Entry>, SheetError>): seq<SheetRow> {
    if rows == [] then []
    else
      var rest := KeptBy(rows[1..], step);
      if step(rows[0]).Ok? && step(rows[0]).value.Some? then [rows[0]] + rest else rest
  }

  /** A row is kept exactly when it is in the sheet and its step keeps an entry. */
  lemma KeptExactly(rows: seq<SheetRow>, now: int)
    ensures forall r :: r in Kept(rows, now) <==> r in rows && Step(r, now).Ok? && Step(r, now).value.Some?
  {
    KeptByExactly(rows, StepAt(now));
  }

  lemma {:induction false} KeptByExactly(rows: seq<SheetRow>, step: SheetRow -> Result<Option<Entry>, SheetError>)
    ensures forall r :: r in KeptBy(rows, step) <==> r in rows && step(r).Ok? && step(r).value.Some?
  {
    if rows != [] {
      KeptByExactly(rows[1..], step);
      assert forall r :: r in rows <==> r == rows[0] || r in rows[1..];
    }
  }

  /**
   * When the loop completes, its entries are those of the kept rows, one per row,
   * in sheet order; the kept rows are a subsequence of the sheet.
   */
  lemma SelectedKeepsOrder(rows: seq<SheetRow>, now: int)
    requires Selected(rows, now).Ok?
    ensures IsSubseq(Kept(rows, now), rows)
    ensures |Selected(rows, now).value| == |Kept(rows, now)|
    ensures forall i :: 0 <= i < |Kept(rows, now)| ==>
      Step(Kept(rows, now)[i], now) == Ok(Some(Selected(rows, now).value[i]))
  {
    KeptByIsSubseq(rows, StepAt(now));
    SelectedByFollowsKeptBy(rows, StepAt(now));
  }

  lemma {:induction false} KeptByIsSubseq(rows: seq<SheetRow>, step: SheetRow -> Result<Option<Entry>, SheetError>)
    ensures IsSubseq(KeptBy(rows, step), rows)
  {
    if rows != [] {
      var ks := KeptBy(rows[1..], step);
      KeptByIsSubseq(rows[1..], step);
      if KeptBy(rows, step) != ks {
        assert KeptBy(rows, step) == [rows[0]] + ks;
        assert ([rows[0]] + ks)[1..] == ks;
      }
    }
  }

  lemma {:induction false} SelectedByFollowsKeptBy(rows: seq<SheetRow>, step: SheetRow -> Result<Option<Entry>, SheetError>)
    requires SelectedBy(rows, step).Ok?
    ensures |SelectedBy(rows, step).value| == |KeptBy(rows, step)|
    ensures forall i :: 0 <= i < |KeptBy(rows, step)| ==>
      step(KeptBy(rows, step)[i]) == Ok(Some(SelectedBy(rows, step).value[i]))
  {
    if rows != [] {
      var rest := rows[1..];
      SelectedByFollowsKeptBy(rest, step);
      var ks := KeptBy(rest, step);
      var es := SelectedBy(rest, step).value;
      var kept := step(rows[0]).value;
      assert SelectedBy(rows, step).value == Added(kept) + es;
      if kept.Some? {
        var full := [rows[0]] + ks;
        var entries := [kept.value] + es;
        assert KeptBy(rows, step) == full;
        forall i | 1 <= i < |full|
          ensures step(full[i]) == Ok(Some(entries[i]))
        {
          assert full[i] == ks[i - 1] && entries[i] == es[i - 1];
        }
      } else {
        assert KeptBy(rows, step) == ks;
      }
    }
  }

  /**
   * At any time after the epoch every entry the loop keeps passed the check, lies
   * inside the window and has not yet expired.
   */
  lemma {:induction false} SelectedAreCurrent(rows: seq<SheetRow>, now: int)
    requires now >= 0
    requires Selected(rows, now).Ok?
    ensures forall e :: e in Selected(rows, now).value ==>
      && e.check
      && now - DaysForValidEntries * SecondsPerDay <= e.timestamp
      && now < e.timestamp + DurationOfKeyExpiry * SecondsPerHour
  {
    if rows != [] {
      SelectedAreCurrent(rows[1..], now);
      StepMeaning(rows[0], now);
      EntryFields(rows[0]);
    }
  }

  /** The loop stops with an error exactly when some row raises one. */
  lemma {:induction false} SelectedFailsOnBadRow(rows: seq<SheetRow>, now: int)
    ensures Selected(rows, now).Err? <==> exists i :: 0 <= i < |rows| && Step(rows[i], now).Err?
  {
    if rows != [] {
      SelectedFailsOnBadRow(rows[1..], now);
      assert forall i :: 1 <= i < |rows| ==> rows[i] == rows[1..][i - 1];
    }
  }

  /** The loop of `main` over the sheet's rows at time `now`. */
  method SelectWaivers(rows: seq<SheetRow>, now: int) returns (r: Result<seq<Entry>, SheetError>)
    ensures r == Selected(rows, now)
  {
    var entries: seq<Entry> := [];
    assert rows[0..] == rows;
    assert Prepend([], Selected(rows, now)) == Selected(rows, now) by {
      if Selected(rows, now).Ok? {
        assert [] + Selected(rows, now).value == Selected(rows, now).value;
      }
    }
    for i := 0 to |rows|
      invariant Selected(rows, now) == Prepend(entries, Selected(rows[i..], now))
    {
      assert rows[i..][1..] == rows[i + 1..];
      var row := rows[i];
      if |row.cells| == 0 {
        return Err(MissingCell(0));
      }
      if row.stamp < now - DaysForValidEntries * SecondsPerDay {
        PrependTwice(entries, Added(None), Selected(rows[i + 1..], now));
        assert entries + [] == entries;
        continue;
      }
      var entry := NewEntry(row);
      match entry
      case Err(e) =>
        return Err(e);
      case Ok(e) =>
        var kept := if e.expiry > now then Some(e) else None;
        PrependTwice(entries, Added(kept), Selected(rows[i + 1..], now));
        entries := entries + Added(kept);
    }
    assert rows[|rows|..] == [];
    assert entries + [] == entries;
    r := Ok(entries);
  }
}
