/**
  The reading table of the pandas-backed application: an ordered table of
  8-field rows, the previous-value lookup that prices a new reading, and the
  add / edit / delete operations the buttons perform on the stored table.

  Every handler reloads the table from the CSV file, changes it and writes it
  back; here the stored table is the argument and the rewritten table the
  result. Prompts, the calendar and the clock become parameters: a cancelled
  prompt is `None`, and `now` is the "Last Modified" text.
 */
module ReadingTable {
  import opened Results
  import opened DateOrder

  /** The text the utility menu shows before a utility is picked. */
  const Placeholder: string := "Select Utility"

  /** The fixed column schema of the CSV file, in order. */
  const Columns: seq<string> :=
    ["Utility", "Date", "Previous Value", "Current Value", "Consumption", "Rate", "Bill Amount", "Last Modified"]

  /** A "Current Value" cell as read back from the file: a number, or text that does not parse (or is empty). */
  datatype Cell = Num(value: real) | NotNumeric

  /** One row of the table, fields in the order of `Columns`. A missing Date is the empty text. */
  datatype Row = Row(
    utility: string,
    date: string,
    previous: real,
    current: Cell,
    consumption: real,
    rate: real,
    bill: real,
    lastModified: string)

  /** Why a button press was refused; the table is left as it was. */
  datatype InputError = NoUtilitySelected | InvalidCurrentValue | InvalidRate | InvalidInput | NothingSelected

  /** The persisted file: missing, present but unreadable, or a header with rows. */
  datatype Storage = Absent | Unreadable | Stored(header: seq<string>, rows: seq<Row>)

  // ---------------------------------------------------------------------
  // Storage
  // ---------------------------------------------------------------------

  /** Start-up: create the file holding only the header when there is none; never truncate an existing one. */
  function EnsureInitialized(s: Storage): (s': Storage)
    ensures s.Absent? ==> s'.Stored? && s'.header == Columns && s'.rows == []
    ensures !s.Absent? ==> s' == s
  {
    if s.Absent? then Stored(Columns, []) else s
  }

  /** Reading the file; a failure to read yields the empty table (after an error dialog). */
  function Load(s: Storage): (t: seq<Row>)
    ensures s.Stored? ==> t == s.rows
    ensures !s.Stored? ==> t == []
  {
    if s.Stored? then s.rows else []
  }

  /** Writing the whole table back, header first. */
  function Save(t: seq<Row>): (s: Storage)
    ensures s.Stored? && s.header == Columns && Load(s) == t
  {
    Stored(Columns, t)
  }

  /** A freshly initialised store loads as the empty table, and initialising twice changes nothing. */
  lemma InitializedStoreIsEmpty(s: Storage)
    ensures EnsureInitialized(EnsureInitialized(s)) == EnsureInitialized(s)
    ensures s.Absent? ==> Load(EnsureInitialized(s)) == []
  {
  }

  /** Saving what was loaded reproduces a well-formed stored file. */
  lemma SaveLoadIdempotent(s: Storage)
    requires s.Stored? && s.header == Columns
    ensures Save(Load(s)) == s
  {
  }

  // ---------------------------------------------------------------------
  // Previous-value lookup
  // ---------------------------------------------------------------------

  predicate HasUtility(t: seq<Row>, u: string)
  {
    exists j :: 0 <= j < |t| && t[j].utility == u
  }

  /** Row `i` belongs to utility `u` and no row of `u` has a later date. */
  ghost predicate IsLatest(t: seq<Row>, u: string, i: int)
  {
    && 0 <= i < |t|
    && t[i].utility == u
    && forall j :: 0 <= j < |t| && t[j].utility == u ==> TextLe(t[j].date, t[i].date)
  }

  /**
    The row that sorting the rows of `u` by Date, descending, puts first.
    The sort's order among equal dates is unspecified; this picks the
    earliest such row in table order.
   */
  function LatestIndex(t: seq<Row>, u: string): (r: Option<nat>)
    ensures r.None? <==> !HasUtility(t, u)
    ensures r.Some? ==> IsLatest(t, u, r.value)
    ensures r.Some? ==> forall j :: 0 <= j < r.value && t[j].utility == u ==> t[j].date != t[r.value].date
    decreases |t|
  {
    if |t| == 0 then None
    else
      var init := t[..|t| - 1];
      var last := t[|t| - 1];
      var rest := LatestIndex(init, u);
      assert forall j :: 0 <= j < |init| ==> init[j] == t[j];
      if last.utility != u then
        rest
      else
        match rest
        case None =>
          TextLeReflexive(last.date);
          Some(|t| - 1)
        case Some(k) =>
          if TextLe(last.date, t[k].date) then
            Some(k)
          else
            LatestOverPrefix(t, u, k);
            Some(|t| - 1)
  }

  /** When the last row's date beats the prefix's latest, it beats every row of `u`. */
  lemma LatestOverPrefix(t: seq<Row>, u: string, k: nat)
    requires |t| > 0 && t[|t| - 1].utility == u
    requires IsLatest(t[..|t| - 1], u, k)
    requires !TextLe(t[|t| - 1].date, t[k].date)
    ensures IsLatest(t, u, |t| - 1)
  {
    var last := t[|t| - 1];
    TextLeTotal(last.date, t[k].date);
    forall j | 0 <= j < |t| && t[j].utility == u
      ensures TextLe(t[j].date, last.date)
    {
      if j < |t| - 1 {
        assert t[..|t| - 1][j] == t[j];
        TextLeTransitive(t[j].date, t[k].date, last.date);
      } else {
        TextLeReflexive(last.date);
      }
    }
  }

  /** `pd.to_numeric(..., errors='coerce')` followed by the NaN-to-0 fallback. */
  function Coerce(c: Cell): real
  {
    match c
    case Num(v) => v
    case NotNumeric => 0.0
  }

  /**
    The previous reading for `u`: 0 when `u` has no row, otherwise the
    Current Value of a latest-dated row of `u`, coerced to 0 when not numeric.
   */
  function PreviousValue(t: seq<Row>, u: string): (p: real)
    ensures !HasUtility(t, u) ==> p == 0.0
    ensures HasUtility(t, u) ==> exists i :: IsLatest(t, u, i) && p == Coerce(t[i].current)
  {
    match LatestIndex(t, u)
    case None => 0.0
    case Some(i) => Coerce(t[i].current)
  }

  /** Whichever latest row is chosen, a unique latest date pins the previous value down. */
  lemma PreviousValueUniqueLatest(t: seq<Row>, u: string, i: nat)
    requires IsLatest(t, u, i)
    requires forall j :: 0 <= j < |t| && j != i && t[j].utility == u ==> t[j].date != t[i].date
    ensures PreviousValue(t, u) == Coerce(t[i].current)
  {
    var k := LatestIndex(t, u).value;
    if k != i {
      TextLeAntisymmetric(t[k].date, t[i].date);
    }
  }

  // ---------------------------------------------------------------------
  // Consumption and bill
  // ---------------------------------------------------------------------

  /** The three derived fields of a row. */
  datatype Billing = Billing(previous: real, consumption: real, bill: real)

  /**
    `calculate_consumption_and_bill`: the previous value comes from the stored
    table, and consumption and bill are neither clamped nor rounded.
   */
  function Calculate(t: seq<Row>, u: string, current: int, rate: real): (b: Billing)
    ensures b.previous == PreviousValue(t, u)
    ensures b.consumption + b.previous == current as real
    ensures b.bill == b.consumption * rate
  {
    var previous := PreviousValue(t, u);
    var consumption := current as real - previous;
    Billing(previous, consumption, consumption * rate)
  }

  /**
    Nothing is clamped: at a positive rate, a reading below the previous one
    gives a negative consumption and a negative bill, and only such a reading does.
   */
  lemma NoClamping(t: seq<Row>, u: string, current: int, rate: real)
    requires rate > 0.0
    ensures var b := Calculate(t, u, current, rate);
      && (b.consumption < 0.0 <==> (current as real) < b.previous)
      && (b.bill < 0.0 <==> (current as real) < b.previous)
  {
    var b := Calculate(t, u, current, rate);
    if b.consumption < 0.0 {
      assert b.consumption * rate < 0.0 * rate;
    } else {
      assert b.consumption * rate >= 0.0 * rate;
    }
  }

  /** The row a successful add or edit writes. */
  function PricedRow(t: seq<Row>, u: string, date: string, current: int, rate: real, now: string): (row: Row)
    ensures row.utility == u && row.date == date && row.current == Num(current as real)
    ensures row.rate == rate && row.lastModified == now
    ensures row.previous == PreviousValue(t, u)
    ensures Consistent(row)
  {
    var b := Calculate(t, u, current, rate);
    Row(u, date, b.previous, Num(current as real), b.consumption, rate, b.bill, now)
  }

  /** The derived fields of a row agree with its inputs. */
  ghost predicate Consistent(r: Row)
  {
    && r.current.Num?
    && r.consumption == r.current.value - r.previous
    && r.bill == r.consumption * r.rate
  }

  ghost predicate AllConsistent(t: seq<Row>)
  {
    forall i :: 0 <= i < |t| ==> Consistent(t[i])
  }

  // ---------------------------------------------------------------------
  // Add, edit, delete
  // ---------------------------------------------------------------------

  predicate ValidCurrent(current: Option<int>)
  {
    current.Some? && current.value >= 0
  }

  predicate ValidRate(rate: Option<real>)
  {
    rate.Some? && rate.value > 0.0
  }

  /**
    `add_dictation`: reject the placeholder utility, then a missing or
    negative reading, then a missing or non-positive rate; otherwise append
    one priced row at the end of the stored table.
   */
  function Add(t: seq<Row>, utility: string, date: string, current: Option<int>, rate: Option<real>, now: string)
    : (r: Result<seq<Row>, InputError>)
    ensures r.Err? <==> utility == Placeholder || !ValidCurrent(current) || !ValidRate(rate)
    ensures utility == Placeholder ==> r == Err(NoUtilitySelected)
    ensures utility != Placeholder && !ValidCurrent(current) ==> r == Err(InvalidCurrentValue)
    ensures utility != Placeholder && ValidCurrent(current) && !ValidRate(rate) ==> r == Err(InvalidRate)
    ensures r.Ok? ==> |r.value| == |t| + 1 && r.value[..|t|] == t
    ensures r.Ok? ==>
      var row := r.value[|t|];
      && row.utility == utility && row.date == date && row.rate == rate.value
      && row.current == Num(current.value as real) && row.lastModified == now
      && row.previous == PreviousValue(t, utility)
      && Consistent(row)
  {
    if utility == Placeholder then Err(NoUtilitySelected)
    else if !ValidCurrent(current) then Err(InvalidCurrentValue)
    else if !ValidRate(rate) then Err(InvalidRate)
    else
      var row := PricedRow(t, utility, date, current.value, rate.value, now);
      assert (t + [row])[..|t|] == t;
      Ok(t + [row])
  }

  /**
    `edit_dictation`: with no row selected, refuse; refuse too when the
    selected row's Current Value is not a number, since the reading prompt's
    initial value `int(...)` of it fails once the date prompt has been
    answered, before the reading prompt appears, discarding that date; after
    the three prompts, refuse a missing or negative reading or a missing or
    non-positive rate.
    Otherwise rewrite the selected row in place. A cancelled date prompt
    stores a missing date. The previous value is looked up in the stored
    table as it was before the edit, which still holds the old row.
   */
  function Edit(t: seq<Row>, selection: Option<nat>, date: Option<string>, current: Option<int>, rate: Option<real>, now: string)
    : (r: Result<seq<Row>, InputError>)
    requires selection.Some? ==> selection.value < |t|
    ensures selection.None? ==> r == Err(NothingSelected)
    ensures selection.Some? ==>
      (r.Err? <==> t[selection.value].current.NotNumeric? || !ValidCurrent(current) || !ValidRate(rate))
    ensures selection.Some? && r.Err? ==> r == Err(InvalidInput)
    ensures r.Ok? ==> |r.value| == |t|
    ensures r.Ok? ==> forall j :: 0 <= j < |t| && j != selection.value ==> r.value[j] == t[j]
    ensures r.Ok? ==>
      var row, was := r.value[selection.value], t[selection.value];
      && row.utility == was.utility
      && row.date == date.GetOr("")
      && row.current == Num(current.value as real)
      && row.rate == rate.value
      && row.lastModified == now
      && row.previous == PreviousValue(t, was.utility)
      && Consistent(row)
  {
    if selection.None? then Err(NothingSelected)
    else if t[selection.value].current.NotNumeric? || !ValidCurrent(current) || !ValidRate(rate) then Err(InvalidInput)
    else
      var i := selection.value;
      Ok(t[i := PricedRow(t, t[i].utility, date.GetOr(""), current.value, rate.value, now)])
  }

  /**
    An edit whose lookup sees the table without the row being edited, so the
    row can never be its own predecessor. Otherwise identical to `Edit`.
   */
  function EditAgainstOthers(t: seq<Row>, selection: Option<nat>, date: Option<string>, current: Option<int>,
                             rate: Option<real>, now: string)
    : (r: Result<seq<Row>, InputError>)
    requires selection.Some? ==> selection.value < |t|
    ensures selection.None? ==> r == Err(NothingSelected)
    ensures selection.Some? ==>
      (r.Err? <==> t[selection.value].current.NotNumeric? || !ValidCurrent(current) || !ValidRate(rate))
    ensures selection.Some? && r.Err? ==> r == Err(InvalidInput)
    ensures r.Ok? ==> |r.value| == |t|
    ensures r.Ok? ==> forall j :: 0 <= j < |t| && j != selection.value ==> r.value[j] == t[j]
    ensures r.Ok? ==>
      var i := selection.value;
      var row := r.value[i];
      && row.utility == t[i].utility
      && row.date == date.GetOr("")
      && row.current == Num(current.value as real)
      && row.rate == rate.value
      && row.lastModified == now
      && Consistent(row)
      && (!HasOtherRow(t, t[i].utility, i) ==> row.previous == 0.0)
      && (HasOtherRow(t, t[i].utility, i) ==>
            exists j :: IsLatestOther(t, t[i].utility, i, j) && row.previous == Coerce(t[j].current))
  {
    if selection.None? then Err(NothingSelected)
    else if t[selection.value].current.NotNumeric? || !ValidCurrent(current) || !ValidRate(rate) then Err(InvalidInput)
    else
      var i := selection.value;
      OthersLatest(t, i, t[i].utility);
      Ok(t[i := PricedRow(Without(t, i), t[i].utility, date.GetOr(""), current.value, rate.value, now)])
  }

  /** Some row other than row `i` belongs to `u`. */
  predicate HasOtherRow(t: seq<Row>, u: string, i: int)
  {
    exists j :: 0 <= j < |t| && j != i && t[j].utility == u
  }

  /** Row `j` is a latest-dated row of `u` once row `i` is disregarded. */
  ghost predicate IsLatestOther(t: seq<Row>, u: string, i: int, j: int)
  {
    && 0 <= j < |t| && j != i
    && t[j].utility == u
    && forall k :: 0 <= k < |t| && k != i && t[k].utility == u ==> TextLe(t[k].date, t[j].date)
  }

  /** The table without row `i`: the rows before it, then the rows after it. */
  function Without(t: seq<Row>, i: nat): (w: seq<Row>)
    requires i < |t|
    ensures |w| == |t| - 1
    ensures forall k :: 0 <= k < |w| ==> w[k] == t[if k < i then k else k + 1]
  {
    t[..i] + t[i + 1..]
  }

  /** The lookup over the table without row `i` speaks about the other rows of `t`. */
  lemma OthersLatest(t: seq<Row>, i: nat, u: string)
    requires i < |t|
    ensures var p := PreviousValue(Without(t, i), u);
      && (!HasOtherRow(t, u, i) ==> p == 0.0)
      && (HasOtherRow(t, u, i) ==> exists j :: IsLatestOther(t, u, i, j) && p == Coerce(t[j].current))
  {
    var w := Without(t, i);
    var p := PreviousValue(w, u);
    if HasOtherRow(t, u, i) {
      var j0 :| 0 <= j0 < |t| && j0 != i && t[j0].utility == u;
      assert w[if j0 < i then j0 else j0 - 1] == t[j0];
      assert HasUtility(w, u);
      var m :| IsLatest(w, u, m) && p == Coerce(w[m].current);
      var j := if m < i then m else m + 1;
      LatestWithout(t, i, u, m);
      assert w[m] == t[j];
      assert IsLatestOther(t, u, i, j) && p == Coerce(t[j].current);
    } else {
      forall k | 0 <= k < |w| ensures w[k].utility != u {
        assert w[k] == t[if k < i then k else k + 1];
      }
      assert !HasUtility(w, u);
    }
  }

  /** A latest row of the table without row `i` is a latest row among the other rows of `t`. */
  lemma LatestWithout(t: seq<Row>, i: nat, u: string, m: nat)
    requires i < |t| && IsLatest(Without(t, i), u, m)
    ensures IsLatestOther(t, u, i, if m < i then m else m + 1)
  {
    var w := Without(t, i);
    var j := if m < i then m else m + 1;
    assert w[m] == t[j];
    forall k | 0 <= k < |t| && k != i && t[k].utility == u
      ensures TextLe(t[k].date, t[j].date)
    {
      assert w[if k < i then k else k - 1] == t[k];
    }
  }

  /**
    The edit as written: when the edited row is the only latest-dated row of
    its utility, its new previous value is its own old reading.
   */
  lemma EditReadsOwnOldValue(t: seq<Row>, i: nat, date: Option<string>, current: nat, rate: real, now: string)
    requires i < |t| && rate > 0.0 && t[i].current.Num?
    requires IsLatest(t, t[i].utility, i)
    requires forall j :: 0 <= j < |t| && j != i && t[j].utility == t[i].utility ==> t[j].date != t[i].date
    ensures Edit(t, Some(i), date, Some(current), Some(rate), now).value[i].previous == t[i].current.value
  {
    PreviousValueUniqueLatest(t, t[i].utility, i);
  }

  /** `delete_dictation`: with no row selected, refuse; otherwise drop the selected row. */
  function Delete(t: seq<Row>, selection: Option<nat>): (r: Result<seq<Row>, InputError>)
    requires selection.Some? ==> selection.value < |t|
    ensures r.Err? <==> selection.None?
    ensures r.Err? ==> r.error == NothingSelected
    ensures r.Ok? ==>
      var i := selection.value;
      && |r.value| == |t| - 1
      && r.value[..i] == t[..i]
      && r.value[i..] == t[i + 1..]
  {
    match selection
    case None => Err(NothingSelected)
    case Some(i) => Ok(t[..i] + t[i + 1..])
  }

  /** Deleting loses exactly the selected row: putting it back restores the table. */
  lemma DeleteRemovesExactlyOne(t: seq<Row>, i: nat)
    requires i < |t|
    ensures Delete(t, Some(i)).value[..i] + [t[i]] + Delete(t, Some(i)).value[i..] == t
    ensures multiset(Delete(t, Some(i)).value) + multiset{t[i]} == multiset(t)
  {
    var r := Delete(t, Some(i)).value;
    assert t == t[..i] + [t[i]] + t[i + 1..];
    assert r == t[..i] + t[i + 1..];
  }

  /** Each operation keeps every row's derived fields in agreement with its inputs. */
  lemma OperationsPreserveConsistency(t: seq<Row>, u: string, date: string, d: Option<string>, sel: Option<nat>,
                                      current: Option<int>, rate: Option<real>, now: string)
    requires AllConsistent(t)
    requires sel.Some? ==> sel.value < |t|
    ensures Add(t, u, date, current, rate, now).Ok? ==> AllConsistent(Add(t, u, date, current, rate, now).value)
    ensures Edit(t, sel, d, current, rate, now).Ok? ==> AllConsistent(Edit(t, sel, d, current, rate, now).value)
    ensures EditAgainstOthers(t, sel, d, current, rate, now).Ok? ==>
      AllConsistent(EditAgainstOthers(t, sel, d, current, rate, now).value)
    ensures Delete(t, sel).Ok? ==> AllConsistent(Delete(t, sel).value)
  {
    var a := Add(t, u, date, current, rate, now);
    if a.Ok? {
      forall i | 0 <= i < |a.value| ensures Consistent(a.value[i]) {
        if i < |t| {
          assert a.value[..|t|][i] == a.value[i];
        }
      }
    }
    var dl := Delete(t, sel);
    if dl.Ok? {
      var k := sel.value;
      forall i | 0 <= i < |dl.value| ensures Consistent(dl.value[i]) {
        if i < k {
          assert dl.value[..k][i] == dl.value[i];
        } else {
          assert dl.value[k..][i - k] == dl.value[i];
        }
      }
    }
  }

}
