/**
  Worked examples for the reading table: two gas readings priced one after
  the other, and a correction of the second one.
 */
module ReadingScenarios {
  import opened Results
  import opened DateOrder
  import opened UtilityNames
  import opened ReadingTable

  /** The first gas reading: 100 units at 50 per unit. */
  const First: Row := Row(Gas, "2024-01-15", 0.0, Num(100.0), 100.0, 50.0, 5000.0, "2024-01-15 08:00:00")

  /** The second gas reading: 150 units at 50 per unit. */
  const Second: Row := Row(Gas, "2024-02-15", 100.0, Num(150.0), 50.0, 50.0, 2500.0, "2024-02-15 08:00:00")

  lemma GasIsNotPlaceholder()
    ensures Gas != Placeholder
  {
    assert |Gas| != |Placeholder|;
  }

  /** The first reading of a utility has nothing before it: previous 0, consumption 100, bill 5000. */
  lemma FirstGasReading()
    ensures Add([], Gas, "2024-01-15", Some(100), Some(50.0), "2024-01-15 08:00:00") == Ok([First])
  {
    GasIsNotPlaceholder();
    FirstPriced();
    assert [] + [First] == [First];
  }

  /** Priced against the empty table, the first reading is the row `First`. */
  lemma FirstPriced()
    ensures PricedRow([], Gas, "2024-01-15", 100, 50.0, "2024-01-15 08:00:00") == First
  {
    var priced := PricedRow([], Gas, "2024-01-15", 100, 50.0, "2024-01-15 08:00:00");
    assert priced.previous == 0.0 && priced.consumption == 100.0;
    SameRow(priced, First);
  }

  /** The second reading is measured from the first: previous 100, consumption 50, bill 2500. */
  lemma SecondGasReading()
    ensures Add([First], Gas, "2024-02-15", Some(150), Some(50.0), "2024-02-15 08:00:00") == Ok([First, Second])
  {
    GasIsNotPlaceholder();
    OnlyRow(First);
    var priced := PricedRow([First], Gas, "2024-02-15", 150, 50.0, "2024-02-15 08:00:00");
    assert priced.previous == 100.0 && priced.consumption == 50.0;
    SameRow(priced, Second);
    assert [First] + [priced] == [First, Second];
  }

  /** Rows that agree field by field are the same row. */
  lemma SameRow(a: Row, b: Row)
    requires a.utility == b.utility && a.date == b.date && a.previous == b.previous && a.current == b.current
    requires a.consumption == b.consumption && a.rate == b.rate && a.bill == b.bill && a.lastModified == b.lastModified
    ensures a == b
  {
  }

  /** A table of one row: that row is the latest of its utility. */
  lemma OnlyRow(a: Row)
    ensures PreviousValue([a], a.utility) == Coerce(a.current)
  {
    TextLeReflexive(a.date);
    assert IsLatest([a], a.utility, 0);
    PreviousValueUniqueLatest([a], a.utility, 0);
  }

  /** A two-row table of one utility whose second row is strictly later. */
  lemma LaterOfTwo(a: Row, b: Row)
    requires a.utility == b.utility
    requires TextLe(a.date, b.date) && !TextLe(b.date, a.date)
    ensures IsLatest([a, b], b.utility, 1)
    ensures PreviousValue([a, b], b.utility) == Coerce(b.current)
  {
    TextLeReflexive(b.date);
    var t := [a, b];
    assert IsLatest(t, b.utility, 1) by {
      forall j | 0 <= j < |t| && t[j].utility == b.utility ensures TextLe(t[j].date, t[1].date) {
        if j == 0 { assert t[0] == a; } else { assert t[1] == b; }
      }
    }
    PreviousValueUniqueLatest(t, b.utility, 1);
  }

  /** The first reading's date sorts strictly before the second's. */
  lemma JanuaryBeforeFebruary()
    ensures TextLe(First.date, Second.date) && !TextLe(Second.date, First.date)
  {
    var a: string, b: string := "2024-01-15", "2024-02-15";
    assert a[..6] == b[..6] == "2024-0";
    TextLeAtFirstDifference(a, b, 6);
  }

  /** The second reading is the latest gas row of the two-row table. */
  lemma SecondIsLatest()
    ensures IsLatest([First, Second], Gas, 1)
    ensures PreviousValue([First, Second], Gas) == 150.0
  {
    JanuaryBeforeFebruary();
    LaterOfTwo(First, Second);
  }

  /**
    Correcting the second reading from 150 to 160: the edit as written finds
    the row's own old reading (150) as the latest one, so the consumption
    becomes 10 and the bill 500, instead of 60 and 3000 over the first reading.
   */
  lemma EditSecondReadingAsWritten()
    ensures var r := Edit([First, Second], Some(1), Some("2024-02-15"), Some(160), Some(50.0), "2024-02-16 09:00:00");
      && r.Ok?
      && r.value[0] == First
      && r.value[1].previous == 150.0 && r.value[1].consumption == 10.0 && r.value[1].bill == 500.0
  {
    SecondIsLatest();
  }

  /** The same correction when the lookup disregards the edited row: consumption 60, bill 3000. */
  lemma EditSecondReadingAgainstOthers()
    ensures var r := EditAgainstOthers([First, Second], Some(1), Some("2024-02-15"), Some(160), Some(50.0), "2024-02-16 09:00:00");
      && r.Ok?
      && r.value[0] == First
      && r.value[1].previous == 100.0 && r.value[1].consumption == 60.0 && r.value[1].bill == 3000.0
  {
    var t := [First, Second];
    var r := EditAgainstOthers(t, Some(1), Some("2024-02-15"), Some(160), Some(50.0), "2024-02-16 09:00:00");
    assert t[0].utility == Gas;
    assert HasOtherRow(t, Gas, 1);
    var j :| IsLatestOther(t, Gas, 1, j) && r.value[1].previous == Coerce(t[j].current);
    assert j == 0;
  }

  /** A row whose stored reading is not a number cannot be edited, whatever is entered. */
  lemma NonNumericRowIsNotEdited(date: Option<string>, current: Option<int>, rate: Option<real>, now: string)
    ensures Edit([First.(current := NotNumeric)], Some(0), date, current, rate, now) == Err(InvalidInput)
  {
  }

}
