/** Worked examples for the per-utility dictation lists. */
module DictationScenarios {
  import opened Results
  import opened UtilityNames
  import opened Dictations

  /** The registry after one gas dictation of 150 dated in February. */
  function AfterFebruary(): (reg: Registry)
    ensures WellFormed(reg)
  {
    var r := Save(Initial(), Gas, Some(150.0), "2024-02-01", "2024-02-01 08:00:00");
    SavePreservesWellFormed(Initial(), Gas, Some(150.0), "2024-02-01", "2024-02-01 08:00:00");
    r.value
  }

  /**
    A reading dated earlier but entered later is still measured from the
    last one entered: 100 after 150 consumes -50 and bills -5000.
   */
  lemma InsertionOrderNotDateOrder()
    ensures var r := Save(AfterFebruary(), Gas, Some(100.0), "2024-01-01", "2024-02-02 08:00:00");
      && r.Ok?
      && r.value[0].dictations[1].consumption == -50.0
      && r.value[0].dictations[1].bill == -5000.0
  {
    var reg := Initial();
    SavedDictation(reg, Gas, 150.0, "2024-02-01", "2024-02-01 08:00:00");
    var reg1 := AfterFebruary();
    assert reg1[0].dictations[0].value == 150.0;
    SavedDictation(reg1, Gas, 100.0, "2024-01-01", "2024-02-02 08:00:00");
  }

  /** A file whose one complete row holds a value that is not a number stops the program at start-up. */
  lemma UnparsableValueStopsStartUp(parse: string -> Option<real>)
    requires parse("abc") == None
    ensures Start(Some([Header, [Gas, "abc", "2024-01-01", "1", "1", "t"]]), parse) == None
  {
    var row := [Gas, "abc", "2024-01-01", "1", "1", "t"];
    HeaderColumns();
    assert Field(Header, row, "Value") == Some("abc");
    assert Complete(Header, row);
    CompleteRowsSingle(Header, row);
    assert [Header, row][1..] == [row];
  }

  /** An entry of 0 is refused, and nothing is recorded for any utility. */
  lemma ZeroIsRefused()
    ensures Save(AfterFebruary(), Water, Some(0.0), "2024-03-01", "2024-03-01 08:00:00") == Err(MissingFields)
  {
  }

}
