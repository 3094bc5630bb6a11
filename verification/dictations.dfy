/**
  The per-utility dictation lists of the tkinter `UtilityApp`: every utility
  keeps a fixed price and an append-only list of dictations, a new dictation
  is measured from the last one appended, the lists are written out as a
  six-column CSV grouped by utility, and the file is read back into the view
  keeping only rows whose required fields are all filled in.

  The CSV module's text quoting is not modelled: a file is a sequence of rows
  of cells. How a number is written (`str` of a float) and read (`float`) is
  not modelled either: `show` and `parse` are parameters, and `parse` answers
  `None` where `float` raises.
 */
module Dictations {
  import opened Results
  import opened UtilityNames

  /** Every utility starts at this price per unit. */
  const InitialPrice: real := 100.0

  /** The header row of the CSV file. */
  const Header: seq<string> := ["Utility", "Value", "Date", "Consumption", "Bill", "Timestamp"]

  datatype Dictation = Dictation(value: real, date: string, timestamp: string, consumption: real, bill: real)

  datatype Utility = Utility(name: string, unit: string, price: real, dictations: seq<Dictation>)

  /** The `utilities` dictionary, as its entries in insertion order. */
  type Registry = seq<Utility>

  /** Why "Save Dictation" recorded nothing. */
  datatype SaveError =
    | NotANumber      // the value entry does not hold a number
    | MissingFields   // value not positive, or no date
    | UnknownUtility  // the selected name is not a key of the dictionary

  // ---------------------------------------------------------------------
  // The registry and its invariant
  // ---------------------------------------------------------------------

  predicate DistinctNames(reg: Registry)
  {
    forall i, j :: 0 <= i < j < |reg| ==> reg[i].name != reg[j].name
  }

  /** The reading a dictation is measured from: the one appended just before it, or 0 for the first. */
  function PriorValue(ds: seq<Dictation>, i: nat): real
    requires i < |ds|
  {
    if i == 0 then 0.0 else ds[i - 1].value
  }

  /** Every dictation's consumption is its excess over the dictation appended before it. */
  ghost predicate Measured(ds: seq<Dictation>)
  {
    forall i :: 0 <= i < |ds| ==> ds[i].consumption == ds[i].value - PriorValue(ds, i)
  }

  /** Every dictation's bill is its consumption at `price`. */
  ghost predicate Billed(ds: seq<Dictation>, price: real)
  {
    forall i :: 0 <= i < |ds| ==> ds[i].bill == ds[i].consumption * price
  }

  /** Every dictation's consumption and bill follow from the list order and the price. */
  ghost predicate Chained(ds: seq<Dictation>, price: real)
  {
    Measured(ds) && Billed(ds, price)
  }

  /** Every dictation passed the entry checks. */
  ghost predicate Accepted(ds: seq<Dictation>)
  {
    forall i :: 0 <= i < |ds| ==> ds[i].value > 0.0 && ds[i].date != ""
  }

  /** What every utility of a reachable registry satisfies. */
  ghost predicate UtilityOk(u: Utility)
  {
    u.name != "" && Chained(u.dictations, u.price) && Accepted(u.dictations)
  }

  /** What every reachable registry satisfies. */
  ghost predicate WellFormed(reg: Registry)
  {
    DistinctNames(reg) && forall i :: 0 <= i < |reg| ==> UtilityOk(reg[i])
  }

  /** The dictionary built when the application starts: three utilities, price 100, no dictations. */
  function Initial(): (reg: Registry)
    ensures WellFormed(reg)
    ensures |reg| == 3 && reg[0].name == Gas && reg[1].name == Electricity && reg[2].name == Water
    ensures forall i :: 0 <= i < |reg| ==> reg[i].price == InitialPrice && reg[i].dictations == []
  {
    [ Utility(Gas, "m3", InitialPrice, []),
      Utility(Electricity, "kWh", InitialPrice, []),
      Utility(Water, "m3", InitialPrice, []) ]
  }

  /** The position of the entry called `name`, the first one if several are. */
  function Find(reg: Registry, name: string): (r: Option<nat>)
    ensures r.None? <==> forall j :: 0 <= j < |reg| ==> reg[j].name != name
    ensures r.Some? ==> r.value < |reg| && reg[r.value].name == name
    ensures r.Some? ==> forall j :: 0 <= j < r.value ==> reg[j].name != name
  {
    if |reg| == 0 then None
    else if reg[0].name == name then Some(0)
    else
      match Find(reg[1..], name)
      case None => None
      case Some(k) => Some(k + 1)
  }

  // ---------------------------------------------------------------------
  // Saving a dictation
  // ---------------------------------------------------------------------

  /** The consumption of a new reading: its excess over the last appended one, or all of it for the first. */
  function NextConsumption(ds: seq<Dictation>, value: real): real
  {
    if |ds| == 0 then value else value - ds[|ds| - 1].value
  }

  /**
    `save_dictation`: a value that is not positive or a missing date records
    nothing; otherwise one dictation, measured from the last one appended
    for that utility and billed at its price, is appended to that utility's
    list, and no other list changes.
   */
  function Save(reg: Registry, utility: string, value: Option<real>, date: string, now: string)
    : (r: Result<Registry, SaveError>)
    ensures value.None? ==> r == Err(NotANumber)
    ensures value.Some? && (value.value <= 0.0 || date == "") ==> r == Err(MissingFields)
    ensures value.Some? && value.value > 0.0 && date != "" && Find(reg, utility).None? ==> r == Err(UnknownUtility)
    ensures r.Ok? <==> value.Some? && value.value > 0.0 && date != "" && Find(reg, utility).Some?
    ensures r.Ok? ==>
      var k := Find(reg, utility).value;
      && |r.value| == |reg|
      && (forall j :: 0 <= j < |reg| && j != k ==> r.value[j] == reg[j])
      && r.value[k].name == utility
      && r.value[k].unit == reg[k].unit
      && r.value[k].price == reg[k].price
      && |r.value[k].dictations| == |reg[k].dictations| + 1
      && r.value[k].dictations[..|reg[k].dictations|] == reg[k].dictations
  {
    match value
    case None => Err(NotANumber)
    case Some(v) =>
      if v <= 0.0 || date == "" then Err(MissingFields)
      else
        match Find(reg, utility)
        case None => Err(UnknownUtility)
        case Some(k) => Ok(reg[k := Record(reg[k], v, date, now)])
  }

  /** The entry after one dictation is appended: measured from the last one and billed at the entry's price. */
  function Record(u: Utility, v: real, date: string, now: string): Utility
  {
    var c := NextConsumption(u.dictations, v);
    u.(dictations := u.dictations + [Dictation(v, date, now, c, c * u.price)])
  }

  /** The dictation a successful save appends: the given value, date and time, chained to the list before it. */
  lemma SavedDictation(reg: Registry, utility: string, v: real, date: string, now: string)
    requires Save(reg, utility, Some(v), date, now).Ok?
    ensures var k := Find(reg, utility).value;
      var ds := reg[k].dictations;
      var d := Save(reg, utility, Some(v), date, now).value[k].dictations[|ds|];
      && d.value == v && d.date == date && d.timestamp == now
      && (|ds| == 0 ==> d.consumption == v)
      && (|ds| > 0 ==> d.consumption == v - ds[|ds| - 1].value)
      && d.bill == d.consumption * reg[k].price
  {
  }

  /** Saving keeps the registry well formed: in particular every list stays chained. */
  lemma SavePreservesWellFormed(reg: Registry, utility: string, value: Option<real>, date: string, now: string)
    requires WellFormed(reg)
    requires Save(reg, utility, value, date, now).Ok?
    ensures WellFormed(Save(reg, utility, value, date, now).value)
  {
    SaveKeepsNames(reg, utility, value, date, now);
    SaveKeepsUtilitiesOk(reg, utility, value, date, now);
  }

  lemma SaveKeepsNames(reg: Registry, utility: string, value: Option<real>, date: string, now: string)
    requires DistinctNames(reg)
    requires Save(reg, utility, value, date, now).Ok?
    ensures DistinctNames(Save(reg, utility, value, date, now).value)
  {
    var r := Save(reg, utility, value, date, now).value;
    var k := Find(reg, utility).value;
    forall i, j | 0 <= i < j < |r| ensures r[i].name != r[j].name {
      assert r[i].name == reg[i].name && r[j].name == reg[j].name;
    }
  }

  lemma SaveKeepsUtilitiesOk(reg: Registry, utility: string, value: Option<real>, date: string, now: string)
    requires forall i :: 0 <= i < |reg| ==> UtilityOk(reg[i])
    requires Save(reg, utility, value, date, now).Ok?
    ensures var r := Save(reg, utility, value, date, now).value;
      forall i :: 0 <= i < |r| ==> UtilityOk(r[i])
  {
    var k := Find(reg, utility).value;
    SavedUtilityOk(reg, utility, value.value, date, now, k);
    ReplaceKeepsUtilitiesOk(reg, Save(reg, utility, value, date, now).value, k);
  }

  /** The utility a save appends to, at position `k`, stays well formed. */
  lemma SavedUtilityOk(reg: Registry, utility: string, v: real, date: string, now: string, k: nat)
    requires Save(reg, utility, Some(v), date, now).Ok?
    requires k == Find(reg, utility).value
    requires UtilityOk(reg[k])
    ensures UtilityOk(Save(reg, utility, Some(v), date, now).value[k])
  {
    assert Save(reg, utility, Some(v), date, now).value[k] == Record(reg[k], v, date, now);
    RecordKeepsUtilityOk(reg[k], v, date, now);
  }

  lemma RecordKeepsUtilityOk(u: Utility, v: real, date: string, now: string)
    requires UtilityOk(u) && v > 0.0 && date != ""
    ensures UtilityOk(Record(u, v, date, now))
  {
    var u' := Record(u, v, date, now);
    AppendKeepsUtilityOk(u, u', u'.dictations[|u.dictations|]);
  }

  /** Replacing one well-formed utility by another keeps every utility well formed. */
  lemma ReplaceKeepsUtilitiesOk(reg: Registry, r: Registry, k: nat)
    requires forall i :: 0 <= i < |reg| ==> UtilityOk(reg[i])
    requires |r| == |reg| && k < |r| && UtilityOk(r[k])
    requires forall j :: 0 <= j < |reg| && j != k ==> r[j] == reg[j]
    ensures forall i :: 0 <= i < |r| ==> UtilityOk(r[i])
  {
  }

  /** A utility that gains one accepted dictation measured from its last one stays well formed. */
  lemma AppendKeepsUtilityOk(u: Utility, u': Utility, d: Dictation)
    requires UtilityOk(u)
    requires u'.name == u.name && u'.price == u.price && u'.dictations == u.dictations + [d]
    requires d.value > 0.0 && d.date != ""
    requires d.consumption == NextConsumption(u.dictations, d.value) && d.bill == d.consumption * u.price
    ensures UtilityOk(u')
  {
    var ds := u.dictations;
    ChainedAppend(ds, u.price, d);
    forall i | 0 <= i < |ds| + 1 ensures (ds + [d])[i].value > 0.0 && (ds + [d])[i].date != "" {
      if i < |ds| {
        assert (ds + [d])[i] == ds[i];
      }
    }
  }

  /** Appending a dictation measured from the last one keeps a list chained. */
  lemma ChainedAppend(ds: seq<Dictation>, price: real, d: Dictation)
    requires Chained(ds, price)
    requires d.consumption == NextConsumption(ds, d.value) && d.bill == d.consumption * price
    ensures Chained(ds + [d], price)
  {
    MeasuredAppend(ds, d);
    BilledAppend(ds, price, d);
  }

  lemma MeasuredAppend(ds: seq<Dictation>, d: Dictation)
    requires Measured(ds)
    requires d.consumption == NextConsumption(ds, d.value)
    ensures Measured(ds + [d])
  {
    var ds' := ds + [d];
    forall i | 0 <= i < |ds'|
      ensures ds'[i].consumption == ds'[i].value - PriorValue(ds', i)
    {
      if i < |ds| {
        assert ds'[i] == ds[i];
        assert PriorValue(ds', i) == PriorValue(ds, i);
      } else {
        assert ds'[i] == d;
        if 0 < i {
          assert ds'[i - 1] == ds[|ds| - 1];
        }
      }
    }
  }

  lemma BilledAppend(ds: seq<Dictation>, price: real, d: Dictation)
    requires Billed(ds, price)
    requires d.bill == d.consumption * price
    ensures Billed(ds + [d], price)
  {
    var ds' := ds + [d];
    forall i | 0 <= i < |ds'|
      ensures ds'[i].bill == ds'[i].consumption * price
    {
      if i < |ds| {
        assert ds'[i] == ds[i];
      }
    }
  }

  /** The sum of the consumptions of a list. */
  function TotalConsumption(ds: seq<Dictation>): real
  {
    if |ds| == 0 then 0.0 else TotalConsumption(ds[..|ds| - 1]) + ds[|ds| - 1].consumption
  }

  /** The sum of the bills of a list. */
  function TotalBill(ds: seq<Dictation>): real
  {
    if |ds| == 0 then 0.0 else TotalBill(ds[..|ds| - 1]) + ds[|ds| - 1].bill
  }

  /**
    Consumptions measured from the previous appended reading add up to the
    last reading, and the bills to the last reading times the price.
   */
  lemma {:induction false} ConsumptionTelescopes(ds: seq<Dictation>)
    requires Measured(ds)
    ensures TotalConsumption(ds) == (if |ds| == 0 then 0.0 else ds[|ds| - 1].value)
    decreases |ds|
  {
    if |ds| > 0 {
      var n := |ds| - 1;
      MeasuredPrefix(ds);
      ConsumptionTelescopes(ds[..n]);
      assert ds[n].consumption == ds[n].value - PriorValue(ds, n);
      assert n > 0 ==> ds[..n][n - 1] == ds[n - 1];
    }
  }

  /** The bills of a chained list add up to its total consumption times the price. */
  lemma {:induction false} BillsAddUp(ds: seq<Dictation>, price: real)
    requires Billed(ds, price)
    ensures TotalBill(ds) == TotalConsumption(ds) * price
    decreases |ds|
  {
    if |ds| > 0 {
      var n := |ds| - 1;
      BilledPrefix(ds, price);
      BillsAddUp(ds[..n], price);
      var c := TotalConsumption(ds[..n]);
      var last := ds[n];
      assert last.bill == last.consumption * price;
      assert (c + last.consumption) * price == c * price + last.consumption * price;
    }
  }

  /** Dropping the last dictation keeps a list measured. */
  lemma MeasuredPrefix(ds: seq<Dictation>)
    requires |ds| > 0 && Measured(ds)
    ensures Measured(ds[..|ds| - 1])
  {
    var init := ds[..|ds| - 1];
    forall i | 0 <= i < |init|
      ensures init[i].consumption == init[i].value - PriorValue(init, i)
    {
      assert init[i] == ds[i];
      assert PriorValue(init, i) == PriorValue(ds, i);
    }
  }

  /** Dropping the last dictation keeps a list billed. */
  lemma BilledPrefix(ds: seq<Dictation>, price: real)
    requires |ds| > 0 && Billed(ds, price)
    ensures Billed(ds[..|ds| - 1], price)
  {
    var init := ds[..|ds| - 1];
    forall i | 0 <= i < |init|
      ensures init[i].bill == init[i].consumption * price
    {
      assert init[i] == ds[i];
    }
  }

  // ---------------------------------------------------------------------
  // Writing the file
  // ---------------------------------------------------------------------

  /** The CSV row of one dictation of utility `name`. */
  function DictationRow(name: string, d: Dictation, show: real -> string): seq<string>
  {
    [name, show(d.value), d.date, show(d.consumption), show(d.bill), d.timestamp]
  }

  /** The rows of the dictations `ds` of utility `name`, in the order they were appended. */
  function GroupRows(name: string, ds: seq<Dictation>, show: real -> string): (rows: seq<seq<string>>)
    ensures |rows| == |ds|
    ensures forall j :: 0 <= j < |rows| ==> rows[j] == DictationRow(name, ds[j], show)
  {
    if |ds| == 0 then [] else [DictationRow(name, ds[0], show)] + GroupRows(name, ds[1..], show)
  }

  /** The number of dictations over all utilities. */
  function TotalDictations(reg: Registry): nat
  {
    if |reg| == 0 then 0 else |reg[0].dictations| + TotalDictations(reg[1..])
  }

  /** The rows of every utility, utility after utility in dictionary order. */
  function BodyRows(reg: Registry, show: real -> string): (rows: seq<seq<string>>)
    ensures |rows| == TotalDictations(reg)
  {
    if |reg| == 0 then [] else GroupRows(reg[0].name, reg[0].dictations, show) + BodyRows(reg[1..], show)
  }

  /** `save_to_csv`: the header, then one row per dictation. */
  function Serialise(reg: Registry, show: real -> string): (file: seq<seq<string>>)
    ensures |file| == 1 + TotalDictations(reg)
    ensures file[0] == Header
  {
    [Header] + BodyRows(reg, show)
  }

  /**
    Dictation `j` of utility `k` sits after the header and after every row
    of the utilities before `k`.
   */
  lemma {:induction false} SerialisedRowAt(reg: Registry, show: real -> string, k: nat, j: nat)
    requires k < |reg| && j < |reg[k].dictations|
    ensures 1 + TotalDictations(reg[..k]) + j < |Serialise(reg, show)|
    ensures Serialise(reg, show)[1 + TotalDictations(reg[..k]) + j] == DictationRow(reg[k].name, reg[k].dictations[j], show)
  {
    BodyRowAt(reg, show, k, j);
  }

  lemma {:induction false} BodyRowAt(reg: Registry, show: real -> string, k: nat, j: nat)
    requires k < |reg| && j < |reg[k].dictations|
    ensures TotalDictations(reg[..k]) + j < |BodyRows(reg, show)|
    ensures BodyRows(reg, show)[TotalDictations(reg[..k]) + j] == DictationRow(reg[k].name, reg[k].dictations[j], show)
    decreases k
  {
    var g := GroupRows(reg[0].name, reg[0].dictations, show);
    var rest := BodyRows(reg[1..], show);
    assert BodyRows(reg, show) == g + rest;
    if k == 0 {
      assert reg[..0] == [];
      assert (g + rest)[j] == g[j];
    } else {
      TotalDictationsBefore(reg, k);
      assert reg[1..][k - 1] == reg[k];
      BodyRowAt(reg[1..], show, k - 1, j);
      AfterPrefix(g, rest, TotalDictations(reg[1..][..k - 1]) + j);
    }
  }

  /** Index `n` of the rows that follow a prefix is index `|g| + n` of the whole. */
  lemma AfterPrefix(g: seq<seq<string>>, rest: seq<seq<string>>, n: nat)
    requires n < |rest|
    ensures |g| + n < |g + rest| && (g + rest)[|g| + n] == rest[n]
  {
  }

  /** The rows before utility `k` are those of the first utility and the rows before `k` in the rest. */
  lemma TotalDictationsBefore(reg: Registry, k: nat)
    requires 0 < k <= |reg|
    ensures TotalDictations(reg[..k]) == |reg[0].dictations| + TotalDictations(reg[1..][..k - 1])
  {
    assert reg[..k][0] == reg[0];
    assert reg[..k][1..] == reg[1..][..k - 1];
  }

  /** A file that does not exist yet is created holding the header alone; an existing one is left as it is. */
  function CreateIfAbsent(file: Option<seq<seq<string>>>): (f: seq<seq<string>>)
    ensures file.None? ==> f == [Header]
    ensures file.Some? ==> f == file.value
  {
    file.GetOr([Header])
  }

  // ---------------------------------------------------------------------
  // Reading the file back into the view
  // ---------------------------------------------------------------------

  /** A row of the view. */
  datatype Shown = Shown(utility: string, value: real, date: string, consumption: real, bill: real)

  /** Where a column is found: the last header cell with that name wins, as when a dictionary is built from the header. */
  function LastIndexOf(header: seq<string>, key: string): (r: Option<nat>)
    ensures r.None? <==> forall i :: 0 <= i < |header| ==> header[i] != key
    ensures r.Some? ==> r.value < |header| && header[r.value] == key
    ensures r.Some? ==> forall i :: r.value < i < |header| ==> header[i] != key
    decreases |header|
  {
    if |header| == 0 then None
    else if header[|header| - 1] == key then Some(|header| - 1)
    else LastIndexOf(header[..|header| - 1], key)
  }

  /** The cell of `row` under column `key`; `None` when there is no such column or the row is too short. */
  function Field(header: seq<string>, row: seq<string>, key: string): Option<string>
  {
    match LastIndexOf(header, key)
    case None => None
    case Some(i) => if i < |row| then Some(row[i]) else None
  }

  /** The cell under `key` exists and is not empty. */
  predicate Filled(header: seq<string>, row: seq<string>, key: string)
  {
    Field(header, row, key).Some? && Field(header, row, key).value != ""
  }

  /** All of Utility, Value, Date, Consumption and Bill are filled in; Timestamp is not required. */
  predicate Complete(header: seq<string>, row: seq<string>)
  {
    && Filled(header, row, "Utility")
    && Filled(header, row, "Value")
    && Filled(header, row, "Date")
    && Filled(header, row, "Consumption")
    && Filled(header, row, "Bill")
  }

  /** The view row of a complete file row, when its three numbers parse. */
  function ToShown(header: seq<string>, row: seq<string>, parse: string -> Option<real>): (s: Option<Shown>)
    requires Complete(header, row)
    ensures s.Some? <==> parse(Field(header, row, "Value").value).Some?
                         && parse(Field(header, row, "Consumption").value).Some?
                         && parse(Field(header, row, "Bill").value).Some?
    ensures s.Some? ==> s.value.utility == Field(header, row, "Utility").value
                        && s.value.date == Field(header, row, "Date").value
    ensures s.Some? ==> && Some(s.value.value) == parse(Field(header, row, "Value").value)
                        && Some(s.value.consumption) == parse(Field(header, row, "Consumption").value)
                        && Some(s.value.bill) == parse(Field(header, row, "Bill").value)
  {
    var value := parse(Field(header, row, "Value").value);
    var consumption := parse(Field(header, row, "Consumption").value);
    var bill := parse(Field(header, row, "Bill").value);
    if value.Some? && consumption.Some? && bill.Some? then
      Some(Shown(Field(header, row, "Utility").value, value.value, Field(header, row, "Date").value,
                 consumption.value, bill.value))
    else
      None
  }

  /** The complete rows of a file body, in file order. */
  function CompleteRows(header: seq<string>, rows: seq<seq<string>>): (c: seq<seq<string>>)
    ensures |c| <= |rows|
    ensures forall i :: 0 <= i < |c| ==> Complete(header, c[i])
    ensures forall r :: r in c <==> r in rows && Complete(header, r)
  {
    if |rows| == 0 then []
    else
      assert rows == [rows[0]] + rows[1..];
      if Complete(header, rows[0]) then [rows[0]] + CompleteRows(header, rows[1..])
      else CompleteRows(header, rows[1..])
  }

  /** Filtering a file body piecewise gives the same rows in the same order. */
  lemma {:induction false} CompleteRowsAppend(header: seq<string>, a: seq<seq<string>>, b: seq<seq<string>>)
    ensures CompleteRows(header, a + b) == CompleteRows(header, a) + CompleteRows(header, b)
    decreases |a|
  {
    if |a| > 0 {
      assert (a + b)[0] == a[0] && (a + b)[1..] == a[1..] + b;
      CompleteRowsAppend(header, a[1..], b);
    } else {
      assert a + b == b;
    }
  }

  /** A body of one row keeps it exactly when it is complete. */
  lemma CompleteRowsSingle(header: seq<string>, row: seq<string>)
    ensures CompleteRows(header, [row]) == if Complete(header, row) then [row] else []
  {
    assert [row][1..] == [];
  }

  /**
    `shown` is what parsing the complete rows `c` in order gives until the
    first one whose numbers do not parse.
   */
  ghost predicate ParsedUpTo(header: seq<string>, c: seq<seq<string>>, shown: seq<Shown>, parse: string -> Option<real>)
    requires forall i :: 0 <= i < |c| ==> Complete(header, c[i])
  {
    && |shown| <= |c|
    && (forall i :: 0 <= i < |shown| ==> ToShown(header, c[i], parse) == Some(shown[i]))
    && (|shown| < |c| ==> ToShown(header, c[|shown|], parse).None?)
  }

  /**
    The `load_data` loop: incomplete rows are skipped; a complete row whose
    number does not parse stops the loop, the rows shown so far staying.
   */
  function LoadRows(header: seq<string>, rows: seq<seq<string>>, parse: string -> Option<real>): (shown: seq<Shown>)
    ensures |shown| <= |rows|
  {
    if |rows| == 0 then []
    else if !Complete(header, rows[0]) then LoadRows(header, rows[1..], parse)
    else
      match ToShown(header, rows[0], parse)
      case None => []
      case Some(s) => [s] + LoadRows(header, rows[1..], parse)
  }

  /** Loading shows the parsed complete rows in file order, up to the first whose numbers do not parse. */
  lemma {:induction false} LoadRowsStopsAtFailure(header: seq<string>, rows: seq<seq<string>>, parse: string -> Option<real>)
    ensures ParsedUpTo(header, CompleteRows(header, rows), LoadRows(header, rows, parse), parse)
    decreases |rows|
  {
    if |rows| > 0 {
      LoadRowsStopsAtFailure(header, rows[1..], parse);
      if Complete(header, rows[0]) {
        var s := ToShown(header, rows[0], parse);
        if s.Some? {
          ParsedCons(header, rows[0], CompleteRows(header, rows[1..]), s.value, LoadRows(header, rows[1..], parse), parse);
        }
      }
    }
  }

  lemma ParsedCons(header: seq<string>, row: seq<string>, c: seq<seq<string>>, s: Shown, shown: seq<Shown>,
                   parse: string -> Option<real>)
    requires Complete(header, row) && ToShown(header, row, parse) == Some(s)
    requires forall i :: 0 <= i < |c| ==> Complete(header, c[i])
    requires ParsedUpTo(header, c, shown, parse)
    ensures forall i :: 0 <= i < |[row] + c| ==> Complete(header, ([row] + c)[i])
    ensures ParsedUpTo(header, [row] + c, [s] + shown, parse)
  {
    var c', shown' := [row] + c, [s] + shown;
    forall i | 0 <= i < |c'| ensures Complete(header, c'[i]) {
      if 0 < i { assert c'[i] == c[i - 1]; }
    }
    forall i | 0 <= i < |shown'| ensures ToShown(header, c'[i], parse) == Some(shown'[i]) {
      if 0 < i { assert c'[i] == c[i - 1] && shown'[i] == shown[i - 1]; }
    }
    if |shown'| < |c'| {
      assert c'[|shown'|] == c[|shown|];
    }
  }

  /** Reading the whole file: the first row names the columns. */
  function Load(file: seq<seq<string>>, parse: string -> Option<real>): (shown: seq<Shown>)
    ensures |file| <= 1 ==> shown == []
  {
    if |file| == 0 then [] else LoadRows(file[0], file[1..], parse)
  }

  // ---------------------------------------------------------------------
  // Writing then reading
  // ---------------------------------------------------------------------

  /**
    The three numbers of dictation `d`, as written by `show`, read back
    unchanged, and an empty cell is not a number. Only the numbers actually
    written are asked for: no `show` writes every real distinctly.
   */
  predicate FaithfulOn(show: real -> string, parse: string -> Option<real>, d: Dictation)
  {
    && parse("") == None
    && parse(show(d.value)) == Some(d.value)
    && parse(show(d.consumption)) == Some(d.consumption)
    && parse(show(d.bill)) == Some(d.bill)
  }

  /** Every dictation of `ds` reads back as written. */
  ghost predicate FaithfulAll(show: real -> string, parse: string -> Option<real>, ds: seq<Dictation>)
  {
    forall d :: d in ds ==> FaithfulOn(show, parse, d)
  }

  /** Every dictation of every utility reads back as written. */
  ghost predicate FaithfulReg(show: real -> string, parse: string -> Option<real>, reg: Registry)
  {
    forall i :: 0 <= i < |reg| ==> FaithfulAll(show, parse, reg[i].dictations)
  }

  /** The view of one dictation. */
  function ShownOf(name: string, d: Dictation): Shown
  {
    Shown(name, d.value, d.date, d.consumption, d.bill)
  }

  /** The view rows of the dictations `ds` of utility `name`, in order. */
  function GroupShown(name: string, ds: seq<Dictation>): (v: seq<Shown>)
    ensures |v| == |ds|
    ensures forall j :: 0 <= j < |v| ==> v[j] == ShownOf(name, ds[j])
  {
    if |ds| == 0 then [] else [ShownOf(name, ds[0])] + GroupShown(name, ds[1..])
  }

  /** What the view should hold: every dictation, utility after utility. */
  function AllShown(reg: Registry): (v: seq<Shown>)
    ensures |v| == TotalDictations(reg)
  {
    if |reg| == 0 then [] else GroupShown(reg[0].name, reg[0].dictations) + AllShown(reg[1..])
  }

  /** The five required columns sit at positions 0 to 4 of the header the file is written with. */
  lemma HeaderColumns()
    ensures LastIndexOf(Header, "Utility") == Some(0)
    ensures LastIndexOf(Header, "Value") == Some(1)
    ensures LastIndexOf(Header, "Date") == Some(2)
    ensures LastIndexOf(Header, "Consumption") == Some(3)
    ensures LastIndexOf(Header, "Bill") == Some(4)
  {
    var h := Header;
    assert |h| == 6;
    assert h[0] == "Utility" && h[1] == "Value" && h[2] == "Date";
    assert h[3] == "Consumption" && h[4] == "Bill" && h[5] == "Timestamp";
    // Names of different lengths differ; "Date" and "Bill" differ in their first letter.
    assert h[2][0] != h[4][0];
    forall key, i | 0 <= i < 5 && key == h[i]
      ensures LastIndexOf(h, key) == Some(i)
    {
      assert h[i] == key;
    }
  }

  /** A written dictation row is complete and reads back as that dictation. */
  lemma DictationRowReadsBack(name: string, d: Dictation, show: real -> string, parse: string -> Option<real>)
    requires FaithfulOn(show, parse, d)
    requires name != "" && d.date != ""
    ensures Complete(Header, DictationRow(name, d, show))
    ensures ToShown(Header, DictationRow(name, d, show), parse) == Some(ShownOf(name, d))
  {
    HeaderColumns();
    var row := DictationRow(name, d, show);
  }

  /** The rows of one utility load as its dictations, whatever follows them. */
  lemma LoadGroup(name: string, ds: seq<Dictation>, rest: seq<seq<string>>,
                  show: real -> string, parse: string -> Option<real>)
    requires FaithfulAll(show, parse, ds)
    requires name != "" && Accepted(ds)
    ensures LoadRows(Header, GroupRows(name, ds, show) + rest, parse)
         == GroupShown(name, ds) + LoadRows(Header, rest, parse)
  {
    GroupReadsBack(name, ds, show, parse);
    LoadRowsPrefix(Header, GroupRows(name, ds, show), GroupShown(name, ds), rest, parse);
  }

  /** Each row of `pre` is complete and reads as the matching element of `v`. */
  predicate ReadsAs(header: seq<string>, pre: seq<seq<string>>, v: seq<Shown>, parse: string -> Option<real>)
    decreases |pre|
  {
    && |pre| == |v|
    && (|pre| > 0 ==>
         && Complete(header, pre[0]) && ToShown(header, pre[0], parse) == Some(v[0])
         && ReadsAs(header, pre[1..], v[1..], parse))
  }

  /** The rows written for one utility read back as its dictations. */
  lemma {:induction false} GroupReadsBack(name: string, ds: seq<Dictation>, show: real -> string, parse: string -> Option<real>)
    requires FaithfulAll(show, parse, ds)
    requires name != "" && Accepted(ds)
    ensures ReadsAs(Header, GroupRows(name, ds, show), GroupShown(name, ds), parse)
    decreases |ds|
  {
    if |ds| > 0 {
      assert ds[0] in ds;
      DictationRowReadsBack(name, ds[0], show, parse);
      AcceptedTail(ds);
      forall d | d in ds[1..] ensures FaithfulOn(show, parse, d) {
        assert d in ds;
      }
      GroupReadsBack(name, ds[1..], show, parse);
      assert GroupRows(name, ds, show)[1..] == GroupRows(name, ds[1..], show);
      assert GroupShown(name, ds)[1..] == GroupShown(name, ds[1..]);
    }
  }

  lemma AcceptedTail(ds: seq<Dictation>)
    requires |ds| > 0 && Accepted(ds)
    ensures Accepted(ds[1..])
  {
    forall i | 0 <= i < |ds| - 1 ensures ds[1..][i].value > 0.0 && ds[1..][i].date != "" {
      assert ds[1..][i] == ds[i + 1];
    }
  }

  /** Complete rows that all parse are shown in order, and loading carries on after them. */
  lemma {:induction false} LoadRowsPrefix(header: seq<string>, pre: seq<seq<string>>, v: seq<Shown>,
                                          rest: seq<seq<string>>, parse: string -> Option<real>)
    requires ReadsAs(header, pre, v, parse)
    ensures LoadRows(header, pre + rest, parse) == v + LoadRows(header, rest, parse)
    decreases |pre|
  {
    if |pre| > 0 {
      assert pre + rest == [pre[0]] + (pre[1..] + rest);
      LoadRowsCons(header, pre[0], pre[1..] + rest, parse, v[0]);
      LoadRowsPrefix(header, pre[1..], v[1..], rest, parse);
      assert v == [v[0]] + v[1..];
    } else {
      assert pre + rest == rest;
    }
  }

  /** A complete row that parses is shown, and loading carries on after it. */
  lemma LoadRowsCons(header: seq<string>, row: seq<string>, rest: seq<seq<string>>,
                     parse: string -> Option<real>, s: Shown)
    requires Complete(header, row) && ToShown(header, row, parse) == Some(s)
    ensures LoadRows(header, [row] + rest, parse) == [s] + LoadRows(header, rest, parse)
  {
    var rows := [row] + rest;
    assert rows[0] == row && rows[1..] == rest;
  }

  lemma {:induction false} LoadBody(reg: Registry, show: real -> string, parse: string -> Option<real>)
    requires FaithfulReg(show, parse, reg)
    requires forall i :: 0 <= i < |reg| ==> reg[i].name != "" && Accepted(reg[i].dictations)
    ensures LoadRows(Header, BodyRows(reg, show), parse) == AllShown(reg)
    decreases |reg|
  {
    if |reg| > 0 {
      assert FaithfulAll(show, parse, reg[0].dictations);
      LoadGroup(reg[0].name, reg[0].dictations, BodyRows(reg[1..], show), show, parse);
      forall i | 0 <= i < |reg| - 1 ensures FaithfulAll(show, parse, reg[1..][i].dictations) {
        assert reg[1..][i] == reg[i + 1];
      }
      LoadBody(reg[1..], show, parse);
    }
  }

  /** Reading back the file just written shows every dictation, grouped by utility, in order. */
  lemma LoadAfterSerialise(reg: Registry, show: real -> string, parse: string -> Option<real>)
    requires WellFormed(reg) && FaithfulReg(show, parse, reg)
    ensures Load(Serialise(reg, show), parse) == AllShown(reg)
  {
    var file := Serialise(reg, show);
    assert file[1..] == BodyRows(reg, show);
    LoadBody(reg, show, parse);
  }

  // ---------------------------------------------------------------------
  // A session
  // ---------------------------------------------------------------------

  /** The application's state: the dictionary and the rows the view shows. */
  datatype Session = Session(registry: Registry, view: seq<Shown>)

  /**
    Loading `file` raises: it reaches a complete row whose numbers do not
    parse, so fewer rows are shown than the file has complete rows.
   */
  predicate LoadFails(file: seq<seq<string>>, parse: string -> Option<real>)
  {
    |file| > 0 && |LoadRows(file[0], file[1..], parse)| < |CompleteRows(file[0], file[1..])|
  }

  /**
    Start-up: a fresh dictionary, and the view loaded from the (possibly just
    created) file. The load runs inside the constructor, where only a missing
    file is caught, so a number that does not parse ends the program before
    any session exists (`None`).
   */
  function Start(file: Option<seq<seq<string>>>, parse: string -> Option<real>): (s: Option<Session>)
    ensures s.Some? ==> s.value.registry == Initial()
    ensures file.None? ==> s == Some(Session(Initial(), []))
    ensures s.Some? ==> s.value.view == Load(CreateIfAbsent(file), parse)
  {
    var f := CreateIfAbsent(file);
    if LoadFails(f, parse) then None else Some(Session(Initial(), Load(f, parse)))
  }

  /** Start-up fails exactly when the file holds a complete row whose numbers do not parse. */
  lemma StartFailsOnUnparsableRow(file: Option<seq<seq<string>>>, parse: string -> Option<real>)
    ensures var f := CreateIfAbsent(file);
      Start(file, parse).None? <==>
        |f| > 0 && exists i :: 0 <= i < |CompleteRows(f[0], f[1..])|
                               && ToShown(f[0], CompleteRows(f[0], f[1..])[i], parse).None?
  {
    var f := CreateIfAbsent(file);
    if |f| > 0 {
      var c := CompleteRows(f[0], f[1..]);
      var shown := LoadRows(f[0], f[1..], parse);
      LoadRowsStopsAtFailure(f[0], f[1..], parse);
      if |shown| < |c| {
        assert LoadFails(f, parse);
        assert ToShown(f[0], c[|shown|], parse).None?;
      } else {
        assert !LoadFails(f, parse);
        forall i | 0 <= i < |c| ensures ToShown(f[0], c[i], parse).Some? {
          assert ToShown(f[0], c[i], parse) == Some(shown[i]);
        }
      }
    } else {
      assert !LoadFails(f, parse);
    }
  }

  /**
    The "Save Dictation" button: record the dictation, overwrite the file
    with the dictionary, and reload the view from that file.
   */
  function SaveDictation(s: Session, utility: string, value: Option<real>, date: string, now: string,
                         show: real -> string, parse: string -> Option<real>)
    : (r: Result<(Session, seq<seq<string>>), SaveError>)
    ensures r.Err? <==> Save(s.registry, utility, value, date, now).Err?
    ensures r.Ok? ==> r.value.0.registry == Save(s.registry, utility, value, date, now).value
    ensures r.Ok? ==> r.value.1 == Serialise(r.value.0.registry, show)
    ensures r.Ok? ==> r.value.0.view == Load(r.value.1, parse)
  {
    match Save(s.registry, utility, value, date, now)
    case Err(e) => Err(e)
    case Ok(reg) =>
      var file := Serialise(reg, show);
      Ok((Session(reg, Load(file, parse)), file))
  }

  /** After a save the view shows every recorded dictation, and the registry stays well formed. */
  lemma SaveDictationRefreshesView(s: Session, utility: string, value: Option<real>, date: string, now: string,
                                   show: real -> string, parse: string -> Option<real>)
    requires WellFormed(s.registry)
    requires SaveDictation(s, utility, value, date, now, show, parse).Ok?
    requires FaithfulReg(show, parse, SaveDictation(s, utility, value, date, now, show, parse).value.0.registry)
    ensures var s' := SaveDictation(s, utility, value, date, now, show, parse).value.0;
      WellFormed(s'.registry) && s'.view == AllShown(s'.registry)
  {
    SavePreservesWellFormed(s.registry, utility, value, date, now);
    LoadAfterSerialise(Save(s.registry, utility, value, date, now).value, show, parse);
  }

  /**
    After a restart that got past loading the file, the lists are empty
    whatever the file held, so the first dictation's consumption is its
    whole value, and saving it rewrites the file to the header and that
    single row.
   */
  lemma RestartForgetsHistory(file: Option<seq<seq<string>>>, utility: string, v: real, date: string, now: string,
                              show: real -> string, parse: string -> Option<real>)
    requires utility == Gas || utility == Electricity || utility == Water
    requires v > 0.0 && date != ""
    requires Start(file, parse).Some?
    ensures var r := SaveDictation(Start(file, parse).value, utility, Some(v), date, now, show, parse);
      && r.Ok?
      && |r.value.1| == 2
      && r.value.1[1] == DictationRow(utility, Dictation(v, date, now, v, v * InitialPrice), show)
  {
    var reg := Initial();
    var k := Find(reg, utility).value;
    var reg' := Save(reg, utility, Some(v), date, now).value;
    SavedDictation(reg, utility, v, date, now);
    assert reg'[k].dictations == [Dictation(v, date, now, v, v * InitialPrice)];
    assert forall j :: 0 <= j < 3 && j != k ==> reg'[j].dictations == [];
    assert TotalDictations(reg') == 1 by {
      assert TotalDictations(reg'[2..]) == |reg'[2].dictations| by { assert reg'[2..][1..] == []; }
      assert reg'[1..][1..] == reg'[2..];
    }
    SerialisedRowAt(reg', show, k, 0);
    assert TotalDictations(reg'[..k]) == 0 by {
      if k >= 1 { assert reg'[..k][1..] == reg'[1..k]; }
      if k == 2 { assert reg'[1..k][1..] == []; }
    }
  }

}
