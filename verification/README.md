# Utility meter readings: reading table and dictation lists

This project models two small desktop tools that record utility meter readings. Gas, electricity and water are billed in HUF. Each tool has a pure core beneath its tkinter user interface, and the model covers that core.

- **The reading table** (`main.py`) is an ordered table of 8-field rows: Utility, Date, Previous Value, Current Value, Consumption, Rate, Bill Amount, Last Modified.
  - A new reading is priced against the *previous value*. That is the Current Value of the latest-dated stored row of the same utility. It is 0 when the utility has no row, and also 0 when the stored value is not numeric.
  - consumption = current − previous, and bill = consumption × rate.
  - The buttons add a row (after validation), rewrite one row in place, or delete one row.
  - Every handler reloads the table from its CSV file and writes it back. In the model, the stored table is the argument and the rewritten table is the result (`ReadingTable`).
  - Dates are `YYYY-MM-DD` text ordered as Python orders strings (`DateOrder`).
- **The dictation lists** (`kozmu-copilot.py`) give each of three utilities a fixed price of 100 and an append-only list of dictations.
  - A dictation's consumption is its value minus the value of the last dictation *appended*. The first dictation's consumption is its whole value.
  - The bill is consumption × price.
  - After every save, the lists are written out as a six-column file grouped by utility. The file is then read back into the view, keeping only rows whose required fields are filled in (`Dictations`).
- `ReadingScenarios` and `DictationScenarios` hold worked examples.

Inputs become parameters:

- Anything the user types or picks in a prompt becomes a parameter. A cancelled prompt is `None`.
- The clock becomes a `now` text.
- The selected table row becomes an index. The view always mirrors the stored table, so the index is within bounds.
- In `Dictations`, the functions that write and read numbers as text are parameters: `show` plays `str` of a float, and `parse` plays `float`, answering `None` where `float` raises.

Some behaviours of the code are easy to misread; the model follows the code:

- Add rejects only the placeholder text "Select Utility". The utility box accepts typed text, so any other utility name, even one outside the box's three values, is taken as it is.
- Edit looks up the previous value in the table as stored before the edit. That table still holds the row being edited, so the edited row can find its own old reading (see Findings). A corrected reading should rather be measured from the other rows, since a row is not its own predecessor.
- Edit refuses a row whose stored Current Value is not a number. The reading prompt is pre-filled with `int(...)` of that value, which raises once the date prompt has been answered, before the reading prompt appears; the date already entered is discarded.
- The dictation tool loads its file inside the constructor, where only a missing file is caught. A complete row whose numbers do not parse therefore ends the program at start-up (`Dictations.Start` answers `None`).
- The dictation tool overwrites its file with the lists of the current session only. Those lists start empty and are never filled from the file. So the first save after a restart replaces everything the file held with a header and one row (`Dictations.RestartForgetsHistory`).

Where the sort order is unspecified, the model picks one. pandas does not specify which of several rows with the same latest date comes first. `ReadingTable.LatestIndex` picks the earliest in table order. `ReadingTable.PreviousValue` states only what holds for any choice.

## Model

| member | source | states |
|---|---|---|
| DateOrder.TextLeReflexive | main.py:38 | every date text sorts at or before itself |
| DateOrder.TextLeTotal | main.py:38 | any two date texts are comparable, so the rows of a utility always have a latest date |
| DateOrder.TextLeTransitive | main.py:38 | the date order is transitive, so "latest" is well defined across a whole table |
| DateOrder.TextLeAtFirstDifference | main.py:38 | texts that agree up to some position and differ there are ordered by their characters at that position, strictly |
| DateOrder.TextLeAntisymmetric | main.py:38 | two dates each at or before the other are the same text, so latest rows differ only in tie-breaking |
| ReadingTable.EnsureInitialized | main.py:12-15 | an absent file is created holding only the 8-column header; an existing (even unreadable) file is left unchanged |
| ReadingTable.Load | main.py:18-23 | a readable file yields its rows; an absent or unreadable file yields the empty table |
| ReadingTable.Save | main.py:26-28 | the written file carries the 8-column header and loads back as exactly the table written |
| ReadingTable.InitializedStoreIsEmpty | main.py:12-23 | initialising twice equals initialising once, and a freshly created file loads as the empty table |
| ReadingTable.SaveLoadIdempotent | main.py:18-28 | saving what was loaded reproduces the stored file |
| ReadingTable.LatestIndex | main.py:38-39 | there is no pick exactly when no row has the utility; otherwise the pick is a row of that utility with no later-dated row of it, and no earlier row of it shares its date |
| ReadingTable.PreviousValue | main.py:35-42 | 0 when no row has the utility; otherwise the Current Value of some latest-dated row of that utility, a non-numeric value counting as 0 |
| ReadingTable.PreviousValueUniqueLatest | main.py:38-42 | when one row of the utility has the strictly latest date, the previous value is that row's coerced Current Value whatever the tie-break |
| ReadingTable.Calculate | main.py:33-46 | previous is the lookup over the stored table; consumption plus previous equals the current value; bill is consumption times rate |
| ReadingTable.NoClamping | main.py:44-45 | nothing is clamped: at a positive rate the consumption, and likewise the bill, is negative exactly when the reading is below the previous value |
| ReadingTable.Add | main.py:49-83 | refused exactly for the placeholder utility, a missing or negative reading, or a missing or non-positive rate, with that error in that order of checks; otherwise the old table comes back unchanged with one row appended, carrying the inputs, the lookup's previous value and consistent consumption and bill |
| ReadingTable.Edit | main.py:105-132 | with no selection, refused; refused exactly when the selected row's Current Value is not a number, or for a missing or negative reading or a missing or non-positive rate; otherwise only the selected row changes, keeping its utility, taking the new date (missing if that prompt was cancelled), reading, rate and time, with previous looked up in the pre-edit table |
| ReadingTable.EditAgainstOthers | main.py:105-132 | as Edit, except that the previous value is 0 when no other row has the utility and otherwise the coerced Current Value of a latest-dated row among the other rows, never the edited row itself |
| ReadingTable.EditReadsOwnOldValue | main.py:120-126 | when the edited row is the unique latest row of its utility, the edit as written takes the row's own old reading as its previous value |
| ReadingTable.Delete | main.py:144-152 | refused exactly when nothing is selected; otherwise the rows before the selected one and the rows after it are kept, in order, and the table is one row shorter |
| ReadingTable.DeleteRemovesExactlyOne | main.py:150-152 | putting the deleted row back at its position restores the table, and the multiset of rows loses exactly that row |
| ReadingTable.OperationsPreserveConsistency | main.py:44-45 | if every row's consumption and bill agree with its reading, previous value and rate, that still holds after any successful add, edit or delete |
| ReadingScenarios.FirstGasReading | main.py:64-82 | the first gas reading of 100 at rate 50 is stored with previous 0, consumption 100, bill 5000 |
| ReadingScenarios.SecondGasReading | main.py:64-82 | a second gas reading of 150 at rate 50 is appended with previous 100, consumption 50, bill 2500, the first row unchanged |
| ReadingScenarios.SecondIsLatest | main.py:38-42 | in that two-row table the later-dated second row is the latest, so the lookup answers 150 |
| ReadingScenarios.EditSecondReadingAsWritten | main.py:120-129 | correcting the second reading to 160 as written gives previous 150, consumption 10, bill 500, leaving the first row unchanged |
| ReadingScenarios.NonNumericRowIsNotEdited | main.py:113 | a row whose stored reading is not a number is refused by the edit, whatever is entered |
| ReadingScenarios.EditSecondReadingAgainstOthers | main.py:120-129 | the same correction with the lookup over the other rows gives previous 100, consumption 60, bill 3000 |
| Dictations.Initial | kozmu-copilot.py:12-16 | three utilities, MVM Gas, MVM Electricity and Vízművek Water in that order, each at price 100 with no dictations, forming a well-formed registry |
| Dictations.Find | kozmu-copilot.py:68 | a utility name is found exactly when some entry has it, at the first such entry |
| Dictations.Save | kozmu-copilot.py:57-79 | an unreadable value (`NotANumber`), then a value not above 0 or a missing date (`MissingFields`), then an unknown utility (`UnknownUtility`) records nothing, in that order; otherwise exactly one dictation is appended to the selected utility, whose name, unit, price and earlier dictations stay as they were, and every other utility is unchanged |
| Dictations.SavedDictation | kozmu-copilot.py:66-77 | the appended dictation carries the value, date and time; its consumption is the value for the first dictation and otherwise the value minus the last appended dictation's value; its bill is consumption times the utility's price |
| Dictations.SavePreservesWellFormed | kozmu-copilot.py:62-79 | names stay distinct and every list stays accepted and chained: each consumption is measured from the dictation appended just before it, and each bill is consumption times the price |
| Dictations.ConsumptionTelescopes | kozmu-copilot.py:68-72 | the consumptions of a chained list add up to its last reading |
| Dictations.BillsAddUp | kozmu-copilot.py:74 | the bills of a list billed at one price add up to its total consumption times that price |
| Dictations.GroupRows | kozmu-copilot.py:88-89 | one row per dictation of the utility, in the order they were appended, each holding the utility name, value, date, consumption, bill and timestamp |
| Dictations.BodyRows | kozmu-copilot.py:87-89 | as many rows as there are dictations over all utilities |
| Dictations.Serialise | kozmu-copilot.py:83-89 | the file is the six-column header followed by one row per dictation, so it has one more row than there are dictations |
| Dictations.SerialisedRowAt | kozmu-copilot.py:86-89 | dictation j of utility k is written right after the header and all rows of the utilities before k, at offset j within its group |
| Dictations.CreateIfAbsent | kozmu-copilot.py:103-109 | an absent file is created holding only the header; an existing file is kept as it is |
| Dictations.LastIndexOf | kozmu-copilot.py:97-98 | a column is found exactly when the header names it, at the last cell with that name |
| Dictations.CompleteRows | kozmu-copilot.py:98-99 | a row is kept exactly when it is a row of the file with Utility, Value, Date, Consumption and Bill all present and non-empty |
| Dictations.CompleteRowsAppend | kozmu-copilot.py:97-99 | filtering two parts of a file body one after the other gives the filter of the whole, so kept rows stay in file order |
| Dictations.CompleteRowsSingle | kozmu-copilot.py:98-99 | a one-row body keeps its row exactly when the row is complete |
| Dictations.ToShown | kozmu-copilot.py:100 | a complete row is shown exactly when its value, consumption and bill all parse, with its utility and date taken as they are and its value, consumption and bill the numbers `parse` gives for those three cells |
| Dictations.LoadRows | kozmu-copilot.py:97-101 | never shows more rows than the body holds; which rows it shows (the parsed complete rows in order, up to the first that does not parse) is stated by `LoadRowsStopsAtFailure` |
| Dictations.LoadRowsStopsAtFailure | kozmu-copilot.py:95-102 | the view holds the parsed complete rows in file order, up to but excluding the first complete row whose numbers do not parse |
| Dictations.Load | kozmu-copilot.py:91-102 | a file with no row after the header shows nothing |
| Dictations.HeaderColumns | kozmu-copilot.py:86 | in the written header, Utility, Value, Date, Consumption and Bill are columns 0 to 4 |
| Dictations.DictationRowReadsBack | kozmu-copilot.py:89-100 | when the dictation's value, consumption and bill read back as written and an empty cell is not a number, its written row is complete and reads back as that dictation |
| Dictations.LoadRowsPrefix | kozmu-copilot.py:97-100 | rows that are all complete and all parse are shown in order, and loading then carries on with the rows after them |
| Dictations.GroupReadsBack | kozmu-copilot.py:87-100 | when every dictation of the utility reads back as written, each of its written rows is complete and reads back as the matching dictation |
| Dictations.LoadGroup | kozmu-copilot.py:87-100 | when every dictation of the utility reads back as written, its written rows load as its dictations, in order, whatever rows follow |
| Dictations.LoadAfterSerialise | kozmu-copilot.py:80-100 | when every recorded number reads back as written, reading back the file just written from a well-formed registry shows every dictation, grouped by utility in dictionary order, in insertion order within each group |
| Dictations.Start | kozmu-copilot.py:12-18 | a session that starts has the initial registry whatever the file holds and shows the file as loaded; with no file it starts and shows nothing |
| Dictations.StartFailsOnUnparsableRow | kozmu-copilot.py:91-102 | start-up fails exactly when the file holds a complete row whose numbers do not parse, since `load_data` catches only a missing file |
| Dictations.SaveDictation | kozmu-copilot.py:57-81 | refused exactly when the save is refused; otherwise the file is the new registry written out and the view is that file read back |
| Dictations.SaveDictationRefreshesView | kozmu-copilot.py:79-100 | after a save the registry stays well formed and, when every number it now holds reads back as written, the view shows exactly its dictations |
| Dictations.RestartForgetsHistory | kozmu-copilot.py:12-16 | after a restart that got past loading the file, the first saved dictation consumes its whole value and the rewritten file holds only the header and that dictation's row |
| DictationScenarios.InsertionOrderNotDateOrder | kozmu-copilot.py:68-74 | a gas reading of 100 dated January, entered after one of 150 dated February, consumes -50 and bills -5000 |
| DictationScenarios.UnparsableValueStopsStartUp | kozmu-copilot.py:97-101 | a file whose one complete row has the value "abc" stops the program at start-up |
| DictationScenarios.ZeroIsRefused | kozmu-copilot.py:62-64 | a value of 0 records nothing |

## Left out

- The tkinter widgets, the calendar, the dialogs and the prompts are user interface. Their answers are parameters, and their errors are `Err` values.
- `display_data` and the tree view are display code. The selected row is an index parameter, with a precondition that it is in range, because the view mirrors the stored table.
- The CSV text format is left out: pandas `read_csv`/`to_csv` and the `csv` module's quoting. The reading table is stored as typed rows, and the dictation file as rows of cells.
- File write failures are left out. `save_data` shows an error dialog and keeps the old file; `ReadingTable.Save` always succeeds.
- Floating-point rounding is left out: amounts are exact reals. Infinite numbers are not modelled either: the rate prompt's `askfloat` and the dictation value entry, read through Tcl's number parsing, both accept "inf", and an infinite dictation value is above 0, so it would be recorded. `Dictations.Save` takes an `Option<real>`, which cannot hold it.
- Only the Current Value column is modelled as possibly non-numeric, because it is the only stored number the core reads back. A hand-edited file could also hold text in Previous Value, Consumption, Rate or Bill Amount.
- A stored row with an empty Utility cell is not modelled faithfully. pandas reads it as a missing value that matches no utility; here it is the empty text.
- ReadingTable.Edit: the model edits a row whose Current Value is a number with a fraction, or is displayed as "150.0" when pandas reads the column as floats; the program's `int(values[3])` refuses those, but the displayed text depends on pandas' column types, which are not modelled. `float(values[5])` cannot fail because rates are always numbers here.
- `DEFAULT_RATE` is not modelled. It only pre-fills the rate prompt, and the answer to the prompt is the parameter.
- In the dictation tool, the price entry (`price_var`) and each utility's unit are never read by `save_dictation`. Prices come from the dictionary; the unit is stored but unused.
- `Dictations.Load`: its own contract states only the empty case. What it shows is stated by `Dictations.LoadRowsStopsAtFailure` about `Dictations.LoadRows`, which it calls on the rows after the header.
- Dictations.LoadAfterSerialise: the write-then-read round trip assumes that the numbers actually written read back as written (`FaithfulReg`). Text renderings of floats that do not round-trip are not modelled, since `show` and `parse` are parameters.

## Findings

| source | as written | input that shows it | evidently intended | confidence | as-written member | corrected member |
|---|---|---|---|---|---|---|
| main.py:120-126 | The edit looks up the previous value in the stored table before the edit. That table still holds the row being edited, so the row can be its own predecessor. | A gas table of 100 on 2024-01-15 and 150 on 2024-02-15, then the second reading edited to 160 at rate 50. The edit gives previous 150, consumption 10, bill 500. | The previous value comes from the other rows: previous 100, consumption 60, bill 3000. | medium, not executed | ReadingTable.Edit, ReadingScenarios.EditSecondReadingAsWritten | ReadingTable.EditAgainstOthers, ReadingScenarios.EditSecondReadingAgainstOthers |
