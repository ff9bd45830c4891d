# Chix & Mati expense tracker: the ledger core

This project models the expense-ledger logic of the tracker's Streamlit page
(`app.py`) in Dafny and proves properties of it. The page keeps a table of
shared expenses between two people, Chix and Matilda. Each expense has a
category, a total, each person's share, a priority, a budget date, a
recurring flag and the month name of the budget date. Around that table the
page has:

- a form that splits a new expense's total and appends it to the table;
- a deletion form that removes the selected rows and remembers them in a
  single undo slot;
- an undo button that appends the remembered rows again;
- a sidebar filter on month, priority and "recurring only";
- a conversion of the money columns into the selected currency;
- a summary: totals per person, totals per priority, the net balance, and the
  per-month, per-person amounts behind the bar chart.

Money is an exact `real`. The session state (`st.session_state.df` and
`st.session_state.last_deleted`) becomes the class `Session.Ledger`, with
fields `rows: seq<Row>` and `lastDeleted: Option<seq<Row>>`. Its methods
`Add`, `Delete` and `Undo` change that state. Splitting, filtering,
conversion and aggregation are pure functions with lemmas.

Files, one module each:

- `wrappers.dfy`: `Option`.
- `calendar.dfy`: dates and English month names.
- `expense.dfy`: priorities, the split rule, the row, the default budget date.
- `seed.dfy`: the demonstration table of the first run.
- `selection.dfy`: picking rows by position, removing rows at positions, and
  the permutation facts behind delete and undo.
- `session.dfy`: the `Ledger` class.
- `views.dfy`: filter, currencies and conversion.
- `summary.dfy`: sums, per-priority totals, grouping by month, the melted
  monthly table.

A row's index in the table is its position in `rows`. The source renumbers
the table after every deletion (`reset_index`) and after every concatenation
(`ignore_index=True`), so the two always agree.

## Model

| member | source | states |
|---|---|---|
| `Expense.Split` | app.py:53-61 | Under every split type, Chix's and Matilda's shares add up exactly to the total. Equal gives both the same share. By Percentage gives Chix `pct` hundredths of the total. By Amount gives Chix the amount entered. |
| `Expense.PercentageSplitBounds` | app.py:50-58 | With a total of at least 0 and a percentage in 0..100, both shares lie between 0 and the total. |
| `Expense.HalfPercentageIsEqual` | app.py:53-58 | The slider's default of 50 % gives the same shares as an equal split. |
| `Expense.AmountAboveTotalOverdraws` | app.py:59-61 | By Amount with Chix's amount above the total leaves Matilda a negative share, and nothing rejects it. |
| `Expense.DefaultBudgetDate` | app.py:64 | The proposed budget date is in today's year and month and is not later than today. It is the 1st for a very high priority and today for any other priority. |
| `Expense.NewRow` | app.py:70-71 | A submitted row has the form's fields and the split's shares. Its Month is the month name of its budget date, so the row is balanced and consistent. |
| `Seed.SeedRowsWellFormed` | app.py:16-30 | Every row of the demonstration table is balanced and carries its date's month name. |
| `Session.Ledger.constructor` | app.py:32-37 | The first run starts from the demonstration table with an empty undo slot. |
| `Session.Ledger.Add` | app.py:69-72 | The table grows by exactly one row at the end: the submitted row, whose Month is its budget date's month name. All earlier rows and the undo slot are unchanged. |
| `Session.Ledger.Delete` | app.py:92-95 | The undo slot is overwritten with exactly the selected rows, in selection order. The table becomes exactly the unselected rows in their original order. The length drops by the number of selected indices. Table plus slot is the old table as a multiset. |
| `Session.Ledger.Undo` | app.py:98-101 | Undo is available only when the slot is filled. It appends the saved rows after the current ones and clears the slot, so a second undo is not available. With an empty slot nothing changes. |
| `Session.DeleteThenUndo` | app.py:92-101 | A deletion followed directly by its undo leaves a permutation of the table as it was before the deletion: the unselected rows, then the selected ones. The slot ends empty. |
| `Session.UndoAppendsAtTheEnd` | app.py:100 | The undo does not restore the original order: deleting the first of two different rows and undoing leaves them swapped. |
| `Selection.SurvivorsAreTheUnselected` | app.py:94-95 | The positions a deletion keeps increase and are exactly the positions that were not selected. |
| `Selection.WithoutKeepsUnselectedInOrder` | app.py:94-95 | The table after a deletion is the old table read at the surviving positions, in increasing order. |
| `Selection.WithoutLength` | app.py:94 | Dropping a set of positions inside the table shortens it by the size of that set. |
| `Selection.RemoveThenAppendIsPermutation` | app.py:93-100 | Removing the rows at distinct positions and appending those rows again, in any order, gives a permutation of the table. |
| `Views.FilterKeepsExactlyTheSelectedRows` | app.py:81-83 | The filter returns the table read at increasing positions. These are exactly the positions of rows whose Month is selected, whose Priority is selected and, when "recurring only" is ticked, that are recurring. |
| `Views.FilterMembership` | app.py:81-83 | A row is in the filtered table exactly when it is in the table and meets all the selected conditions. |
| `Views.Rate` | app.py:9-13 | Every rate is positive, and the rate is 1.0 exactly for kronor. |
| `Views.Convert` | app.py:106-107 | Conversion multiplies Total, Chix and Matilda by the rate. The length, the row order and every other column are unchanged. |
| `Views.ConvertToSekIsIdentity` | app.py:106-107 | Converting at the kronor rate returns the table unchanged. |
| `Views.ConvertKeepsRowsBalanced` | app.py:106-107 | If every row's shares add up to its total, the same holds after conversion. |
| `Views.ConvertTwice` | app.py:106-107 | Converting at one rate and then another is the same as converting once at their product. |
| `Views.FilterCommutesWithConvert` | app.py:81-107 | Filtering then converting gives the same table as converting then filtering. |
| `Summary.PersonTotalsAddUp` | app.py:127 | Over balanced rows, Chix's total plus Matilda's total is the sum of the Total column. |
| `Summary.SumTotalScalesWithRate` | app.py:127-128 | The Total sum over a converted table is the rate times the sum over the table. |
| `Summary.SumShareScalesWithRate` | app.py:127 | Each person's sum over a converted table is the rate times that person's sum over the table. |
| `Summary.NetBalanceScalesWithRate` | app.py:129 | The net balance (Chix's sum minus Matilda's) after conversion is the rate times the balance in kronor. |
| `Summary.SeedTableBalance` | app.py:127-129 | On the demonstration table Chix's total is 8093, Matilda's is 2350 and the net balance is 5743. |
| `Summary.PriorityTotalsHaveOneGroupPerPriority` | app.py:128 | The per-priority totals have a group exactly for each priority present in the rows. |
| `Summary.PriorityTotalsAreGroupSums` | app.py:128 | A priority's group holds the Total sum over the rows of that priority; a priority with no rows reads as 0. |
| `Summary.PriorityTotalsAddUp` | app.py:128 | The per-priority totals add up to the sum of all Totals. |
| `Summary.IndexOfMonth` | app.py:142 | Finds the line of a month in the grouped table, or reports that the month has none. |
| `Summary.GroupByMonthListsEachMonthOnce` | app.py:142 | Grouping by Month gives one line per distinct month of the rows, and no other lines. |
| `Summary.GroupByMonthSumsEachMonth` | app.py:142 | Each month's line holds the sums of the Chix and Matilda columns over that month's rows. |
| `Summary.MeltTakesEachLineTwice` | app.py:143 | Melting gives two bars per line: first every line's Chix bar, then every line's Matilda bar. Each bar carries its line's month and that person's amount. |
| `Summary.MeltPairsAreUnique` | app.py:143 | With one line per month, no (month, person) pair has two bars, and every listed month has a bar for each person. |
| `Summary.MonthlyBarsOnePerMonthAndPerson` | app.py:142-143 | The chart data has exactly one Chix bar and one Matilda bar per distinct month, and no others. Each bar's amount is that person's column sum over that month's rows. |

## Left out

- The Streamlit widgets, the forms, the sidebar, reruns and success messages. What the widgets return becomes method and function parameters. The two session variables become the fields of `Session.Ledger`.
- `@st.cache_data` around the seed loader. The seed rows are used as the initial table, and `Session.Ledger.constructor` models the first run only.
- The Altair chart, the CSV download with its UTF-8 encoding, the highlighting of totals above 3000 times the rate, and the `:.2f` formatting of the net balance. These are presentation and I/O.
- IEEE floating-point rounding. Money is an exact `real`, so every sum and product here is exact.
- `datetime.today()`. "Today" is a parameter of `Expense.DefaultBudgetDate`. `strftime("%B")` becomes `Calendar.MonthName`, a total function from month number to English name. Whether a day exists in its month is left to the date library.
- The order pandas gives to `unique()` options and to `groupby` keys. `Summary.GroupByMonth` lists months in order of first appearance, while pandas sorts the keys. Every property proved about the monthly table holds whatever the order. `Summary.TotalsByPriority` is a map, which has no order.
- Widget constraints are taken as types, not checks. The percentage slider's range 0..100 is the type `Expense.Percent`. The lower bound 0 of the number inputs appears only as the hypothesis `total >= 0` of `Expense.PercentageSplitBounds`. Nothing else assumes a non-negative amount, as in the source.
- The multiselect offers each index of the table at most once. So `Session.Ledger.Delete` takes a list of distinct, in-range positions, in selection order, which is the order `.loc` returns the rows in.
- Confirming a deletion with nothing selected still fills the undo slot, with an empty table (`Some([])`), so undo stays available and appends nothing. The model keeps this.
- The undo button is not shown when the slot is empty. `Session.Ledger.Undo` models that case as a call that returns `false` and changes nothing.
- Filtering uses pandas `isin`, so an empty month or priority selection keeps no rows; it does not mean "no restriction". The model follows that.
- Record ids, editing, archiving (soft delete), fuzzy search, CSV import and whole-table undo snapshots belong to other versions of the tracker, not to `app.py`. In `app.py` only deletions can be undone, and adding a row does not touch the undo slot.
- `Session.Ledger.Valid` (every row balanced and carrying its month name) is an invariant of the model. The source does not check it; it holds because every row comes from the seed table or from the form.
