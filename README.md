# KAM Sales Tracker — a Dafny model of its sales table

The KAM tracker is a small Streamlit dashboard (`app.py`). Key-account managers use it to record, for each
customer of each branch (Oddział), that customer's prior-year and current sales and a running note. The
dashboard then shows totals, year-on-year growth and per-branch charts. This project models the logic behind
it:

- **The table.** Rows have the columns `Data, Oddzial, Klient, Sprzedaz_LY, Sprzedaz_Current, Notatki`. The
  table has two mutations:
  - The "Nowy Klient" form appends a row. It does nothing when the customer name is empty (a name of only spaces is
    still appended).
  - The "Aktualizacja" form rewrites the first row matching (branch, customer) in place. It sets the current
    sales and the timestamp and merges the new note into the old one.
  - The table is the class `Sales.SalesTable`, with a `seq<Row>` field and the methods `Create` and `Update`.
- **The note-merge rule.** The new note is joined as `f"{old} | {new}".strip(" | ")`. Python's `strip` takes
  its argument as a *set of characters*: it removes every leading and trailing space and `|`, not the literal
  separator. A missing (NaN) note counts as `""`. This is `Notes.MergeNote`, built on `Notes.Strip`.
- **The views.** These are pure functions of the table:
  - the prior-year and current totals, their delta and the growth percentage (0 when the prior-year total is
    not positive);
  - the group-by-branch sums;
  - the detail panels: the branches with data, in code-point order, dealt alternately into two columns
    (`Dashboard.LayoutPanels`, a loop).

Modules follow these parts: `Notes` (notes.dfy, with worked examples in `NoteExamples`, note_examples.dfy),
`Ordering` (ordering.dfy: Python's string order, `unique()`, `sorted()`), `Sales` (sales.dfy) and `Dashboard`
(dashboard.dfy).

Modelling choices:
- Amounts are exact `real`s.
- The timestamp string (`datetime.now().strftime("%Y-%m-%d %H:%M")`) is a parameter.
- Loading and saving are a snapshot of rows: no file means an empty table.

Two behaviours of the code are easy to misread:
- **Note merge.** The code strips the character set `{' ', '|'}` from both ends of the joined text, not the
  separator string. So besides the separator left by an empty prior note, it also trims spaces and bars that
  belong to the notes themselves, and a new note made only of such characters adds nothing
  (`MergeDropsStripOnlyNote`).
- **Update with no matching row.** The code does not handle this case: `.values[0]` (app.py:67, while the form
  is drawn) and `.index[0]` (app.py:71) would raise. Through the form it happens when a customer cell reads back as NaN,
  which compares equal to no value. For example, a customer named "NA", "null" or "nan" becomes NaN when the CSV
  is reloaded: `unique()` still offers it, but no row matches it. The model has no such
  cells (a customer is always a string), returns `found == false` and leaves the table unchanged.

## Model

| member | source | states |
|---|---|---|
| `Notes.TrimLeft` | app.py:76 | the left half of the strip: the result is a suffix, every removed character is a space or bar, and the result does not start with one |
| `Notes.TrimRight` | app.py:76 | the mirror image: a prefix, with only strip characters removed, that does not end with one |
| `Notes.Strip` | app.py:76 | the result is a contiguous piece of the input, all characters before and after it are spaces or bars, and neither of its ends is one |
| `Notes.TrimLeftAt` | app.py:76 | left stripping stops exactly where the run of leading strip characters ends |
| `Notes.TrimRightAt` | app.py:76 | right stripping stops exactly where the run of trailing strip characters begins |
| `Notes.StripUnique` | app.py:76 | any piece with the properties Strip promises is Strip's result, so those properties define the strip |
| `Notes.StripAllStripChars` | app.py:76 | a text made only of spaces and bars strips to the empty string |
| `Notes.StripClean` | app.py:76 | a string with no space or bar at either end is left unchanged |
| `Notes.TrimLeftAfterPrefix` | app.py:76 | prepending only spaces and bars does not change the left-stripped result |
| `Notes.StripAfterPrefix` | app.py:76 | prepending only spaces and bars does not change the stripped result |
| `Notes.MergeNote` | app.py:74-76 | an empty new note leaves the note unchanged; otherwise the merged note is present and never starts or ends with a space or a bar |
| `Notes.MergeOntoEmpty` | app.py:75-76 | merging into an empty or missing note gives the stripped new note, with no separator in front |
| `Notes.MergeMissingAsEmpty` | app.py:75 | a NaN note merges exactly like `""` |
| `Notes.MergeAppends` | app.py:76 | clean old note A and clean new note B merge to A, the separator, then B |
| `Notes.JoinPiece` | app.py:76 | stripping a + m + b removes only the leading run of spaces and bars of a and the trailing run of b, keeping everything between |
| `Notes.MergeAppendsGeneral` | app.py:74-76 | for any old note with text besides spaces and bars and any new note with such text, the merged note is the old note minus its leading spaces and bars, the separator, then the new note minus its trailing ones: the old text is kept and the new note comes last |
| `Notes.MergeOntoStripOnly` | app.py:74-76 | an old note of only spaces and bars is dropped: the merged note is the stripped new note |
| `Notes.MergeDropsStripOnlyNote` | app.py:76 | a new note of only spaces and bars leaves a clean old note as it was: characters are stripped, not the separator |
| `Notes.MergeOntoEmptyClean` | app.py:74-76 | a clean new note merged into an empty or missing note is that note, unchanged |
| `NoteExamples.MergeExampleAppend` | app.py:74-76 | "A" merged with "B" is "A", the separator, then "B" |
| `NoteExamples.MergeExampleOntoMissing` | app.py:74-76 | a missing note merged with "follow up" is "follow up" |
| `Ordering.LessIrreflexive` | app.py:109 | in Python's string order, no string is below itself |
| `Ordering.LessTransitive` | app.py:109 | the string order is transitive |
| `Ordering.LessTotal` | app.py:109 | any two different strings are ordered one way or the other |
| `Ordering.Distinct` | app.py:106 | `unique()` returns no value twice and exactly the values that occur |
| `Ordering.Insert` | app.py:109 | inserting into a strictly sorted list keeps it strictly sorted and adds exactly that element |
| `Ordering.Sort` | app.py:109 | `sorted()` of distinct strings returns a strictly increasing list with the same elements |
| `Ordering.FirstIsLeast` | app.py:109 | the head of a strictly sorted list is below every other element |
| `Ordering.SortedListingUnique` | app.py:109 | two strictly sorted lists with the same elements are equal, so the sorted order depends only on the set of names |
| `Sales.RowsOf` | app.py:112 | `df[df['Oddzial'] == o]` holds exactly the rows of branch `o` |
| `Sales.RowsOfAppend` | app.py:112 | filtering by branch distributes over concatenation |
| `Sales.EditChoices` | app.py:63 | the customers offered for editing are distinct, and are exactly those having a row in the chosen branch |
| `Sales.FirstMatch` | app.py:71 | the result is the lowest position whose row matches (branch, customer), or none when no row matches |
| `Sales.EditLookupFinds` | app.py:63-71 | a customer is offered for editing iff the first-match lookup finds a row, so the edit path always finds one |
| `Sales.Prefill` | app.py:66-67 | the edit form shows the current sales of the lowest-position matching row |
| `Sales.SameKeysCustomers` | app.py:63 | tables with the same branch and customer at every position offer the same customer lists |
| `Sales.SameKeysFirstMatch` | app.py:71 | tables with the same keys at every position have the same first match for every key |
| `Sales.SameKeysLookups` | app.py:63-76 | as an update changes no key, it leaves every edit choice and every lookup as it was |
| `Sales.EditChoicesAfterAppend` | app.py:52-63 | a new row adds its customer at the end of its branch's choices, unless already there; other branches are unchanged |
| `Sales.SalesTable.Load` | app.py:22-25 | no stored file gives an empty table, otherwise the stored rows |
| `Sales.SalesTable.Create` | app.py:52-55 | an empty name leaves the table unchanged; otherwise exactly one row is appended with the form inputs and the timestamp, and earlier rows keep their places and values; a table with no negative amount keeps none (the number inputs have a minimum of 0) |
| `Sales.SalesTable.Update` | app.py:71-76 | only the first matching row changes: its current sales and timestamp are overwritten and the note is merged, while branch, customer and prior-year sales stay; other rows are unchanged; with no match nothing changes; a table with no negative amount keeps none (the number inputs have a minimum of 0) |
| `Dashboard.Sum` | app.py:86-87 | a column total: 0 for no rows, non-negative when every amount is |
| `Dashboard.SumAppend` | app.py:86-87 | the total over a concatenation is the sum of the totals |
| `Dashboard.SumAfterWrite` | app.py:86-87 | overwriting one row changes a total by that row's difference |
| `Dashboard.CreateAddsToTotals` | app.py:86-87 | appending a row adds its amounts to the totals |
| `Dashboard.UpdateShiftsTotals` | app.py:86-87 | an update leaves the prior-year total unchanged and moves the current total by `new - old` |
| `Dashboard.Growth` | app.py:88 | 0 when the prior-year total is not positive; otherwise `g * ly == (curr - ly) * 100`, growth is positive, zero or negative exactly as current is above, equal to or below prior, and never below -100 for non-negative sales |
| `Dashboard.GrowthExamples` | app.py:88 | growth(0, x) = 0, growth(100, 150) = 50, growth(100, 100) = 0 |
| `Dashboard.ComputeMetrics` | app.py:86-91 | the totals are the column sums, the delta is their difference and the growth tile is `Growth` of the two totals; growth is 0 when the totals are equal or the prior total is not positive, and positive exactly when current exceeds prior; an empty table gives all zeros |
| `Dashboard.BranchOrder` | app.py:106-109 | the branches to display are strictly increasing in code-point order, and are exactly the branches that have rows |
| `Dashboard.StrictlySortedNoDuplicates` | app.py:109 | a strictly sorted list repeats no branch |
| `Dashboard.BranchTotals` | app.py:96 | one sum row per listed branch, in the listed order |
| `Dashboard.BranchTotalsAt` | app.py:96 | each sum row holds the sums of that branch's rows |
| `Dashboard.ByBranch` | app.py:96 | the group-by gives one row per branch with data, sorted by branch, none for absent branches; each holds the sums of that branch's rows |
| `Dashboard.HitsOnce` | app.py:96 | over a duplicate-free branch list, a row contributes to its own branch's group only, and only once |
| `Dashboard.BranchTotalsOfNothing` | app.py:96 | grouping an empty table gives zero totals |
| `Dashboard.BranchTotalsCons` | app.py:96 | grouping a table with one more row adds that row's contribution |
| `Dashboard.BranchTotalsAddUp` | app.py:96 | the group sums over a duplicate-free list covering every row's branch add up to the column total |
| `Dashboard.ByBranchAddsUp` | app.py:86-96 | the per-branch sums of the main chart add up to the metric totals |
| `Dashboard.ByBranchExample` | app.py:96 | two Warszawa rows (100, 150) and (200, 180) group to the single row (Warszawa, 300, 330) |
| `Dashboard.DealtStep` | app.py:109-110 | drawing the next branch's panel into column `i % 2` extends the dealing by that branch |
| `Dashboard.LayoutPanels` | app.py:106-112 | the loop deals the i-th sorted branch's panel, holding that branch's rows, into column `i % 2` at row `i / 2` |
| `Dashboard.LayoutBalanced` | app.py:109-110 | the left column has as many panels as the right, or one more |
| `Dashboard.DealtFromCovers` | app.py:109-110 | the dealt panels belong to exactly the branches of the list they were dealt from |
| `Dashboard.LayoutCoversBranches` | app.py:106-110 | a branch gets a panel iff it has rows |
| `Dashboard.LayoutOncePerBranch` | app.py:106-110 | no branch gets two panels, within a column or across the two |

## Left out

- Streamlit UI (page setup, sidebar, forms, metric tiles, warnings, `st.rerun`): presentation only. The form
  constraints the widgets impose enter as preconditions: the branch is one of the ten names, and the number
  inputs are at least 0.
- Plotly chart construction: a foreign charting library. Only the data handed to it is modelled: the
  group-by rows and each panel's rows.
- Encoding detection with chardet, CSV reading and writing, and the `errors='ignore'` fallback decode: file
  I/O and third-party code. `load_data`/`save_data` appear only as a snapshot of rows (`SalesTable.Load`,
  `SalesTable.Snapshot`). That save then load gives the table back is therefore not stated. In particular, an
  empty note written to CSV reads back as NaN; the model only shows that NaN merges like `""`.
- Excel export through `pd.ExcelWriter`/xlsxwriter: a foreign binary encoder.
- `datetime.now()` and `strftime`: the timestamp is an opaque string parameter. The display sort by `Data`
  (app.py:122) is presentation only. Because of the `"%Y-%m-%d %H:%M"` format, that sort is chronological.
- Number formatting (`:,.2f`, `:.1f%`) and binary floating point: amounts are exact reals. NaN amounts, which
  pandas' `sum` would skip, and non-string cells coerced by `str()` are not modelled.
- The `if not df.empty` guards (app.py:61, 84): the model's views are defined on empty tables too. There they
  give no edit choices, zero totals and no panels.
- Lost updates between concurrent sessions (last writer wins on the CSV file): concurrency, not modelled.
- Sales.SalesTable.Update: the IndexError that `.values[0]` (app.py:67) and `.index[0]` (app.py:71) raise when
  no row matches the chosen customer is modelled as `found == false` with the table unchanged, not as an
  exception.
- Type conversion of the Klient column on reload: when every customer name looks numeric, `read_csv` reads
  them as numbers, so "007" and "7" become one customer. The snapshot model keeps names as saved.
- Customer cells that pandas reads back as NaN (the names "NA", "N/A", "null", "nan" and the other default NA
  strings of `read_csv`): customers are always strings here. So `Sales.Prefill`, which requires the customer
  to be one of the edit choices, never meets the unmatched NaN choice that makes app.py:67 raise.
