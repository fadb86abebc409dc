# Incident dashboard: filtering and counting, in Dafny

The incident dashboard is a Streamlit script (`local.py`) over a table of
incident reports from a call centre. Its only logic is a pipeline that runs
top to bottom on every interaction:

1. a **date step**: when the picked dates are the dataset's oldest and latest
   dates nothing is filtered; when the end date is after the start date the
   rows with `start_stamp <= incident_date_time < end_stamp` (string
   comparison of ISO timestamps) are kept; otherwise a warning is shown and no
   date filter is applied;
2. four **cascading select boxes** (region, purpose, intervention, status).
   Each one is offered the distinct values of its column among the rows left
   so far, in order of first appearance, with `'All'` appended and selected by
   default. The pick is stored in the shared `my_data` holder; `'All'` keeps
   the rows and any other value keeps the rows equal to it;
3. **`tot_calls`**, the number of rows left;
4. **count tables**: `value_counts()` of region, county, purpose, caller
   gender, status and intervention, and `groupby(...).count()` cross tables of
   purpose by gender and region by gender.

The model:

- `string_order.dfy` (`StringOrder`): Python's order on `str`, proved a strict
  total order. The date step and `groupby`'s key order rely on it.
- `counting.dfy` (`Counting`): occurrence counts, `Unique` (what
  `Series.unique` returns) and `Tally`, a count table in first-appearance order.
- `rows.dfy` (`Incidents`): the `Row` record, the columns, the boolean masks
  of the script (`Criterion`), `Select`/`Where` (filtering by masks) and
  `Options` (a select box's option list).
- `sidebar.dfy` (`Sidebar`): `RunSidebar`, the imperative script of lines
  62-159. It rebinds `df` step by step, builds each menu from the current
  rows and overwrites `my_data` with each non-empty pick. Its contract says
  that the final rows are the loaded rows filtered once by every active mask.
  It also says that each menu comes from the rows the earlier steps left, and
  that picks taken from the menus never empty rows that the date step left.
  Lemmas beside it state the date-range cases and the meaning of a pick.
- `stats.dfy` (`Stats`): `ValueCounts`, `CrossTab` and `Summarise` (lines
  169-189).
- `scenarios.dfy` (`Scenarios`): five calls, three from Nairobi. Picking
  Nairobi leaves three rows, and the region table is `[("Nairobi", 3)]`.

Behaviour of the script that the model keeps as written:

- A start date equal to the end date, other than the full range, is refused
  with a warning and the rows are left unfiltered (no empty result).
  `Sidebar.RejectedRangeKeepsRows` states this.
- A refused range applies no date filter at all; no earlier range is
  remembered.
- `value_counts` fixes no order among equal counts, and the model states
  none.
- `groupby` returns its groups sorted by key (first column, then second),
  and the model states that order.
- The script never checks a pick against its menu; the select box alone
  limits it. The model takes the picks as inputs, and `Offered` states the
  select box's guarantee where a property needs it.
- An empty pick is falsy in Python and skips its step entirely (no filter,
  no change to `my_data`). The model keeps this behaviour.

## Model

| member | source | states |
|---|---|---|
| `StringOrder.LessTrichotomous` | local.py:72 | any two timestamp strings compare one way or the other or are equal |
| `StringOrder.LessTransitive` | local.py:72 | string `<` is transitive |
| `Counting.Unique` | local.py:81 | the distinct values of a column: each value of the column occurs, and each only once |
| `Counting.UniqueInFirstAppearanceOrder` | local.py:81 | those values are listed in the order of their first occurrence |
| `Counting.Tally` | local.py:171 | a count table: keys are the distinct values in first-appearance order, each count is the value's number of occurrences, counts sum to the length |
| `Incidents.SelectIsSubsequence` | local.py:72 | a filtered table is the original with rows left out and the rest in their order |
| `Incidents.SelectMembers` | local.py:97 | a row is kept iff it is in the table and passes every mask |
| `Incidents.SelectMultiplicity` | local.py:116 | a passing row is kept as often as it occurs, a failing row never |
| `Incidents.SelectThenSelect` | local.py:93-159 | rebinding `df` to a filter of itself equals one filter by both mask lists |
| `Incidents.SelectIdempotent` | local.py:155-159 | filtering the result again by the same masks changes nothing |
| `Incidents.SelectStronger` | local.py:112-116 | stronger masks keep an ordered part of what weaker masks keep, never more |
| `Incidents.OptionsShape` | local.py:81-84 | options: every value of the current rows once, first-appearance order, then `'All'`, which the default index selects |
| `Incidents.PickFromOptionsKeepsRows` | local.py:81-97 | an offered value other than `'All'` keeps at least one row |
| `Incidents.CountIsRowsKept` | local.py:171 | the count of a value is the number of rows `df[df[c] == v]` keeps |
| `Sidebar.ApplyPick` | local.py:89-97 | a select-box step: `'All'` or an empty pick keeps the rows, any other pick filters by it; `my_data` takes every non-empty pick |
| `Sidebar.RunSidebar` | local.py:62-159 | final rows = loaded rows filtered by all active masks; warning iff the range is refused; each menu from the rows upstream steps leave; `my_data` is the last non-empty pick; offered picks never empty a non-empty date result |
| `Sidebar.SidebarKeeps` | local.py:62-159 | the final rows are a subsequence of the loaded rows, never more of them, and a row stays iff it passes the date step and every select box |
| `Sidebar.DefaultsKeepEveryRow` | local.py:63-159 | full date range and `'All'` everywhere keep every loaded row |
| `Sidebar.FullRangeSkipsDateStep` | local.py:63-64 | oldest-to-latest leaves the rows unchanged |
| `Sidebar.DateWindow` | local.py:66-72 | end after start: a row survives iff `startStamp <= time < endStamp`, survivors keep their order |
| `Sidebar.DateWindowExcludesEnd` | local.py:72 | a row stamped at or after the end stamp never survives |
| `Sidebar.RejectedRangeKeepsRows` | local.py:74-75 | not the full range and end not after start (one day included): no date filtering |
| `Sidebar.PickMeaning` | local.py:93-97 | `'All'` keeps the rows; a value keeps exactly the rows equal to it, in order |
| `Sidebar.PickFromMenuKeepsSomeRows` | local.py:101-116 | a pick from the menu built from `rows` leaves rows iff `rows` was non-empty |
| `Sidebar.NarrowingNeverGrows` | local.py:89-159 | narrowing select boxes from `'All'` to values keeps an ordered part of the previous rows |
| `Stats.ValueCounts` | local.py:171-177 | each column value once with the number of rows carrying it, non-increasing counts, sum = row count |
| `Stats.AscendingIsStrict` | local.py:179 | a key-sorted table has every key below every later one, so no key repeats |
| `Stats.PairCountIsGroupSize` | local.py:183 | the count of a pair is the size of its group |
| `Stats.CrossTab` | local.py:179-185 | every occurring pair exactly once with its group size (never zero), ascending key order, sum = row count |
| `Stats.Summarise` | local.py:169-189 | `tot_calls` is the number of rows; each of the eight tables is the count table of its own column (region, county, purpose, caller gender, status, intervention) or column pair (purpose × gender, region × gender); the `value_counts` tables have non-increasing counts, the `groupby` tables ascending keys; every table's counts add up to `tot_calls` |
| `Scenarios.NairobiRows` | local.py:97 | picking Nairobi among three Nairobi and two Coast calls leaves the three Nairobi calls |
| `Scenarios.NairobiTable` | local.py:171 | the region table of those three rows is `[("Nairobi", 3)]` |

## Left out

- CSV loading and the `@st.cache` of `get_data` (local.py:20-27): file I/O and a framework cache. The model starts from the loaded rows.
- Streamlit widgets, sidebar headers, the logo, and the `st.write` outputs (local.py:39-57, 73, 163-164, 195-209). This includes the row count shown after a date filter. The warning text becomes the `warned` result of `RunSidebar`.
- `st.session_state.my_data` as a framework object (local.py:29-32). It is modelled as a plain string value, passed in and returned.
- Parsing the oldest and latest dates with `dateutil` and formatting the picked dates with `strftime` (local.py:43-49, 68-69): foreign date code. Dates are day ordinals, and the two formatted stamps are inputs. The model does not relate the order of dates to the order of their stamps.
- The truthiness test `if (start_date and end_date)` (local.py:62): Python `date` values are always truthy, so the model treats both dates as present.
- Columns of the CSV file other than the seven the script uses.
- Missing values (NaN): every field is a string. Under that assumption `groupby(...).caller_gender.count()` equals the group size.
- `Stats.ValueCounts`: states no order among lines with equal counts, because pandas fixes none. The model's own function happens to keep such lines in first-appearance order.
- A literal `'All'` in the data: the menu then lists `'All'` twice, and picking it is still a no-op, as in the script. No separate meaning is modelled.
- Which option the user picks and Streamlit's memory of widget values across reruns: the picks are inputs.
- The Plotly chart helpers and their calls (local.py:218-273): a foreign plotting library, display only.
- The hard-coded quick-stat placeholders (local.py:210-213): constants, not derived from data.
