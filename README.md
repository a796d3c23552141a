# strava-marimo-analyzer: a verified model of the notebook's data logic

The notebook `app.py` downloads a Strava athlete's activities, keeps the runs in a
chosen date range, and draws them as a year-week by weekday heatmap. A click on the
heatmap narrows the activity table to the selected cells. This project models that data
path in Dafny and proves what each step promises:

- `Fetch`: `_fetch_activities` asks for pages 1, 2, 3, ... and appends each page until
  one comes back empty. The remote list is a sequence of pages. The model is a method
  with a loop that is proved to return the pages before the first empty one,
  concatenated in order, and to request exactly pages 1 to that empty page.
- `Frames`: a data frame is the sequence of its rows. `DataFrame.filter` keeps the rows
  that satisfy a predicate, in order, each with its own multiplicity.
- `Activities`: `filtered_df` keeps the activities whose `sport_type` is `"Run"` and
  whose start lies between the start date and the last second (23:59:59) of the end
  date, both ends included.
- `Heatmap`: the group-by on (ISO year, ISO week, weekday) sums the distance, takes the
  earliest start and collects the ids of each cell. The `days` map names weekdays 1 to 7
  Monday to Sunday. Each cell then gets its day name and its `"year - week"` label.
- `WeekOrder`: `sorted_years_week` orders the labels latest week first, comparing year
  and week as numbers, so week 10 comes before week 3.
- `Selection`: `displayed_activities` is `filtered_df` when nothing is selected.
  Otherwise it is the inner join of `filtered_df` with the exploded ids of the selected
  cells.
- `Duration`: `get_nice_duration` prints whole seconds as `H:M:S`. Each part is padded
  to two digits using `_get_n_digits`.
- `Text`: decimal printing and reading, digit counting and `str.split`, which the labels
  and durations need.
- `Common`: `Option` and `Result`.

Values are modelled as follows:

- Timestamps are whole seconds since the epoch.
- Distances are whole metres.
- Strings are `seq<char>`.
- The ISO year, ISO week and weekday that Polars derives from a start date are fields
  of `Activities.Activity`.

## Model

| member | source | states |
|---|---|---|
| Text.DigitCount | app.py:526-531 | `_get_n_digits`: 1 for 0. For a positive n it is the d with 10^(d-1) <= n < 10^d. A negative n fails, as `math.log10` raises. |
| Text.DigitCountIsLength | app.py:526-531 | The digit count of n is the length of n printed in decimal. |
| Text.Show | app.py:540-544 | `str(n)` is a non-empty string of digits. It starts with `'0'` only for 0. |
| Text.Read | app.py:477 | `int(p)` of a string of digits is below 10 to the power of its length. Text.ReadShow shows it inverts `str`. |
| Text.ReadShow | app.py:540-544 | Reading a printed number back gives the number, so the f-string parts can be recovered. |
| Text.Split | app.py:477 | `str.split` always returns at least one piece. |
| Text.SplitAfter | app.py:477 | Splitting `a + sep + b`, where no character of `a` starts `sep`, gives `a` and then the pieces of `b`. |
| Duration.ToClock | app.py:536-538 | Floor `//` and `%` split the seconds into hours, minutes and seconds with `h*3600 + m*60 + s` equal to the input. Minutes and seconds are in 0..59. Hours are negative exactly when the input is. |
| Duration.Pad | app.py:540-542 | A part below 10 is printed behind one `"0"`. A part of two or more digits is printed as is. A negative part fails. |
| Duration.PadReadsBack | app.py:540-542 | A padded part has at least two digits and reads back as the part. It starts with `'0'` exactly when the part is below 10, and then has exactly two digits. |
| Duration.NiceDuration | app.py:533-544 | Succeeds exactly for non-negative seconds. A negative input fails with the math domain error. |
| Duration.NiceDurationParts | app.py:533-544 | For non-negative seconds the text splits on `":"` into exactly the three padded parts, and these read back as hours, minutes and seconds. |
| Duration.NiceDurationRoundTrip | app.py:533-544 | Parsing the output of `get_nice_duration` (split on `":"`, three non-empty digit parts, each read as `int()` reads it) gives back the number of seconds. |
| Duration.NiceDurationExamples | app.py:533-544 | 0 gives `00:00:00`. 3661 gives `01:01:01`. 360000 gives `100:00:00`. -1 fails. |
| Fetch.Page | app.py:654 | `client.get_activities(page=page, per_page=200)`: page p (from 1) is the p-th served page, and every page before 1 or past the last is empty. |
| Fetch.NonEmptyRun | app.py:653-657 | The number of pages before the first empty page. |
| Fetch.ConcatLength | app.py:659 | The concatenated pages hold as many rows as the pages together. |
| Fetch.ConcatPlacesPage | app.py:659 | Row k of page p is at position (size of pages before p) + k of the concatenation. |
| Fetch.FetchActivities | app.py:649-661 | The result is the pages before the first empty one, concatenated in order. The requests are exactly (1, 200), (2, 200), ..., (first empty page, 200) as (page, per_page), and the last page requested is empty. |
| Frames.Filter | app.py:615-619 | A filtered frame is no longer than the frame. Each row appears as often as in the frame if it is kept, and otherwise not at all. |
| Frames.FilterMembership | app.py:615-619 | A row is in the filtered frame exactly when it is in the frame and is kept. |
| Frames.FilterIsOrderedSubsequence | app.py:615-619 | The i-th filtered row is the row at the i-th of an increasing list of kept positions, so filtering never reorders rows. |
| Frames.FilterTwice | app.py:615-619 | Two filters in a row equal one filter on the conjunction. |
| Frames.FilterAppend | app.py:615-619 | Filtering distributes over concatenation of frames. |
| Frames.FilterKeepsDistinct | app.py:52-55 | Filtering a frame whose rows all differ gives rows that all differ. marimo's `heatmap_selection.value` is such a filter of the rows of `source`, so it never lists a cell twice. |
| Frames.FilterAgree | app.py:62 | Two predicates that agree on every row of a frame filter it to the same rows. |
| Frames.MapPermutation | app.py:476 | Taking one column of the rows of a frame in another order gives the same values in another order (the same multiset). |
| Activities.EndOfDay | app.py:617 | `replace(hour=23, minute=59, second=59)` lands in the same day at its last second, and never before the date. |
| Activities.FilteredActivities | app.py:615-619 | `filtered_df` (Activities.Kept on every row) holds exactly the runs of `whole_df` starting between the start and the last second of the end day, inclusive. Each keeps its multiplicity. |
| Activities.FilteredActivitiesKeepOrder | app.py:615-619 | `filtered_df` lists its rows in their `whole_df` order. |
| Activities.FilterBoundaries | app.py:616-618 | Both ends of the range are inclusive. A run one second outside either end is dropped. |
| Heatmap.EarliestStart | app.py:463 | `start_date.min()` is one of the cell's start dates and is not later than any of them. |
| Heatmap.IdsOf | app.py:463 | The cell's id list has one id per member row, in row order. |
| Heatmap.SummaryOfOne | app.py:461-464 | A cell with one activity has its distance, its start and its id. |
| Heatmap.SummaryAppend | app.py:461-464 | Adding an activity to a cell adds its distance, takes the earlier start and appends its id. |
| Heatmap.GroupIsSummary | app.py:461-464 | A cell exists exactly when some activity has its year, week and day. Its value is the sum, the minimum and the id list of exactly those activities. |
| Heatmap.Group | app.py:461-464 | The cells are exactly the (year, week, day) triples of the activities. Heatmap.GroupIsSummary gives each cell's value. |
| Heatmap.CellContents | app.py:461-464 | A cell's members are the activities with its key. Its distance is their total, its date is their earliest start, and its ids are theirs in order. |
| Heatmap.IdInOwnCell | app.py:461-464 | Every activity's id is listed in its own cell. |
| Heatmap.IdInNoOtherCell | app.py:461-464 | With unique activity ids, an activity's id is listed in no other cell. |
| Heatmap.DayName | app.py:466 | `replace_strict(days)` names exactly the day numbers 1 to 7 and fails on any other. |
| Heatmap.DayNamesMondayFirst | app.py:689-702 | The `days` map names days 1..7 Monday..Sunday, each with a different name. |
| Heatmap.Decorate | app.py:465-472 | A cell is decorated exactly when its day is 1..7. It gets that day's name and exactly the label `LabelOf((year, week))`, which parses back to its year and week. Its date, distance and ids are kept. |
| Heatmap.HeatmapSource | app.py:455-473 | The heatmap table exists exactly when every weekday is 1..7. It has one row per group cell, carrying the cell's day name, exactly the label `LabelOf((year, week))` of its key, and its ids, distance and date. |
| Heatmap.LabelColumn | app.py:476 | `source["year_week"].to_list()`: one label per listed cell of the table. Heatmap.LabelColumnIsLabels gives the labels themselves. |
| Heatmap.LabelColumnIsLabels | app.py:475-476 | The `year_week` column, read in any listing of the table's cells, is Labels of those cells' (year, week) pairs: one canonical, parsable label per cell. |
| Heatmap.SortedWeeksIgnoreCellOrder | app.py:461-478 | Two listings of the same cells in different orders give the same `sorted_years_week`. |
| WeekOrder.YearWeekLabel | app.py:467-469 | `concat_str(year, week, separator=" - ")`: WeekOrder.ParseLabel, the split and `int()` of the sort key at app.py:477, reads the year and the week back from it. |
| WeekOrder.LabelInjective | app.py:467-469 | Different (year, week) pairs get different labels. |
| WeekOrder.Labels | app.py:476 | One label per cell of the heatmap table, in order: each parses, is printed as `concat_str` prints it, and is keyed by that cell's (year, week). |
| WeekOrder.Insert | app.py:475-478 | Inserting a label adds exactly that label. |
| WeekOrder.InsertKeepsOrder | app.py:475-478 | Inserting into a latest-first list keeps it latest first. |
| WeekOrder.SortYearWeeks | app.py:475-478 | `sorted_years_week` is a permutation of the labels, ordered by (year, week) as numbers, latest first. |
| WeekOrder.SortedIsUnique | app.py:475-478 | Two latest-first orderings of the same labels are equal, so the order is fully determined. |
| WeekOrder.SortIgnoresColumnOrder | app.py:461-478 | The sorted labels do not depend on the order in which the group-by emits its cells. |
| WeekOrder.ExampleLabels | app.py:467-469 | ISO year 2025, weeks 3 and 10 are labelled `"2025 - 3"` and `"2025 - 10"`. |
| WeekOrder.SortTwo | app.py:475-478 | Of two labels, the one of the later week is sorted first. |
| WeekOrder.WeekTenBeforeWeekThree | app.py:477 | Week 10 sorts before week 3 (numeric, not text, order). |
| Selection.ExplodedIdsAreSelected | app.py:60 | An id is in the exploded column exactly when some selected cell lists it. |
| Selection.ExplodeIds | app.py:60 | Every selected cell's ids occur in the exploded column at least as often as in the cell. |
| Selection.Matches | app.py:62 | The rows the join makes for one activity are copies of it, and there are some only if its id was exploded. |
| Selection.JoinOnId | app.py:62 | Every joined row is a row of `filtered_df` whose id was exploded. Selection.JoinCount gives the multiplicities. |
| Selection.MatchesCount | app.py:62 | An activity is joined once per exploded id equal to its own. |
| Selection.JoinCount | app.py:62 | The join holds each activity (its count in `filtered_df`) × (its id's count in the exploded ids) times. |
| Selection.Displayed | app.py:55-56 | With nothing selected, the displayed activities are `filtered_df` itself. |
| Selection.DisplayedRows | app.py:57-62 | With a selection, an activity is displayed exactly when it is in `filtered_df` and a selected cell lists its id. |
| Selection.MatchesOnce | app.py:62 | With no repeated exploded id, an activity is joined once if its id is selected, otherwise not at all. |
| Selection.JoinIsFilter | app.py:55-62 | With no repeated exploded id, the join is the order-preserving filter of `filtered_df` on "id is selected". |
| Selection.Selected | app.py:52-55 | `heatmap_selection.value`: one table row per clicked cell, each a row of the heatmap table. As a filter of `source` it lists distinct cells (Frames.FilterKeepsDistinct), which is the distinct-keys requires of Selection.ExplodedIdsDistinct and Selection.DisplayedClickedCells. |
| Selection.HeatmapShowsGroup | app.py:455-473 | The heatmap table lists, for each cell, the ids of the group-by cell of the same key. |
| Selection.CellIdsDistinct | app.py:461-464 | With unique activity ids, no id is listed twice in one cell. |
| Selection.CellIdsDisjoint | app.py:461-464 | With unique activity ids, an id listed in one cell is listed in no other. |
| Selection.ExplodedIdsDistinct | app.py:60 | With unique activity ids, exploding distinct clicked cells repeats no id. |
| Selection.IdSelectedIffCellClicked | app.py:60-62 | With unique activity ids, an activity's id is exploded exactly when its own cell was clicked. |
| Selection.DisplayedClickedTable | app.py:55-62 | With unique activity ids and distinct clicked cells, the displayed activities are `filtered_df` when nothing is clicked, and otherwise the order-preserving filter of `filtered_df` on "its cell was clicked". |
| Selection.DisplayedClickedCells | app.py:55-62 | The same for the cells of the heatmap table itself. |

## Left out

- The marimo UI, Altair charts, statistics cards, histograms and the per-activity focus
  view are presentation only. They are not modelled.
- The Strava client, the network and authentication are not modelled. A request for
  page p is modelled as `Fetch.Page`, reading page p of a given sequence of pages.
- `mo.cache` memoisation is not modelled.
- The `per_page=200` argument is `Fetch.PerPage` and is recorded with each request. Nothing in the
  model relies on the server to honour it.
- A retry, back-off or skip of failing page requests does not exist in `app.py`, so it
  is not modelled. A failing request propagates there.
- The order of requests is recorded in a ghost log of (page, per_page) pairs. Nothing in the
  notebook reads that log.
- The speed helpers (`_from_mt_s_to_min_km`, `get_mt_km_speed`, `get_average_speed`),
  `get_column_sum` and `get_average_column` work on floats. Floating point is not
  modelled.
- `kms = distance / 1000` is a float column, and so is its rounding to two decimals for
  `Kilometers`. The cells sum whole metres instead.
- Heatmap.GroupIsSummary: the summed distance is exact. It does not model float
  rounding of the summed kilometres.
- Polars derives the ISO year, ISO week and weekday from the start date. That calendar
  computation is not modelled; the fields are inputs of each activity.
- `get_start_date` and `get_end_date` come from date pickers. They are parameters here,
  as timestamps.
- Duration.NiceDuration: takes whole seconds. `int(_seconds)`, which truncates a float
  average, is not modelled.
- Text.DigitCount: counts digits exactly. For very large n, `int(math.log10(n)) + 1`
  can be off by one because of float rounding. That cannot change the `>= 2` test that
  uses it.
- Polars does not fix the row order of `group_by`. The cells are therefore a map, and
  WeekOrder.SortIgnoresColumnOrder shows that the order does not matter for the sorted
  labels.
- Polars does not fix the row order of an inner join either. `Selection.JoinOnId` lists
  the joined rows in `filtered_df` order.
- The join also carries the selected cell's extra columns (day name, label, date,
  kilometres). These are not modelled; only the activity rows are.
- `start_date_str` and the other columns that are added only for display are not
  modelled.
- WeekOrder.SortYearWeeks: requires every label to be two digit strings around `" - "`.
  That always holds for labels built from ISO years and weeks. Python's `int()` would
  also accept signs and spaces.
