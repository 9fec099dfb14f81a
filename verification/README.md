# Ethercheck front end: room picker, request builder and chart merge

This project is a Dafny model of the logic in the Ethercheck monitoring
dashboard. The dashboard is a single page. The user picks rooms, a time range
and a display mode, asks the monitoring server for packet-loss series, and
sees them as one line chart. Two components hold logic:

- The graph page (`src/pages/MainPage.jsx`). It keeps the room selection
  state: the picked rooms plus a summary-mode flag. Clicking a room item
  updates that state, and each item shows a check mark derived from it. The
  page cleans the room list the server sends. When a graph is requested it
  turns the state into the `rooms=` query value, or refuses with "select
  rooms". It also renders calendar times for the datetime inputs and rewrites
  them into the endpoint's date format.
- The chart (`src/pages/EthercheckChart.jsx`). It shows a "no data"
  placeholder when the response has no datasets. Otherwise it merges the
  `{label, data:[{x, y}]}` datasets into one table keyed by the raw `x` text.
  A later write to the same `(x, label)` cell overwrites an earlier one. The
  rows are sorted by parsed time. Each dataset gets one line, coloured by its
  own `borderColor` or by an eight-hue palette.

Modules:

- `Results` (`results.dfy`): `Option` and `Result`.
- `Seqs` (`seqs.dfy`): sequences without repeated entries.
- `Text` (`text.dfy`): decimal rendering of naturals and its inverse. It also
  has comma joining (`Array.prototype.join`) and a splitter that undoes it.
- `RoomSelection` (`room_selection.dfy`): the selection state, the
  transitions, the check marks, room-list loading and the `rooms=` value.
- `DateFormat` (`date_format.dfy`): `formatDateTime` and `formatDateForApi`.
  A parser for the `YYYY-MM-DD<sep>HH:MM` form serves as their reference.
- `Palette` (`palette.dfy`): `getLineColor` and the per-line stroke choice.
- `ChartData` (`chart_data.dfy`): the guard, the merge, the rows, the sort
  and the lines.

Boundaries of the model:

- Parsing a time text (`new Date(a.time)` used as a number) is the function
  parameter `parse: string -> int`.
- The `y` values are `real`. The merge only copies them.
- Network requests, the clock and rendering are outside the model. The
  response of the room-list request is the input `RoomsPayload`. The graph
  response is the input `Option<Payload>`.

Two points of the chart code worth noting:

- Rows are keyed by the raw `x` text, and nothing is dropped, so two texts
  that parse to the same instant give two rows. The rows are ordered
  non-decreasingly by parsed time, not strictly.
- The chart reads only `data`. It ignores the `isSummary` property
  MainPage.jsx:316 passes it.

## Model

| member | source | states |
|---|---|---|
| RoomSelection.Toggle | src/pages/MainPage.jsx:71-92 | Clicking "total" always gives exactly `["total"]` with summary off. Clicking "summary" always gives summary on with nothing selected. Summary mode is on afterwards exactly when "summary" was clicked. A click on anything but "total" leaves "total" out of the selection. No click adds the "summary" pseudo-room or a duplicate. A plain room is selected afterwards exactly when it was not already selected in a plain (non-aggregate, non-summary) selection. |
| RoomSelection.Without | src/pages/MainPage.jsx:87 | The filter removes exactly the given room and keeps everything else. It keeps rooms distinct. |
| RoomSelection.WithoutAppend | src/pages/MainPage.jsx:87 | The filter distributes over concatenation, so the kept rooms stay in their order and multiplicity. |
| RoomSelection.InitialConsistent | src/pages/MainPage.jsx:6-8 | The initial state (no rooms, empty selection, summary off) satisfies the invariant, no item is marked, and an immediate graph request is refused. |
| RoomSelection.ToggleKeepsConsistent | src/pages/MainPage.jsx:71-92 | Clicks preserve the reachable-state invariant: no duplicates, no "summary" entry, an empty list in summary mode, "total" only on its own. |
| RoomSelection.ClearUnmarks | src/pages/MainPage.jsx:243 | The clear button (`Clear`) keeps the invariant. Afterwards only the "summary" item can be marked, and it is marked exactly when summary mode was on. |
| RoomSelection.ToggleLeavesAggregate | src/pages/MainPage.jsx:80-89 | A plain room clicked while "total" is selected or summary mode is on becomes the only selected room, with summary off. |
| RoomSelection.ToggleAppends | src/pages/MainPage.jsx:86-90 | In a plain selection, clicking an unselected plain room gives the old rooms in their old order followed by the clicked room, with summary off. |
| RoomSelection.ToggleRemoves | src/pages/MainPage.jsx:86-88 | In a plain selection, clicking a selected plain room gives the selection filtered by `Without`, which keeps the other rooms in their order (`WithoutAppend`), with summary off. |
| RoomSelection.ToggleTwiceRestores | src/pages/MainPage.jsx:86-90 | In a plain selection without the room, clicking that room twice restores the selection exactly. |
| RoomSelection.ToggleTwiceMovesLast | src/pages/MainPage.jsx:86-90 | In a plain selection holding the room, clicking it twice moves the room to the end. When the selection has no repeats, the rooms stay the same (same multiset). |
| RoomSelection.MarksShowRequest | src/pages/MainPage.jsx:139-143 | The check marks (`IsSelected`) show what the next request asks for. In summary mode only the "summary" item is marked. Otherwise, whenever the request can be built, an item is marked exactly when the `rooms=` value, split at commas, names it. This holds when no selected room id contains a comma. |
| RoomSelection.ToggleFlipsMark | src/pages/MainPage.jsx:80-90 | From any consistent state, clicking a plain room flips that room's check mark. |
| RoomSelection.ToggleKeepsOtherMarks | src/pages/MainPage.jsx:86-90 | In every consistent state, clicking one plain room leaves every other plain room's mark unchanged. |
| RoomSelection.AggregateMarks | src/pages/MainPage.jsx:74-79 | After clicking "total" only the "total" item is marked. After clicking "summary" only the "summary" item is marked. |
| RoomSelection.CleanRooms | src/pages/MainPage.jsx:56 | A room survives cleaning exactly when it was loaded and is neither "total" nor "summary". |
| RoomSelection.CleanRoomsAppend | src/pages/MainPage.jsx:56 | Cleaning distributes over concatenation, so the kept rooms stay in their loaded order. |
| RoomSelection.CleanRoomsPlain | src/pages/MainPage.jsx:56 | A list without pseudo-rooms is returned unchanged, so cleaning is idempotent. |
| RoomSelection.OnRoomsLoaded | src/pages/MainPage.jsx:51-60 | An empty or unrecognised response leaves the page unchanged. The list is the response's `rooms` array, or the response itself when that is an array (`LoadedRooms`). A non-empty list selects exactly `["total"]` with summary off, and the page's rooms become its cleaned copy: exactly the loaded rooms that are neither "total" nor "summary", in loaded order. |
| RoomSelection.OnRoomsFailed | src/pages/MainPage.jsx:64 | A failed load keeps the selection and lists exactly the fallback rooms `["204", "430", "536"]`, all plain. |
| RoomSelection.ConsistentAfterLoad | src/pages/MainPage.jsx:55-64 | Loading, or failing to load, keeps the invariant. After a non-empty list arrives, the request asks for "total". |
| RoomSelection.RoomsParam | src/pages/MainPage.jsx:106-114 | The request is refused exactly when summary mode is off, "total" is not selected and the selection is empty. Outside summary mode, a selection holding "total" asks for "total". In summary mode with no rooms listed, the request is not refused: it is sent with an empty `rooms=` value. |
| RoomSelection.RoomsParamNamesRooms | src/pages/MainPage.jsx:106-114 | Splitting the `rooms=` value at commas gives back every listed room in summary mode, or otherwise the selection in click order. This holds when no room id contains a comma. |
| DateFormat.Pad2 | src/pages/MainPage.jsx:23 | The padded text is at least two digits. Below 100 it is exactly two digits and reads back as the number. |
| DateFormat.FormatDateTimeRoundTrip | src/pages/MainPage.jsx:22-25 | For a four-digit year the text `FormatDateTime` renders is 16 characters. The `YYYY-MM-DDTHH:MM` parser reads it back as the same calendar fields. |
| DateFormat.ReplaceFirstAt | src/pages/MainPage.jsx:97 | `ReplaceFirst`, `replace` with a string pattern, changes only the first occurrence. |
| DateFormat.FormatDateForApi | src/pages/MainPage.jsx:94-98 | Empty input gives `""`. Input holding a space is returned unchanged. Other input gives `min(length, 16)` characters equal to the input except that the first `T` becomes a space. |
| DateFormat.FormatDateForApiIdempotent | src/pages/MainPage.jsx:94-98 | Formatting for the endpoint twice equals formatting once. |
| DateFormat.ApiStampRoundTrip | src/pages/MainPage.jsx:94-98 | A rendered calendar time becomes `YYYY-MM-DD HH:MM` for the endpoint, and that reads back as the same fields. |
| Palette.Hue | src/pages/EthercheckChart.jsx:62-64 | The hue picked for any index is one of the eight listed hues. |
| Palette.LineColorPeriodic | src/pages/EthercheckChart.jsx:62-65 | The line colour (`LineColor`) for index `i` equals that for `i + 8`. |
| Palette.LineColorDistinct | src/pages/EthercheckChart.jsx:62-65 | Two indices get the same colour exactly when they are congruent modulo 8. |
| ChartData.Put | src/pages/EthercheckChart.jsx:31-36 | One assignment keeps the table well formed: keys listed once, each with a row. It adds at most the written key, and afterwards the written cell holds the written value. |
| ChartData.Apply | src/pages/EthercheckChart.jsx:24-38 | Performing the writes in order keeps the table well formed: every key is listed once and has a row, and no row is unlisted. |
| ChartData.ApplyKeys | src/pages/EthercheckChart.jsx:30-34 | The table keys after the writes (`Apply`) are the keys before plus every written `x`. |
| ChartData.ApplyUntouched | src/pages/EthercheckChart.jsx:30-36 | A cell no write touches keeps its presence and its value. |
| ChartData.ApplyCells | src/pages/EthercheckChart.jsx:30-36 | A cell is present afterwards exactly when it was present before or some write touched it. |
| ChartData.ApplyLastWins | src/pages/EthercheckChart.jsx:36 | The cell of a write that no later write overwrites holds that write's value. |
| ChartData.DatasetWithoutDataIgnored | src/pages/EthercheckChart.jsx:27 | Removing a dataset without `data` leaves the merged table identical. |
| ChartData.WrittenXs | src/pages/EthercheckChart.jsx:26-31 | The written `x` texts are exactly the `x` of some point of some dataset. |
| ChartData.Rows | src/pages/EthercheckChart.jsx:41 | There is one row per table key, with pairwise different times. Each row holds that key's values, and every key has a row. |
| ChartData.Insert | src/pages/EthercheckChart.jsx:41-43 | Insertion adds exactly the one row (multiset). |
| ChartData.SortRows | src/pages/EthercheckChart.jsx:41-43 | Sorting returns a permutation of the rows. |
| ChartData.InsertSorted | src/pages/EthercheckChart.jsx:41-43 | Inserting into rows sorted by parsed time keeps them sorted. |
| ChartData.SortRowsSorted | src/pages/EthercheckChart.jsx:41-43 | The sorted rows are non-decreasing in parsed time. |
| ChartData.LineStrokes | src/pages/EthercheckChart.jsx:112-118 | Each line (`Lines`, coloured by `Palette.Stroke`) takes its dataset's own non-empty `borderColor`. Otherwise it takes `hsl(<hue>, 85%, 60%)` with one of the eight palette hues. Two lines whose datasets bring no colour get the same colour exactly when their positions are a multiple of eight apart. |
| ChartData.PlottedSeriesHaveLines | src/pages/EthercheckChart.jsx:112-116 | Every value in a plotted row is drawn: for each label a row holds a value for, some line (`Lines`, one per dataset) reads that label. |
| ChartData.Render | src/pages/EthercheckChart.jsx:13-21 | The placeholder appears exactly when the data, its `datasets` or the list is missing or empty. Otherwise the rows are non-decreasing in parsed time, form a permutation of the merged table's rows, and the lines are `Lines` of the datasets: line k reads dataset k's label with stroke `Palette.Stroke(borderColor, k)`, whose colours `LineStrokes` describes. |
| ChartData.RowPerDistinctX | src/pages/EthercheckChart.jsx:30-43 | Plotted rows have pairwise different times, their times are exactly the written `x` texts, and the row count is the number of distinct `x`. |
| ChartData.PlottedRow | src/pages/EthercheckChart.jsx:41 | Each plotted row is the merged table's row for its time. |
| ChartData.PlottedSeriesWritten | src/pages/EthercheckChart.jsx:30-36 | A plotted row holds a value for a label only if some point at that time wrote it. |
| ChartData.PlottedLastWins | src/pages/EthercheckChart.jsx:26-38 | The nested loops write each dataset's points in order (`DatasetWrites`, `Writes`) into an empty table (`Merge`). For the last point written to an `(x, label)` cell in dataset-then-point order, the plot has a row for `x`, and that row shows the point's value. |

## Left out

- Network requests are not modelled: their URLs, headers, `res.ok` checks, `async` flow and the error banner (MainPage.jsx:39-69, 100-137). Only their results enter the model, as inputs.
- The `mounted` flag that discards a late room-list response is not modelled. It is a concurrency guard around I/O.
- `toggleRoom` also clears the shown graph (`setGraphResult(null)`). The model has no graph slot on the page, because showing a graph is rendering.
- `setTimeRange` is not modelled. It reads the clock. Only `formatDateTime`, which it calls, is modelled, on explicit calendar fields.
- `LocalDateTime` takes the calendar fields `Date` reports. How `Date` derives them from an instant and a time zone is not modelled. `FormatDateTime` is defined for every year, but its round-trip lemmas cover four-digit years only. Other years do not fit the 16-character form.
- `new Date(text)` parsing is the `parse` parameter. The source's unparsable times give `NaN`, which makes the sort comparator inconsistent. The model's total `parse` cannot express that.
- ChartData.SortRows: the model states sortedness and permutation but not the relative order of rows with equal parsed times. The JavaScript sort is stable, and the model does not prove stability.
- `Object.values` lists integer-like keys (such as an epoch-seconds text `"1717171717"`) first, in ascending numeric order, and the other keys in insertion order. The model lists every key in first-met order. The stable sort then leaves rows with equal parsed times in a different relative order than the source would.
- DateFormat.FormatDateForApi: JavaScript's `length` and `slice(0, 16)` count UTF-16 code units, while the model counts characters (Unicode scalar values). The two differ only for text outside the Basic Multilingual Plane. The date texts the page produces (the datetime-local input and `formatDateTime`) are ASCII, where they agree.
- In the source, a dataset labelled `time` would overwrite a row's `time` field. An `x` text named like an `Object.prototype` member (`constructor`) would be treated as already present. The model keeps time and values in separate fields and treats every `x` text as an ordinary key.
- The model keeps a room list's entries and dataset fields as strings and `y` as a number, and its `Payload`, `Dataset` and `Point` types admit only well-shaped values. Some JSON shapes make the chart's render throw instead of drawing. These are a `datasets` value that is truthy but not an array (EthercheckChart.jsx:26), a `null` dataset (line 27), a `data` value that is truthy but not an array (line 30) and a `null` point (line 31). The model's types exclude them. Other scalar types in those fields would be coerced by JavaScript, and the model does not cover that either.
- Everything of `EthercheckChart` after the data path is library configuration: time and tooltip formatting via `toLocale*String`, axes, grid, tooltip, legend, and the line key and legend name. `src/App.js` and `src/App.jsx` are demo and routing wrappers with no logic.
