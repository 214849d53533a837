# grid-nearest-neighbours, modelled in Dafny

grid-nearest-neighbours keeps a rectangular grid of cells. Each cell is
empty or holds an event number, and each event has an offer table that
maps a ticket price (in cents) to the number of tickets left. The
`World` class answers one question: which events that still have
tickets are nearest (Manhattan distance) to a point, cheapest first when
they are equally near? It answers by scanning every cell. It loads the
grid from a CSV file and picks the loader from the file extension. The
helpers in `utils.py` compute the distance, find the lowest price that
still has tickets, and write a grid back out as CSV.

This project models that core and proves properties of it:

- `common.dfy` (`Common`): cells, rows and grids; prices, with `Inf`
  standing for `math.inf`. It also has the Python list operations the
  source relies on: `s[:k]`, `lst[i]` with negative indices, and
  `reversed` / `list.reverse`.
- `pytext.dfy` (`PyText`): the string built-ins the CSV codec uses.
  These are `str.strip()` over Python's white-space set, `str.split(sep)`,
  `sep.join`, `str(int)` and `int(str)` (sign, digits, single
  underscores, and the surrounding white space `int` skips, which leaves
  out the separators U+001C..U+001F that `strip()` removes). It also proves the round trips
  between them.
- `utils.dfy` (`Utils`): `manhattan_distance`, `lowest_positive` and
  `save_grid_as_csv`. Each is a method with its loop, proved against a
  specification function, with lemmas about that function.
- `entries.dfy` (`Entries`): the `(distance, price, event_no)` tuples,
  Python's tuple order on them, and `sort`. It proves that a multiset of
  tuples has exactly one sorted arrangement.
- `world.dfy` (`World`): the extension dispatch, the CSV line parser and
  the brute-force nearest-event query as specifications. It also holds
  the `World` class: `offset`, `get`, `get_lowest_price` as functions;
  `get_nearest_events` and `load_grid_from_csv` as methods with their
  loops; the constructor as `Create`.
  Each nested loop of the source keeps its inner loop in a method of its
  own: `ScanRow` for `get_nearest_events`, `ReadRow` for
  `load_grid_from_csv`, and `RowStrings` (in `Utils`) for
  `save_grid_as_csv`.
- `csv_roundtrip.dfy` (`CsvRoundTrip`): loading the lines written by
  `save_grid_as_csv` gives back the grid when every row has at least one
  cell. A row with no cells reads back as one empty cell.
- `scenario.dfy` (`Scenario`): a worked 3 by 3 example of the query.

Files are modelled as their contents. `load_grid_from_csv` gets the
file's lines (each with its newline, as `for line in f` yields them).
`save_grid_as_csv` returns the lines it would write. `Create` gets the
grid file's lines, the grid a JSON grid file holds, and the offer tables
the event file yields.

Python exceptions are `Err` values of `WorldError`:

- `ValueError` when `int` rejects a field.
- `AssertionError` for a ragged row.
- `IndexError` when `get` is out of range.
- `UnrecognizedFormatError`, with the source's message.

A `KeyError` (an event number with no offer table) is a precondition
(`Catalogued`, `Listed`) instead.

## Model

| member | source | states |
|---|---|---|
| Common.SlicePrefix | world.py:77 | `s[:k]` is a prefix of `s`, of length `min(k, n)` for `k >= 0` and `max(n + k, 0)` for negative `k` |
| Common.PyIndex | world.py:52 | a list index is valid exactly when `-n <= i < n`, and picks element `i`, or `n + i` for a negative `i` |
| Common.Reverse | world.py:107 | the reversed list has the same length, and element `i` is element `n - 1 - i` of the original |
| PyText.Strip | world.py:96 | `strip()` is a slice of `s` with only white space outside it; it is empty exactly when every character is white space, and otherwise starts and ends with a non-space |
| PyText.IntStrip | world.py:99 | the text `int()` reads is a slice of `s` with only characters `int` skips outside it (ASCII `" \t\n\v\f\r"` and non-ASCII white space, not U+001C..U+001F); it is empty exactly when `s` has nothing else, and otherwise starts and ends with another character |
| PyText.IntStripTrailingSpace | world.py:99 | a trailing character `int` skips (the line's newline) does not change what `int` reads |
| PyText.StripTrailingSpace | world.py:96 | a trailing white-space character (the line's newline) does not change `strip()` |
| PyText.Split | world.py:93 | `split` yields at least one piece; no piece holds the separator; there is one piece exactly when the string has no separator |
| PyText.SplitWithoutSeparator | world.py:93 | a string without the separator splits into itself alone |
| PyText.SplitJoin | utils.py:32 | splitting `sep.join(fields)` on `sep` gives back `fields` when no field holds `sep` |
| PyText.JoinSplit | world.py:20 | `sep.join(s.split(sep)) == s` for every string |
| PyText.JoinAvoids | utils.py:32 | a character that is in no field and is not the separator is not in the joined text |
| PyText.JoinAppendLast | utils.py:32-33 | the newline written after the joined cells ends up in the last field |
| PyText.IntToStr | utils.py:31 | `str(x)` is non-empty, ends in a digit, and is digits with at most a leading `-` |
| PyText.ParseInt | world.py:99 | `int(s)` succeeds only when `s` holds a digit, and so only when `s.strip()` is non-empty |
| PyText.IntToStrUnstripped | utils.py:31 | `str(x)` has no white space to strip |
| PyText.IntToStrRoundTrip | world.py:99 | `int(str(x)) == x` for every integer `x` |
| Utils.ZipLength | utils.py:7 | `zip` yields as many pairs as the shorter point has coordinates |
| Utils.ManhattanDistance | utils.py:4-9 | the loop's result is the Manhattan distance over the zipped coordinates, and is never negative |
| Utils.ManhattanNonNegative | utils.py:4-9 | the distance is never negative |
| Utils.ManhattanSymmetric | utils.py:4-9 | `d(a, b) == d(b, a)` |
| Utils.ManhattanSelf | utils.py:4-9 | `d(a, a) == 0` |
| Utils.ManhattanTruncates | utils.py:7 | the extra coordinates of the longer point are ignored |
| Utils.ManhattanTriangle | utils.py:4-9 | the triangle inequality, for points of equal dimension |
| Utils.Manhattan2D | utils.py:4-9 | in two dimensions the distance is the sum of the two axis gaps |
| Utils.SetMin | utils.py:14 | the least element of a non-empty set of prices |
| Utils.SortedSet | utils.py:14 | `sorted(d)` is strictly increasing and holds exactly the keys of `d` |
| Utils.LowestPositiveOf | utils.py:11-17 | the result is a key with a positive value and no smaller key has one; it is `Inf` exactly when no value is positive |
| Utils.LowestPositive | utils.py:11-17 | the loop over the sorted keys returns `LowestPositiveOf(d)`: the least key with a positive value, `Inf` exactly when there is none |
| Utils.LowestPositiveIs | utils.py:14-16 | a key with a positive value below which no key has one is the lowest positive key |
| Utils.CellText | utils.py:28-31 | an empty cell is written as the empty text and only it is; no cell text holds a comma |
| Utils.RowTexts | utils.py:26-31 | one text per cell, in column order |
| Utils.RowStrings | utils.py:26-31 | the inner loop builds one text per cell, in column order: `RowTexts(row)` |
| Utils.CsvText | utils.py:25-33 | one line per row; line `t` is the joined texts of row `n - 1 - t` and a newline, so the last row comes first |
| Utils.SaveGridAsCsv | utils.py:23-33 | the nested loops write exactly `CsvText(grid)` |
| Entries.LessEqTotal | world.py:73 | Python's tuple order is total and antisymmetric on `(distance, price, event_no)` |
| Entries.Insert | world.py:73 | inserting into a sorted list keeps it sorted and adds exactly that tuple |
| Entries.Sort | world.py:73 | `sort` yields a sorted permutation of its input |
| Entries.SortedUnique | world.py:73 | two sorted lists with the same multiset of tuples are equal |
| Entries.SortIsTheSortedPermutation | world.py:73 | any sorted permutation of the tuples is what `sort` returns |
| Entries.SortOfPair | world.py:73 | sorting two tuples puts the lesser first |
| World.Extension | world.py:20 | the extension has no `.`; it is the whole name when the name has no `.`, and otherwise the text after some `.` |
| World.ExtensionAfterLastDot | world.py:20 | the extension of `base.ext` is `ext`, whatever dots `base` holds |
| World.FormatOfDottedName | world.py:20-33 | `csv` and `txt` select the CSV loader, `json` the JSON loader, and every other extension is rejected |
| World.FormatOfUndottedName | world.py:31-33 | a name without `.` is accepted only when it is literally `csv`, `txt` or `json`; `session` is rejected |
| World.ParseFieldSpec | world.py:96-101 | a blank field (white space only, the empty field included) is an empty cell; any other field is the integer `int` reads, or a `ValueError` |
| World.ParseEachSpec | world.py:95-101 | parsing a line's fields succeeds exactly when every field parses, and then yields each field's cell in order |
| World.ParseEachErrorSticks | world.py:99 | the first field `int` rejects decides the error; later fields are not looked at |
| World.ReadRow | world.py:94-101 | the inner loop yields the parsed fields of the line, or the first field's error, and the event numbers of the row |
| World.IdsSpec | world.py:99-101 | the event numbers a row adds are exactly its occupied cells' numbers |
| World.ScanLinesSpec | world.py:92-106 | reading succeeds exactly when every line parses and every row is as long as the first; the rows are then the parsed lines in file order; all lines parsing but one row of another length is an `AssertionError` |
| World.ScanLinesErrorSticks | world.py:99-105 | once a line fails, the later lines do not change the error |
| World.LoadGridSpec | world.py:86-109 | success exactly when every line parses and the rows have equal length; row `r` is then the parsed line `n - 1 - r`, every row has `size.rowLength` cells, `size.rows` is the number of lines, and the row length is `None` only for no lines |
| World.LoadGridEventNos | world.py:86-109 | the returned event numbers are exactly the numbers of the occupied cells of the loaded grid |
| World.GridEntriesSpec | world.py:65-72 | the scan appends one tuple per qualifying cell (occupied, with tickets left) and nothing else |
| World.RowEntriesSpec | world.py:68-72 | the inner loop appends one tuple per qualifying cell of the row, with its distance to `(i, j)` |
| World.NearestEventsSound | world.py:65-77 | every returned tuple is a qualifying cell's, and its price is the least price of that event with tickets left |
| World.SoldOutNeverListed | world.py:70-72 | an event with no tickets left is never returned, however near it is |
| World.AllNearestEvents | world.py:65-75 | with `k = None` the result is sorted, is a permutation of the scan's tuples, has one tuple per qualifying cell, and holds every qualifying cell's tuple |
| World.NearestEventsDeterministic | world.py:73 | the result is the one sorted arrangement of the scan's tuples, so ties in distance and price go by event number |
| World.NearestEventsPrefix | world.py:74-77 | for `k >= 0` the answer is the first `min(k, n)` tuples; answer `k` is a prefix of answer `k + 1`; `k = 0` gives `[]` |
| World.NearestAreLeast | world.py:73-77 | each of the first `k` tuples is at most every tuple left out |
| World.OffsetPreservesDistance | world.py:47-48 | the distance the scan measures from `offset(x)` to cell `(i, j)` is the distance from `x` to that cell moved back by `off`, in the caller's coordinates |
| World.World.constructor | world.py:18 | `off` is `min_coords` negated, so `offset(x) == (x0 - min0, x1 - min1)` for every `x` |
| World.World.Offset | world.py:47-48 | moving `offset(x)` back by `off` gives `x` again |
| World.World.Get | world.py:50-52 | `grid[x0][x1]` at the offset point, with Python's list indexing on both indices (a negative index counts from the end); an `IndexError` exactly when either index is out of range for its list |
| World.World.GetLowestPrice | world.py:54-59 | an empty cell is `Inf`; an occupied cell is its event's `lowest_positive`; the result is `Inf` exactly when the cell is empty or its event is sold out; `get`'s `IndexError` passes through |
| World.World.GetNearestEvents | world.py:61-77 | the nested loops return `NearestEvents(grid, events, offset(x), k)`, which is sorted and, with `k = None`, a permutation of all qualifying cells' tuples |
| World.World.ScanRow | world.py:68-72 | the inner loop appends to the list exactly the row's tuples, `RowEntries(row, j, q, events)` |
| World.World.LoadGridFromCsv | world.py:86-109 | on success `grid` and `size` are `LoadGrid(lines)`'s and the event numbers are returned; otherwise the same error as `LoadGrid` |
| World.World.LoadGridSource | world.py:20-33 | the grid source's extension picks the loader: `csv`/`txt` load the CSV lines into `grid` and `size`, `json` stores the given grid, anything else is `UnrecognizedFormatError`; no error exactly when the source is accepted |
| World.World.Create | world.py:13-45 | the grid source's extension is checked and its loader run first; an unknown extension raises with `"<name> is not in a recognized format."`; success exactly when both sources are accepted; the new world's `offset` subtracts `min_coords` |
| World.GetIsTransposedScan | world.py:52 | at grid-local point `p`, `get` returns the event the scan lists for the cell at `(p1, p0)`, and the scan puts that event at distance `2 * abs(p0 - p1)` from `p` |
| CsvRoundTrip.CellTextRoundTrip | utils.py:28-31 | a written cell reads back as itself |
| CsvRoundTrip.CellTextNewlineRoundTrip | utils.py:33 | the last cell, with the newline after it, reads back as itself |
| CsvRoundTrip.LineFields | utils.py:32-33 | `split(',')` of a written line yields the cell texts, with the newline on the last |
| CsvRoundTrip.LineFieldsParse | utils.py:28-33 | every field of a written line reads back as its cell |
| CsvRoundTrip.CsvLineRoundTrip | utils.py:32-33 | a written line with at least one cell reads back as its row |
| CsvRoundTrip.CsvLineEndsOnlyAtNewline | utils.py:32-33 | a written line's only newline is its last character and it holds no carriage return, so reading the file line by line gives back the written lines |
| CsvRoundTrip.EmptyRowIsBareNewline | utils.py:32-33 | a row with no cells is written as a bare newline |
| CsvRoundTrip.BlankLineReadsAsOneCell | world.py:93-97 | a line of white space only reads as a row of one empty cell |
| CsvRoundTrip.SaveLoadRoundTrip | utils.py:23-33 | loading what `save_grid_as_csv` wrote gives back the grid, with `size == (width, rows)`, for any rectangular grid of width at least 1 |
| CsvRoundTrip.LoadReversedRows | world.py:106-108 | lines that parse to the rows of a grid, last row first, load as that grid |
| Scenario.ExampleCatalogued | world.py:70 | every event on the example grid has an offer table |
| Scenario.ExamplePrices | utils.py:11-17 | the lowest prices with tickets are 500 and 600, and the third event is sold out |
| Scenario.ExampleEntries | world.py:65-72 | the scan of the example finds events 101 and 202, in that order, and skips the sold-out event |
| Scenario.DiagonalEntries | world.py:65-72 | on a 3 by 3 grid with events on the diagonal only, the scan meets them in row order and skips a sold-out one |
| Scenario.ExampleNearest | world.py:61-77 | from any point the example's two events come back nearer first, the cheaper first on a tie |
| Scenario.ExampleFromCentre | world.py:61-75 | from `(1, 1)` the answer is `[(0, 500, 101), (2, 600, 202)]` |
| Scenario.ExampleFromCentreFirstK | world.py:74-77 | from `(1, 1)`: `k = 2` keeps both, `k = 1` the first, `k = 0` none, and `k = -1` drops the last |
| Scenario.ExampleFromOutside | world.py:61-75 | from `(5, 5)`, outside the grid, both events are still found, 202 at distance 6 first |

## Left out

- File reading and writing, and `json.load`, are not modelled. The loaders get file contents; the CSV writer returns its lines.
- `load_events_from_csv` is not modelled, because it parses prices as floats. `Create` takes the offer tables as given.
- Offer tables read by `json.load` have string keys in the source. An integer event number then raises `KeyError`. This is not modelled, because offer tables are taken as maps from integers here.
- The JSON grid branch of `__init__` also collects event numbers and then drops them. The model keeps only the grid it stores. `size` stays unset there, and that is modelled as `None`.
- `print_nearest_events`, `maybe`, `generate.py`, `frontend.py` and the timing tests are presentation, randomness and benchmarks. They are not part of this model.
- The ring search over diagonals is not part of this model, because the source files hold only the brute-force scan.
- A `KeyError` for an event number with no offer table is a precondition (`Catalogued`, `Listed`), not an error value.
- World.World.LoadGridFromCsv: on an error the contract says nothing about the partly built `grid`, which the caller never sees.
- World.World.LoadGridFromCsv: under `python -O` the row-length `assert` is skipped. The model always checks it.
- PyText.ParseInt: `int` also accepts non-ASCII decimal digits. The model accepts only `0`-`9`.
- PyText.ParseInt: since Python 3.11, `int` raises `ValueError` on a decimal text of more than 4300 digits, and `str` does the same for such an integer. The model has no such limit, so `PyText.IntToStrRoundTrip` and the CSV round trip hold for every integer here.
- World.World.constructor: `min_coords` is always a pair here; the source accepts a tuple of any length.
- World.NearestEventsPrefix is stated for `k >= 0` only. With `k = -1` the answer is `[:-1]`, which is not a prefix of the `k = 0` answer `[]` (Scenario.ExampleFromCentreFirstK shows this).
- World.World.GetNearestEvents and World.World.GetLowestPrice take a point of two coordinates. The source's `manhattan_distance` works on any two sequences, and that general case is in `Utils.ManhattanDistance`.
