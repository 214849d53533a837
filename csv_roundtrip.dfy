/** The CSV writer of utils.py against the CSV reader of world.py: a grid
    written by `save_grid_as_csv` and read back by `load_grid_from_csv` is
    the grid that was written, provided every row has at least one cell. */
module CsvRoundTrip {
  import opened Common
  import opened PyText
  import opened Utils
  import opened World

  /** A written cell reads back as itself. */
  lemma CellTextRoundTrip(c: Cell)
    ensures ParseField(CellText(c)) == Ok(c)
  {
    ParseFieldSpec(CellText(c));
    if c.Some? {
      IntToStrUnstripped(c.value);
      IntToStrRoundTrip(c.value);
    }
  }

  /** The last cell of a line is followed by the newline, which `strip()`
      and `int()` both ignore. */
  lemma CellTextNewlineRoundTrip(c: Cell)
    ensures ParseField(CellText(c) + "\n") == Ok(c)
  {
    CellTextRoundTrip(c);
    ParseFieldNewline(CellText(c));
  }

  /** The fields `split(',')` finds in a written line: the cell texts, the
      newline stuck to the last one. None holds a comma. */
  function LineFields(row: Row): (fields: seq<string>)
    requires |row| >= 1
    ensures Split(CsvLine(row), ',') == fields
    ensures |fields| == |row|
    ensures forall i :: 0 <= i < |row| - 1 ==> fields[i] == CellText(row[i])
    ensures fields[|row| - 1] == CellText(row[|row| - 1]) + "\n"
    ensures forall i :: 0 <= i < |row| ==> ',' !in fields[i]
  {
    var texts := RowTexts(row);
    var fields := texts[..|texts| - 1] + [texts[|texts| - 1] + "\n"];
    JoinAppendLast(texts, ',', "\n");
    assert CsvLine(row) == Join(fields, ',');
    SplitJoin(fields, ',');
    fields
  }

  /** Each field of a written line reads back as its cell. */
  lemma LineFieldsParse(row: Row)
    requires |row| >= 1
    ensures forall t :: 0 <= t < |row| ==> ParseField(LineFields(row)[t]) == Ok(row[t])
  {
    var fields := LineFields(row);
    forall t | 0 <= t < |row| ensures ParseField(fields[t]) == Ok(row[t]) {
      if t < |row| - 1 {
        CellTextRoundTrip(row[t]);
      } else {
        CellTextNewlineRoundTrip(row[t]);
      }
    }
  }

  /** A written line with at least one cell reads back as its row. */
  lemma CsvLineRoundTrip(row: Row)
    requires |row| >= 1
    ensures ParseLine(CsvLine(row)) == Ok(row)
  {
    var fields := LineFields(row);
    LineFieldsParse(row);
    ParseEachAll(fields, ParseField, row);
  }

  /** A written line holds exactly one newline, its last character, and no
      carriage return, so reading the written file line by line
      (`for line in f`, which also ends a line at `'\r'`) yields the
      written lines one by one. */
  lemma CsvLineEndsOnlyAtNewline(row: Row)
    ensures var line := CsvLine(row);
      && |line| >= 1 && line[|line| - 1] == '\n'
      && '\n' !in line[..|line| - 1]
      && '\r' !in line
  {
    var texts := RowTexts(row);
    forall t | 0 <= t < |texts| ensures '\n' !in texts[t] && '\r' !in texts[t] {
      CellTextNoNewline(row[t]);
    }
    JoinAvoids(texts, ',', '\n');
    JoinAvoids(texts, ',', '\r');
    var line := CsvLine(row);
    assert line[..|line| - 1] == Join(texts, ',');
  }

  lemma CellTextNoNewline(c: Cell)
    ensures '\n' !in CellText(c) && '\r' !in CellText(c)
  {
    if c.Some? {
      var s := IntToStr(c.value);
      forall k | 0 <= k < |s| ensures s[k] != '\n' && s[k] != '\r' {
        assert IsDigit(s[k]) || s[k] == '-';
      }
    }
  }

  /** A row with no cells is written as a bare newline. */
  lemma EmptyRowIsBareNewline()
    ensures CsvLine([]) == "\n"
  {
    assert RowTexts([]) == [];
  }

  /** A line made only of white space (a bare newline among them) reads
      as a row of one empty cell. So a grid whose rows have no cells does
      not come back from the round trip, and a blank line in a grid file
      of width other than 1 is an `AssertionError`. */
  lemma BlankLineReadsAsOneCell(line: string)
    requires forall k :: 0 <= k < |line| ==> IsSpace(line[k])
    ensures ParseLine(line) == Ok([None])
  {
    assert ',' !in line;
    SplitWithoutSeparator(line, ',');
    assert ParseField(line) == Ok(None) by {
      assert Strip(line) == "";
    }
    ParseEachSingle(line, ParseField, None);
    assert ParseLine(line) == ParseEach([line], ParseField);
  }

  /** Every row of `grid` has exactly `width` cells. */
  predicate Rectangular(grid: Grid, width: nat) {
    forall r :: 0 <= r < |grid| ==> |grid[r]| == width
  }

  /** `load_grid_from_csv` after `save_grid_as_csv` gives back the grid,
      with `size == (width, rows)`, or `(None, 0)` for no rows at all. */
  lemma SaveLoadRoundTrip(grid: Grid, width: nat)
    requires width >= 1 && Rectangular(grid, width)
    ensures LoadGrid(CsvText(grid)).Ok?
    ensures LoadGrid(CsvText(grid)).value.grid == grid
    ensures LoadGrid(CsvText(grid)).value.size == Size(if grid == [] then None else Some(width), |grid|)
  {
    var lines := CsvText(grid);
    forall t | 0 <= t < |lines| ensures ParseLine(lines[t]) == Ok(grid[|grid| - 1 - t]) {
      CsvLineRoundTrip(grid[|grid| - 1 - t]);
    }
    LoadReversedRows(lines, ParseLine, grid, width);
  }

  /** Lines that each parse to a row of `grid`, last row first, load as
      `grid`. */
  lemma LoadReversedRows(lines: seq<string>, parseLine: string -> Result<Row, WorldError>, grid: Grid, width: nat)
    requires Rectangular(grid, width) && |lines| == |grid|
    requires forall t :: 0 <= t < |lines| ==> parseLine(lines[t]) == Ok(grid[|grid| - 1 - t])
    ensures LoadGridWith(lines, parseLine).Ok?
    ensures LoadGridWith(lines, parseLine).value.grid == grid
    ensures LoadGridWith(lines, parseLine).value.size == Size(if grid == [] then None else Some(width), |grid|)
  {
    assert LinesParse(lines, parseLine);
    assert SameLength(lines, parseLine);
    LoadGridWithSpec(lines, parseLine);
    var g := LoadGridWith(lines, parseLine).value;
    forall r | 0 <= r < |grid| ensures g.grid[r] == grid[r] {
      assert g.grid[r] == parseLine(lines[|lines| - 1 - r]).value;
    }
    if grid != [] {
      assert g.size.rowLength == Some(|g.grid[0]|);
    }
  }
}
