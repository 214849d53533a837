/** world.py: the `World` class, which holds a grid of event numbers and
    each event's offer table, loads the grid from CSV lines, picks a
    loader by file extension and answers "which events are nearest to
    this point" by scanning every cell. */
module World {
  import opened Common
  import opened PyText
  import opened Utils
  import opened Entries

  /** The exceptions the modelled code raises. */
  datatype WorldError =
    | ValueError(field: string)                 // `int(s)` rejected a CSV field
    | AssertionError                            // a CSV row's length differs from the first row's
    | IndexError                                // `grid[x0][x1]` is out of range
    | UnrecognizedFormatError(message: string)  // a data source with an unknown extension

  // ------------------------------------------------------------------
  // Choosing a loader by file extension

  datatype Format = Csv | Json | Unrecognized

  /** `name.split('.')[-1]`: the text after the last `.`, or the whole
      name when it has no `.`. */
  function Extension(name: string): (ext: string)
    ensures '.' !in ext
    ensures '.' !in name ==> ext == name
    ensures '.' in name ==> exists k :: 0 <= k < |name| && name[k] == '.' && ext == name[k + 1..]
  {
    var parts := Split(name, '.');
    var ext := parts[|parts| - 1];
    JoinSplit(name, '.');
    if |parts| == 1 then ext
    else
      JoinLast(parts, '.');
      var k := |Join(parts[..|parts| - 1], '.')|;
      assert name[k] == '.' && name[k + 1..] == ext;
      ext
  }

  /** The loader `World.__init__` picks for a data source file name. */
  function FormatOf(name: string): Format {
    var ext := Extension(name);
    if ext == "csv" || ext == "txt" then Csv
    else if ext == "json" then Json
    else Unrecognized
  }

  /** The extension of `base.ext` is `ext` whenever `ext` has no `.`,
      whatever dots `base` holds. */
  lemma ExtensionAfterLastDot(base: string, ext: string)
    requires '.' !in ext
    ensures Extension(base + "." + ext) == ext
  {
    var name := base + "." + ext;
    assert name[|base|] == '.';
    var k :| 0 <= k < |name| && name[k] == '.' && Extension(name) == name[k + 1..];
    assert name[|base| + 1..] == ext;
  }

  /** `csv` and `txt` select the CSV loader, `json` the JSON loader, and
      every other extension is rejected. */
  lemma FormatOfDottedName(base: string, ext: string)
    requires '.' !in ext
    ensures FormatOf(base + "." + ext) == Csv <==> ext == "csv" || ext == "txt"
    ensures FormatOf(base + "." + ext) == Json <==> ext == "json"
    ensures FormatOf(base + "." + ext) == Unrecognized <==> ext !in {"csv", "txt", "json"}
  {
    ExtensionAfterLastDot(base, ext);
  }

  /** A name without a `.` is its own extension, so it is accepted only if
      it is literally `csv`, `txt` or `json`; `session` is rejected. */
  lemma FormatOfUndottedName(name: string)
    requires '.' !in name
    ensures FormatOf(name) == Unrecognized <==> name !in {"csv", "txt", "json"}
    ensures FormatOf("session") == Unrecognized
  {
    assert Extension("session") == "session";
  }

  // ------------------------------------------------------------------
  // Loading the grid from CSV lines

  /** One CSV field: blank (only white space) is an empty cell, anything
      else must be an integer for `int`. */
  function ParseField(s: string): Result<Cell, WorldError> {
    if Strip(s) == "" then Ok(None)
    else match ParseInt(s)
      case Some(v) => Ok(Some(v))
      case None => Err(ValueError(s))
  }

  /** A field made only of white space (the empty field too) is an empty
      cell; any other field is the integer `int` reads from it, or a
      `ValueError` when `int` rejects it. */
  lemma ParseFieldSpec(s: string)
    ensures Strip(s) == "" ==> ParseField(s) == Ok(None)
    ensures Strip(s) != "" ==> ParseField(s) == if ParseInt(s).Some? then Ok(Some(ParseInt(s).value)) else Err(ValueError(s))
    ensures ParseField(s) == Ok(None) <==> forall k :: 0 <= k < |s| ==> IsSpace(s[k])
    ensures ParseField(s).Ok? && ParseField(s).value.Some? <==> ParseInt(s).Some?
    ensures ParseInt(s).Some? ==> ParseField(s) == Ok(Some(ParseInt(s).value))
    ensures ParseField(s).Err? ==> ParseField(s) == Err(ValueError(s))
  {
  }

  /** The newline at the end of a line does not change how a field that
      parses is read. */
  lemma ParseFieldNewline(s: string)
    requires ParseField(s).Ok?
    ensures ParseField(s + "\n") == ParseField(s)
  {
    StripTrailingSpace(s, '\n');
    IntStripTrailingSpace(s, '\n');
    ParseIntAlike(s, s + "\n");
    ParseFieldAlike(s, s + "\n");
  }

  /** Two fields with the same strip and the same `int` reading parse
      alike, once one of them parses. */
  lemma ParseFieldAlike(s: string, t: string)
    requires Strip(s) == Strip(t) && ParseInt(s) == ParseInt(t) && ParseField(s).Ok?
    ensures ParseField(t) == ParseField(s)
  {
  }

  /** Parses `xs` left to right with `parse`; the first failure is the
      result, as with a loop that raises on the first bad item. */
  function ParseEach<A, B, E>(xs: seq<A>, parse: A -> Result<B, E>): Result<seq<B>, E> {
    if xs == [] then Ok([])
    else
      match ParseEach(xs[..|xs| - 1], parse)
      case Err(e) => Err(e)
      case Ok(ys) =>
        match parse(xs[|xs| - 1])
        case Err(e) => Err(e)
        case Ok(y) => Ok(ys + [y])
  }

  /** Parsing succeeds exactly when every item parses, and then yields each
      item's result in order. */
  lemma {:induction false} ParseEachSpec<A, B, E>(xs: seq<A>, parse: A -> Result<B, E>)
    ensures ParseEach(xs, parse).Ok? <==> forall t :: 0 <= t < |xs| ==> parse(xs[t]).Ok?
    ensures ParseEach(xs, parse).Ok? ==>
      && |ParseEach(xs, parse).value| == |xs|
      && forall t :: 0 <= t < |xs| ==> ParseEach(xs, parse).value[t] == parse(xs[t]).value
    decreases |xs|
  {
    if xs != [] {
      var init := xs[..|xs| - 1];
      ParseEachSpec(init, parse);
      assert forall t :: 0 <= t < |init| ==> init[t] == xs[t];
    }
  }

  /** Items that each parse to the matching element of `ys` parse to `ys`. */
  lemma ParseEachAll<A, B, E>(xs: seq<A>, parse: A -> Result<B, E>, ys: seq<B>)
    requires |xs| == |ys| && forall t :: 0 <= t < |xs| ==> parse(xs[t]) == Ok(ys[t])
    ensures ParseEach(xs, parse) == Ok(ys)
  {
    ParseEachSpec(xs, parse);
    assert ParseEach(xs, parse).value == ys;
  }

  /** A single item parses to the singleton of its value. */
  lemma ParseEachSingle<A, B, E>(x: A, parse: A -> Result<B, E>, y: B)
    requires parse(x) == Ok(y)
    ensures ParseEach([x], parse) == Ok([y])
  {
    ParseEachAll([x], parse, [y]);
  }

  /** Once an item fails, the later items do not change the error. */
  lemma {:induction false} ParseEachErrorSticks<A, B, E>(xs: seq<A>, parse: A -> Result<B, E>, n: nat)
    requires n <= |xs| && ParseEach(xs[..n], parse).Err?
    ensures ParseEach(xs, parse) == ParseEach(xs[..n], parse)
    decreases |xs|
  {
    if n < |xs| {
      var init := xs[..|xs| - 1];
      assert init[..n] == xs[..n];
      ParseEachErrorSticks(init, parse, n);
    } else {
      assert xs[..n] == xs;
    }
  }

  /** One more item that parses extends the result by its value. */
  lemma ParseEachStep<A, B, E>(xs: seq<A>, parse: A -> Result<B, E>, t: nat, ys: seq<B>)
    requires t < |xs| && ParseEach(xs[..t], parse) == Ok(ys) && parse(xs[t]).Ok?
    ensures ParseEach(xs[..t + 1], parse) == Ok(ys + [parse(xs[t]).value])
  {
    assert xs[..t + 1][..t] == xs[..t];
  }

  /** An item that fails makes the whole parse fail with its error. */
  lemma ParseEachFails<A, B, E>(xs: seq<A>, parse: A -> Result<B, E>, t: nat, ys: seq<B>)
    requires t < |xs| && ParseEach(xs[..t], parse) == Ok(ys) && parse(xs[t]).Err?
    ensures ParseEach(xs, parse) == Err(parse(xs[t]).error)
  {
    assert xs[..t + 1][..t] == xs[..t];
    ParseEachErrorSticks(xs, parse, t + 1);
  }

  /** A line of the grid file: split on `,`, every field parsed. */
  function ParseLine(line: string): Result<Row, WorldError> {
    ParseEach(Split(line, ','), ParseField)
  }

  /** The event numbers of a row, left to right. */
  function Ids(row: Row): (ids: seq<int>)
  {
    if row == [] then []
    else
      var init := row[..|row| - 1];
      Ids(init) + (if row[|row| - 1].Some? then [row[|row| - 1].value] else [])
  }

  lemma IdsAppend(row: Row, c: Cell)
    ensures Ids(row + [c]) == Ids(row) + (if c.Some? then [c.value] else [])
  {
    assert (row + [c])[..|row|] == row;
  }

  /** The state `load_grid_from_csv` builds while it reads lines: the rows
      so far (in file order), the first row's length, the event numbers. */
  datatype Scan = Scan(rows: Grid, rowLength: Option<nat>, eventNos: seq<int>)

  /** Reads the lines in order with `parseLine`, stopping at the first
      line that fails to parse or the first row whose length is not the
      first row's. */
  function ScanLines(lines: seq<string>, parseLine: string -> Result<Row, WorldError>): Result<Scan, WorldError> {
    if lines == [] then Ok(Scan([], None, []))
    else
      match ScanLines(lines[..|lines| - 1], parseLine)
      case Err(e) => Err(e)
      case Ok(sc) =>
        match parseLine(lines[|lines| - 1])
        case Err(e) => Err(e)
        case Ok(row) =>
          if sc.rowLength.Some? && sc.rowLength.value != |row| then Err(AssertionError)
          else
            var rowLength := if sc.rowLength.None? then Some(|row|) else sc.rowLength;
            Ok(Scan(sc.rows + [row], rowLength, sc.eventNos + Ids(row)))
  }

  /** `World.size`: `(row_length, len(grid))`. */
  datatype Size = Size(rowLength: Option<nat>, rows: nat)

  datatype LoadedGrid = LoadedGrid(grid: Grid, size: Size, eventNos: seq<int>)

  /** What a successful `load_grid_from_csv` leaves in `grid` and `size`
      and returns, or the exception it raises. */
  function LoadGrid(lines: seq<string>): Result<LoadedGrid, WorldError> {
    LoadGridWith(lines, ParseLine)
  }

  /** The same, with the line parser as a parameter: the rows read in
      reverse order, the size, the event numbers. */
  function LoadGridWith(lines: seq<string>, parseLine: string -> Result<Row, WorldError>): Result<LoadedGrid, WorldError> {
    match ScanLines(lines, parseLine)
    case Err(e) => Err(e)
    case Ok(sc) => Ok(LoadedGrid(Reverse(sc.rows), Size(sc.rowLength, |sc.rows|), sc.eventNos))
  }

  predicate LinesParse(lines: seq<string>, parseLine: string -> Result<Row, WorldError>) {
    forall t :: 0 <= t < |lines| ==> parseLine(lines[t]).Ok?
  }

  predicate SameLength(lines: seq<string>, parseLine: string -> Result<Row, WorldError>)
    requires LinesParse(lines, parseLine)
  {
    forall t :: 0 <= t < |lines| ==> |parseLine(lines[t]).value| == |parseLine(lines[0]).value|
  }

  /** What a successful read holds: every line parsed, every row as long
      as the first, the rows in file order. */
  lemma {:induction false} ScanLinesOk(lines: seq<string>, parseLine: string -> Result<Row, WorldError>)
    requires ScanLines(lines, parseLine).Ok?
    ensures LinesParse(lines, parseLine) && SameLength(lines, parseLine)
    ensures var sc := ScanLines(lines, parseLine).value;
      && |sc.rows| == |lines|
      && (forall t :: 0 <= t < |lines| ==> sc.rows[t] == parseLine(lines[t]).value)
      && sc.rowLength == (if lines == [] then None else Some(|parseLine(lines[0]).value|))
    decreases |lines|
  {
    if lines != [] {
      var init := lines[..|lines| - 1];
      assert forall t :: 0 <= t < |init| ==> init[t] == lines[t];
      var sc := ScanLines(init, parseLine).value;
      var row := parseLine(lines[|lines| - 1]).value;
      ScanLinesOk(init, parseLine);
      assert ScanLines(lines, parseLine).value.rows == sc.rows + [row];
      if init != [] {
        assert |row| == |parseLine(lines[0]).value|;
      }
    }
  }

  /** Every line parsing, with every row as long as the first, is enough
      for reading to succeed. */
  lemma {:induction false} ScanLinesParses(lines: seq<string>, parseLine: string -> Result<Row, WorldError>)
    requires LinesParse(lines, parseLine) && SameLength(lines, parseLine)
    ensures ScanLines(lines, parseLine).Ok?
    decreases |lines|
  {
    if lines != [] {
      var init := lines[..|lines| - 1];
      assert forall t :: 0 <= t < |init| ==> init[t] == lines[t];
      assert LinesParse(init, parseLine) && SameLength(init, parseLine);
      ScanLinesParses(init, parseLine);
      ScanLinesOk(init, parseLine);
    }
  }

  /** Every line parsing but some row differing in length from the first
      is an `AssertionError`. */
  lemma {:induction false} ScanLinesRagged(lines: seq<string>, parseLine: string -> Result<Row, WorldError>)
    requires LinesParse(lines, parseLine) && !SameLength(lines, parseLine)
    ensures ScanLines(lines, parseLine) == Err(AssertionError)
    decreases |lines|
  {
    var init := lines[..|lines| - 1];
    assert forall t :: 0 <= t < |init| ==> init[t] == lines[t];
    assert LinesParse(init, parseLine);
    if SameLength(init, parseLine) {
      ScanLinesParses(init, parseLine);
      ScanLinesOk(init, parseLine);
      assert |parseLine(lines[|lines| - 1]).value| != |parseLine(lines[0]).value|;
    } else {
      ScanLinesRagged(init, parseLine);
    }
  }

  /** Reading succeeds exactly when every line parses and every row is as
      long as the first; it then holds the parsed lines in file order. All
      lines parsing with some row of another length is an `AssertionError`. */
  lemma ScanLinesSpec(lines: seq<string>, parseLine: string -> Result<Row, WorldError>)
    ensures ScanLines(lines, parseLine).Ok? <==> LinesParse(lines, parseLine) && SameLength(lines, parseLine)
    ensures ScanLines(lines, parseLine).Ok? ==>
      var sc := ScanLines(lines, parseLine).value;
      && |sc.rows| == |lines|
      && (forall t :: 0 <= t < |lines| ==> sc.rows[t] == parseLine(lines[t]).value)
      && sc.rowLength == (if lines == [] then None else Some(|parseLine(lines[0]).value|))
    ensures LinesParse(lines, parseLine) && !SameLength(lines, parseLine) ==> ScanLines(lines, parseLine) == Err(AssertionError)
  {
    if ScanLines(lines, parseLine).Ok? {
      ScanLinesOk(lines, parseLine);
    } else if LinesParse(lines, parseLine) {
      if SameLength(lines, parseLine) {
        ScanLinesParses(lines, parseLine);
      } else {
        ScanLinesRagged(lines, parseLine);
      }
    }
  }

  /** On success the grid is the parsed lines in reverse order (the last
      line becomes row 0), every row has `size.rowLength` cells and
      `size.rows` is the number of lines. */
  lemma LoadGridSpec(lines: seq<string>)
    ensures LoadGrid(lines).Ok? <==> LinesParse(lines, ParseLine) && SameLength(lines, ParseLine)
    ensures LoadGrid(lines).Ok? ==>
      var g := LoadGrid(lines).value;
      && |g.grid| == |lines| == g.size.rows
      && (forall r :: 0 <= r < |lines| ==> g.grid[r] == ParseLine(lines[|lines| - 1 - r]).value)
      && (forall r :: 0 <= r < |lines| ==> g.size.rowLength == Some(|g.grid[r]|))
      && (lines == [] <==> g.size.rowLength.None?)
    ensures LinesParse(lines, ParseLine) && !SameLength(lines, ParseLine) ==> LoadGrid(lines) == Err(AssertionError)
  {
    LoadGridWithSpec(lines, ParseLine);
  }

  lemma LoadGridWithSpec(lines: seq<string>, parseLine: string -> Result<Row, WorldError>)
    ensures LoadGridWith(lines, parseLine).Ok? <==> LinesParse(lines, parseLine) && SameLength(lines, parseLine)
    ensures LoadGridWith(lines, parseLine).Ok? ==>
      var g := LoadGridWith(lines, parseLine).value;
      && |g.grid| == |lines| == g.size.rows
      && (forall r :: 0 <= r < |lines| ==> g.grid[r] == parseLine(lines[|lines| - 1 - r]).value)
      && (forall r :: 0 <= r < |lines| ==> g.size.rowLength == Some(|g.grid[r]|))
      && (lines == [] <==> g.size.rowLength.None?)
    ensures LinesParse(lines, parseLine) && !SameLength(lines, parseLine) ==> LoadGridWith(lines, parseLine) == Err(AssertionError)
  {
    ScanLinesSpec(lines, parseLine);
    if ScanLines(lines, parseLine).Ok? {
      var sc := ScanLines(lines, parseLine).value;
      var g := LoadGridWith(lines, parseLine).value;
      assert g == LoadedGrid(Reverse(sc.rows), Size(sc.rowLength, |sc.rows|), sc.eventNos);
      assert LinesParse(lines, parseLine) && SameLength(lines, parseLine);
      forall r | 0 <= r < |lines|
        ensures g.grid[r] == parseLine(lines[|lines| - 1 - r]).value
        ensures g.size.rowLength == Some(|g.grid[r]|)
      {
        var t := |lines| - 1 - r;
        assert g.grid[r] == sc.rows[t] == parseLine(lines[t]).value;
        assert |parseLine(lines[t]).value| == |parseLine(lines[0]).value|;
      }
    }
  }

  /** The event numbers of a row are its occupied cells' numbers. */
  lemma {:induction false} IdsSpec(row: Row)
    ensures forall x :: x in Ids(row) <==> Some(x) in row
    decreases |row|
  {
    if row != [] {
      var init := row[..|row| - 1];
      IdsSpec(init);
      assert row == init + [row[|row| - 1]];
    }
  }

  /** A scan's event numbers are those of the occupied cells of its rows. */
  lemma {:induction false} ScanLinesIds(lines: seq<string>, parseLine: string -> Result<Row, WorldError>)
    requires ScanLines(lines, parseLine).Ok?
    ensures var sc := ScanLines(lines, parseLine).value;
      forall x :: x in sc.eventNos <==> exists t :: 0 <= t < |sc.rows| && Some(x) in sc.rows[t]
    decreases |lines|
  {
    if lines != [] {
      var init := lines[..|lines| - 1];
      var before := ScanLines(init, parseLine).value;
      var sc := ScanLines(lines, parseLine).value;
      var row := parseLine(lines[|lines| - 1]).value;
      ScanLinesIds(init, parseLine);
      IdsSpec(row);
      assert sc.rows == before.rows + [row] && sc.eventNos == before.eventNos + Ids(row);
      forall x | x in sc.eventNos ensures exists t :: 0 <= t < |sc.rows| && Some(x) in sc.rows[t] {
        if x in before.eventNos {
          var t :| 0 <= t < |before.rows| && Some(x) in before.rows[t];
          assert sc.rows[t] == before.rows[t];
        } else {
          assert sc.rows[|before.rows|] == row;
        }
      }
      forall x | exists t :: 0 <= t < |sc.rows| && Some(x) in sc.rows[t] ensures x in sc.eventNos {
        var t :| 0 <= t < |sc.rows| && Some(x) in sc.rows[t];
        if t < |before.rows| {
          assert sc.rows[t] == before.rows[t];
        }
      }
    }
  }

  /** `load_grid_from_csv` returns the numbers of the occupied cells of
      the grid it loads, and no others. */
  lemma LoadGridEventNos(lines: seq<string>)
    requires LoadGrid(lines).Ok?
    ensures var g := LoadGrid(lines).value;
      forall x :: x in g.eventNos <==> exists r :: 0 <= r < |g.grid| && Some(x) in g.grid[r]
  {
    LoadGridWithEventNos(lines, ParseLine);
  }

  lemma LoadGridWithEventNos(lines: seq<string>, parseLine: string -> Result<Row, WorldError>)
    requires LoadGridWith(lines, parseLine).Ok?
    ensures var g := LoadGridWith(lines, parseLine).value;
      forall x :: x in g.eventNos <==> exists r :: 0 <= r < |g.grid| && Some(x) in g.grid[r]
  {
    ScanLinesIds(lines, parseLine);
    var sc := ScanLines(lines, parseLine).value;
    var g := LoadGridWith(lines, parseLine).value;
    assert g.grid == Reverse(sc.rows) && g.eventNos == sc.eventNos;
    forall x | x in g.eventNos ensures exists r :: 0 <= r < |g.grid| && Some(x) in g.grid[r] {
      var t :| 0 <= t < |sc.rows| && Some(x) in sc.rows[t];
      var r := |sc.rows| - 1 - t;
      assert g.grid[r] == sc.rows[t];
    }
    forall x, r | 0 <= r < |g.grid| && Some(x) in g.grid[r] ensures x in g.eventNos {
      assert g.grid[r] == sc.rows[|sc.rows| - 1 - r];
    }
  }

  /** Once reading fails on some line, later lines do not change the error. */
  lemma {:induction false} ScanLinesErrorSticks(lines: seq<string>, parseLine: string -> Result<Row, WorldError>, n: nat)
    requires n <= |lines| && ScanLines(lines[..n], parseLine).Err?
    ensures ScanLines(lines, parseLine) == ScanLines(lines[..n], parseLine)
    decreases |lines|
  {
    if n < |lines| {
      var init := lines[..|lines| - 1];
      assert init[..n] == lines[..n];
      ScanLinesErrorSticks(init, parseLine, n);
    } else {
      assert lines[..n] == lines;
    }
  }

  /** The inner loop of `load_grid_from_csv`: the fields of one line
      turned into cells, and the event numbers met, left to right; the
      first field `int` rejects is a `ValueError`. */
  method ReadRow(rawRow: seq<string>) returns (r: Result<Row, WorldError>, ids: seq<int>)
    ensures r == ParseEach(rawRow, ParseField)
    ensures r.Ok? ==> ids == Ids(r.value)
  {
    var row: Row := [];
    ids := [];
    for t := 0 to |rawRow|
      invariant ParseEach(rawRow[..t], ParseField) == Ok(row)
      invariant ids == Ids(row)
    {
      var s := rawRow[t];
      if Strip(s) == "" {
        assert ParseField(s) == Ok(None);
        ParseEachStep(rawRow, ParseField, t, row);
        IdsAppend(row, None);
        row := row + [None];
      } else {
        var e := ParseInt(s);
        if e.None? {
          assert ParseField(s) == Err(ValueError(s));
          ParseEachFails(rawRow, ParseField, t, row);
          return Err(ValueError(s)), ids;
        }
        assert ParseField(s) == Ok(Some(e.value));
        ParseEachStep(rawRow, ParseField, t, row);
        IdsAppend(row, Some(e.value));
        row := row + [Some(e.value)];
        ids := ids + [e.value];
      }
    }
    assert rawRow[..|rawRow|] == rawRow;
    return Ok(row), ids;
  }

  /** One more line that parses, with a row of the right length, extends
      the scan by that row. */
  lemma ScanLinesStep(lines: seq<string>, parseLine: string -> Result<Row, WorldError>, n: nat, sc: Scan)
    requires n < |lines| && ScanLines(lines[..n], parseLine) == Ok(sc)
    requires parseLine(lines[n]).Ok?
    requires sc.rowLength.Some? ==> sc.rowLength.value == |parseLine(lines[n]).value|
    ensures var row := parseLine(lines[n]).value;
      ScanLines(lines[..n + 1], parseLine) ==
        Ok(Scan(sc.rows + [row], if sc.rowLength.None? then Some(|row|) else sc.rowLength, sc.eventNos + Ids(row)))
  {
    assert lines[..n + 1][..n] == lines[..n];
  }

  /** A line that does not parse, or a row of the wrong length, ends the
      scan with that error whatever follows. */
  lemma ScanLinesFails(lines: seq<string>, parseLine: string -> Result<Row, WorldError>, n: nat, sc: Scan)
    requires n < |lines| && ScanLines(lines[..n], parseLine) == Ok(sc)
    requires parseLine(lines[n]).Ok? ==> sc.rowLength.Some? && sc.rowLength.value != |parseLine(lines[n]).value|
    ensures ScanLines(lines, parseLine) ==
      if parseLine(lines[n]).Err? then Err(parseLine(lines[n]).error) else Err(AssertionError)
  {
    assert lines[..n + 1][..n] == lines[..n];
    ScanLinesErrorSticks(lines, parseLine, n + 1);
  }

  // ------------------------------------------------------------------
  // The brute-force nearest-event query, as a specification

  /** Every event number on the grid has an offer table (otherwise the
      source raises `KeyError`). */
  predicate Catalogued(grid: Grid, events: map<int, Offers>) {
    forall j, i :: 0 <= j < |grid| && 0 <= i < |grid[j]| && grid[j][i].Some? ==> grid[j][i].value in events
  }

  predicate RowCatalogued(row: Row, events: map<int, Offers>) {
    forall i :: 0 <= i < |row| && row[i].Some? ==> row[i].value in events
  }

  /** The tuple the scan appends for cell `(i, j)`, if any: none for an
      empty cell or a sold-out event. */
  function CellEntries(c: Cell, i: int, j: int, q: (int, int), events: map<int, Offers>): seq<Entry>
    requires c.Some? ==> c.value in events
  {
    match c
    case None => []
    case Some(id) =>
      match LowestPositiveOf(events[id])
      case Inf => []
      case Finite(p) => [Entry(Manhattan([q.0, q.1], [i, j]), p, id)]
  }

  /** The tuples the inner loop appends for row `j`, in column order. */
  function RowEntries(row: Row, j: int, q: (int, int), events: map<int, Offers>): seq<Entry>
    requires RowCatalogued(row, events)
  {
    if row == [] then []
    else RowEntries(row[..|row| - 1], j, q, events) + CellEntries(row[|row| - 1], |row| - 1, j, q, events)
  }

  /** The tuples the scan appends, row by row, before sorting. */
  function GridEntries(grid: Grid, q: (int, int), events: map<int, Offers>): seq<Entry>
    requires Catalogued(grid, events)
  {
    if grid == [] then []
    else
      assert RowCatalogued(grid[|grid| - 1], events);
      GridEntries(grid[..|grid| - 1], q, events) + RowEntries(grid[|grid| - 1], |grid| - 1, q, events)
  }

  /** One more cell of a row adds that cell's tuple, if any. */
  lemma RowEntriesStep(row: Row, i: nat, j: int, q: (int, int), events: map<int, Offers>)
    requires i < |row| && RowCatalogued(row, events)
    ensures RowCatalogued(row[..i + 1], events) && RowCatalogued(row[..i], events)
    ensures RowEntries(row[..i + 1], j, q, events) == RowEntries(row[..i], j, q, events) + CellEntries(row[i], i, j, q, events)
  {
    assert row[..i + 1][..i] == row[..i];
  }

  /** One more row of the grid adds that row's tuples. */
  lemma GridEntriesStep(grid: Grid, j: nat, q: (int, int), events: map<int, Offers>)
    requires j < |grid| && Catalogued(grid, events)
    ensures Catalogued(grid[..j + 1], events) && Catalogued(grid[..j], events) && RowCatalogued(grid[j], events)
    ensures GridEntries(grid[..j + 1], q, events) == GridEntries(grid[..j], q, events) + RowEntries(grid[j], j, q, events)
  {
    assert grid[..j + 1][..j] == grid[..j];
    assert forall r :: 0 <= r <= j ==> grid[..j + 1][r] == grid[r];
  }

  /** `get_nearest_events` on grid-local query point `q`: all tuples sorted,
      then `[:k]` when `k` is given. */
  function NearestEvents(grid: Grid, events: map<int, Offers>, q: (int, int), k: Option<int>): seq<Entry>
    requires Catalogued(grid, events)
  {
    var all := Sort(GridEntries(grid, q, events));
    if k.None? then all else SlicePrefix(all, k.value)
  }

  /** With `k` given the answer is `[:k]` of the full sorted answer. */
  lemma NearestEventsSlice(grid: Grid, events: map<int, Offers>, q: (int, int), k: int)
    requires Catalogued(grid, events)
    ensures NearestEvents(grid, events, q, Some(k)) == SlicePrefix(NearestEvents(grid, events, q, None), k)
  {
  }

  /** Cell `(i, j)` (column `i` of row `j`) holds an event that has tickets left. */
  predicate Qualifies(grid: Grid, events: map<int, Offers>, i: int, j: int)
    requires Catalogued(grid, events)
  {
    && 0 <= j < |grid| && 0 <= i < |grid[j]|
    && grid[j][i].Some?
    && LowestPositiveOf(events[grid[j][i].value]).Finite?
  }

  /** The tuple a qualifying cell stands for: its distance from `q`, its
      event's lowest available price, its event number. */
  function EntryOf(grid: Grid, events: map<int, Offers>, q: (int, int), i: int, j: int): Entry
    requires Catalogued(grid, events) && Qualifies(grid, events, i, j)
  {
    var id := grid[j][i].value;
    Entry(Manhattan([q.0, q.1], [i, j]), LowestPositiveOf(events[id]).amount, id)
  }

  /** The number of qualifying cells among the first `n` cells of `row`. */
  function QualifyingInRow(row: Row, events: map<int, Offers>, n: nat): nat
    requires RowCatalogued(row, events) && n <= |row|
  {
    if n == 0 then 0
    else
      var c := row[n - 1];
      QualifyingInRow(row, events, n - 1)
        + (if c.Some? && LowestPositiveOf(events[c.value]).Finite? then 1 else 0)
  }

  /** The number of qualifying cells of the grid. */
  function QualifyingCount(grid: Grid, events: map<int, Offers>): nat
    requires Catalogued(grid, events)
  {
    if grid == [] then 0
    else
      var row := grid[|grid| - 1];
      assert RowCatalogued(row, events);
      QualifyingCount(grid[..|grid| - 1], events) + QualifyingInRow(row, events, |row|)
  }

  /** The inner loop appends one tuple per qualifying cell of the row. */
  lemma {:induction false} RowEntriesCount(row: Row, j: int, q: (int, int), events: map<int, Offers>)
    requires RowCatalogued(row, events)
    ensures |RowEntries(row, j, q, events)| == QualifyingInRow(row, events, |row|)
    decreases |row|
  {
    if row != [] {
      var init := row[..|row| - 1];
      assert RowCatalogued(init, events);
      RowEntriesCount(init, j, q, events);
      QualifyingInRowPrefix(row, init, events, |init|);
    }
  }

  /** Each tuple of a row comes from an occupied cell of it whose event
      sells at that lowest price, with that cell's distance. */
  lemma {:induction false} RowEntriesSound(row: Row, j: int, q: (int, int), events: map<int, Offers>)
    requires RowCatalogued(row, events)
    ensures forall e :: e in RowEntries(row, j, q, events) ==>
      exists i :: 0 <= i < |row| && row[i] == Some(e.eventNo)
        && LowestPositiveOf(events[e.eventNo]) == Finite(e.price)
        && e.distance == Manhattan([q.0, q.1], [i, j])
    decreases |row|
  {
    if row != [] {
      var init := row[..|row| - 1];
      var last := |row| - 1;
      assert RowCatalogued(init, events);
      RowEntriesSound(init, j, q, events);
      forall e | e in RowEntries(row, j, q, events)
        ensures exists i :: 0 <= i < |row| && row[i] == Some(e.eventNo)
                            && LowestPositiveOf(events[e.eventNo]) == Finite(e.price)
                            && e.distance == Manhattan([q.0, q.1], [i, j])
      {
        if e in RowEntries(init, j, q, events) {
          var i :| 0 <= i < |init| && init[i] == Some(e.eventNo)
            && LowestPositiveOf(events[e.eventNo]) == Finite(e.price)
            && e.distance == Manhattan([q.0, q.1], [i, j]);
          assert row[i] == init[i];
        } else {
          assert e in CellEntries(row[last], last, j, q, events);
          assert row[last] == Some(e.eventNo);
        }
      }
    }
  }

  /** Each qualifying cell of a row has its tuple among the row's. */
  lemma {:induction false} RowEntriesComplete(row: Row, j: int, q: (int, int), events: map<int, Offers>)
    requires RowCatalogued(row, events)
    ensures forall i :: 0 <= i < |row| && row[i].Some? && LowestPositiveOf(events[row[i].value]).Finite? ==>
      Entry(Manhattan([q.0, q.1], [i, j]), LowestPositiveOf(events[row[i].value]).amount, row[i].value)
        in RowEntries(row, j, q, events)
    decreases |row|
  {
    if row != [] {
      var init := row[..|row| - 1];
      assert RowCatalogued(init, events);
      RowEntriesComplete(init, j, q, events);
      forall i | 0 <= i < |init| ensures init[i] == row[i] {
      }
    }
  }

  lemma RowEntriesSpec(row: Row, j: int, q: (int, int), events: map<int, Offers>)
    requires RowCatalogued(row, events)
    ensures |RowEntries(row, j, q, events)| == QualifyingInRow(row, events, |row|)
    ensures forall e :: e in RowEntries(row, j, q, events) ==>
      exists i :: 0 <= i < |row| && row[i] == Some(e.eventNo)
        && LowestPositiveOf(events[e.eventNo]) == Finite(e.price)
        && e.distance == Manhattan([q.0, q.1], [i, j])
    ensures forall i :: 0 <= i < |row| && row[i].Some? && LowestPositiveOf(events[row[i].value]).Finite? ==>
      Entry(Manhattan([q.0, q.1], [i, j]), LowestPositiveOf(events[row[i].value]).amount, row[i].value)
        in RowEntries(row, j, q, events)
  {
    RowEntriesCount(row, j, q, events);
    RowEntriesSound(row, j, q, events);
    RowEntriesComplete(row, j, q, events);
  }

  lemma {:induction false} QualifyingInRowPrefix(row: Row, init: Row, events: map<int, Offers>, n: nat)
    requires RowCatalogued(row, events) && RowCatalogued(init, events)
    requires n <= |init| <= |row| && init == row[..|init|]
    ensures QualifyingInRow(init, events, n) == QualifyingInRow(row, events, n)
  {
    if n > 0 {
      QualifyingInRowPrefix(row, init, events, n - 1);
    }
  }

  lemma {:induction false} GridEntriesCount(grid: Grid, q: (int, int), events: map<int, Offers>)
    requires Catalogued(grid, events)
    ensures |GridEntries(grid, q, events)| == QualifyingCount(grid, events)
    decreases |grid|
  {
    if grid != [] {
      var init := grid[..|grid| - 1];
      assert Catalogued(init, events) by {
        assert forall j :: 0 <= j < |init| ==> init[j] == grid[j];
      }
      assert RowCatalogued(grid[|grid| - 1], events);
      GridEntriesCount(init, q, events);
      RowEntriesCount(grid[|grid| - 1], |grid| - 1, q, events);
    }
  }

  lemma {:induction false} GridEntriesSound(grid: Grid, q: (int, int), events: map<int, Offers>)
    requires Catalogued(grid, events)
    ensures forall e :: e in GridEntries(grid, q, events) ==>
      exists j, i :: Qualifies(grid, events, i, j) && e == EntryOf(grid, events, q, i, j)
    decreases |grid|
  {
    if grid != [] {
      var init := grid[..|grid| - 1];
      var row := grid[|grid| - 1];
      var jl := |grid| - 1;
      assert forall j :: 0 <= j < |init| ==> init[j] == grid[j];
      assert RowCatalogued(row, events);
      GridEntriesSound(init, q, events);
      RowEntriesSound(row, jl, q, events);
      forall e | e in GridEntries(grid, q, events)
        ensures exists j, i :: Qualifies(grid, events, i, j) && e == EntryOf(grid, events, q, i, j)
      {
        if e in GridEntries(init, q, events) {
          var j, i :| Qualifies(init, events, i, j) && e == EntryOf(init, events, q, i, j);
          assert Qualifies(grid, events, i, j) && e == EntryOf(grid, events, q, i, j);
        } else {
          assert e in RowEntries(row, jl, q, events);
          var i :| 0 <= i < |row| && row[i] == Some(e.eventNo)
            && LowestPositiveOf(events[e.eventNo]) == Finite(e.price)
            && e.distance == Manhattan([q.0, q.1], [i, jl]);
          assert Qualifies(grid, events, i, jl) && e == EntryOf(grid, events, q, i, jl);
        }
      }
    }
  }

  lemma {:induction false} GridEntriesComplete(grid: Grid, q: (int, int), events: map<int, Offers>)
    requires Catalogued(grid, events)
    ensures forall j, i :: Qualifies(grid, events, i, j) ==> EntryOf(grid, events, q, i, j) in GridEntries(grid, q, events)
    decreases |grid|
  {
    if grid != [] {
      var init := grid[..|grid| - 1];
      var row := grid[|grid| - 1];
      var jl := |grid| - 1;
      assert forall j :: 0 <= j < |init| ==> init[j] == grid[j];
      assert RowCatalogued(row, events);
      GridEntriesComplete(init, q, events);
      RowEntriesComplete(row, jl, q, events);
      forall j, i | Qualifies(grid, events, i, j)
        ensures EntryOf(grid, events, q, i, j) in GridEntries(grid, q, events)
      {
        if j < jl {
          assert Qualifies(init, events, i, j) && EntryOf(grid, events, q, i, j) == EntryOf(init, events, q, i, j);
        }
      }
    }
  }

  /** The scan appends one tuple per qualifying cell and nothing else: each
      tuple is a qualifying cell's, each qualifying cell's tuple is there,
      and there are as many tuples as qualifying cells. */
  lemma GridEntriesSpec(grid: Grid, q: (int, int), events: map<int, Offers>)
    requires Catalogued(grid, events)
    ensures |GridEntries(grid, q, events)| == QualifyingCount(grid, events)
    ensures forall e :: e in GridEntries(grid, q, events) ==>
      exists j, i :: Qualifies(grid, events, i, j) && e == EntryOf(grid, events, q, i, j)
    ensures forall j, i :: Qualifies(grid, events, i, j) ==> EntryOf(grid, events, q, i, j) in GridEntries(grid, q, events)
  {
    GridEntriesCount(grid, q, events);
    GridEntriesSound(grid, q, events);
    GridEntriesComplete(grid, q, events);
  }

  /** Every returned tuple stands for a qualifying cell: its event has
      tickets at exactly that price and none cheaper, and the distance is
      from `q` to the cell's (column, row). Sold-out events never appear. */
  lemma NearestEventsSound(grid: Grid, events: map<int, Offers>, q: (int, int), k: Option<int>)
    requires Catalogued(grid, events)
    ensures forall e :: e in NearestEvents(grid, events, q, k) ==>
      exists j, i :: Qualifies(grid, events, i, j) && e == EntryOf(grid, events, q, i, j)
    ensures forall e :: e in NearestEvents(grid, events, q, k) ==>
      && e.eventNo in events
      && e.price in events[e.eventNo] && events[e.eventNo][e.price] > 0
      && (forall p :: p in events[e.eventNo] && p < e.price ==> events[e.eventNo][p] <= 0)
  {
    var entries := GridEntries(grid, q, events);
    var all := Sort(entries);
    GridEntriesSpec(grid, q, events);
    forall e | e in NearestEvents(grid, events, q, k)
      ensures exists j, i :: Qualifies(grid, events, i, j) && e == EntryOf(grid, events, q, i, j)
    {
      assert e in all;
      assert e in multiset(all);
      assert e in entries;
    }
  }

  /** A sold-out event is never listed, however near it is. */
  lemma SoldOutNeverListed(grid: Grid, events: map<int, Offers>, q: (int, int), k: Option<int>, id: int)
    requires Catalogued(grid, events)
    requires id in events && forall p :: p in events[id] ==> events[id][p] <= 0
    ensures forall e :: e in NearestEvents(grid, events, q, k) ==> e.eventNo != id
  {
    NearestEventsSound(grid, events, q, k);
  }

  /** With `k = None`, the result is exactly the scan's tuples: the same
      multiset, one per qualifying cell, in ascending tuple order. */
  lemma AllNearestEvents(grid: Grid, events: map<int, Offers>, q: (int, int))
    requires Catalogued(grid, events)
    ensures var all := NearestEvents(grid, events, q, None);
      && Sorted(all)
      && multiset(all) == multiset(GridEntries(grid, q, events))
      && |all| == QualifyingCount(grid, events)
      && (forall j, i :: Qualifies(grid, events, i, j) ==> EntryOf(grid, events, q, i, j) in all)
  {
    var entries := GridEntries(grid, q, events);
    var all := Sort(entries);
    GridEntriesSpec(grid, q, events);
    assert |all| == |multiset(all)| == |multiset(entries)| == |entries|;
    forall j, i | Qualifies(grid, events, i, j) ensures EntryOf(grid, events, q, i, j) in all {
      assert EntryOf(grid, events, q, i, j) in multiset(entries);
    }
  }

  /** The unlimited result is the only sorted arrangement of the scan's
      tuples, so ties in distance and price are broken by event number. */
  lemma NearestEventsDeterministic(grid: Grid, events: map<int, Offers>, q: (int, int), r: seq<Entry>)
    requires Catalogued(grid, events)
    requires Sorted(r) && multiset(r) == multiset(GridEntries(grid, q, events))
    ensures r == NearestEvents(grid, events, q, None)
  {
    SortIsTheSortedPermutation(GridEntries(grid, q, events), r);
  }

  /** With `k >= 0` the result is the first `min(k, n)` tuples of the full
      sorted list; `k = 0` gives `[]` and `k` gives a prefix of `k + 1`. */
  lemma NearestEventsPrefix(grid: Grid, events: map<int, Offers>, q: (int, int), k: nat)
    requires Catalogued(grid, events)
    ensures var all := NearestEvents(grid, events, q, None);
      NearestEvents(grid, events, q, Some(k)) == all[..if k <= |all| then k else |all|]
    ensures NearestEvents(grid, events, q, Some(k)) <= NearestEvents(grid, events, q, Some(k + 1))
    ensures NearestEvents(grid, events, q, Some(0)) == []
  {
  }

  /** The `k` returned tuples are the least: each is at most every tuple
      left out, so no omitted event is nearer, or as near and cheaper. */
  lemma NearestAreLeast(grid: Grid, events: map<int, Offers>, q: (int, int), k: nat)
    requires Catalogued(grid, events)
    ensures var all := NearestEvents(grid, events, q, None);
      var some := NearestEvents(grid, events, q, Some(k));
      && Sorted(some)
      && forall a, b :: 0 <= a < |some| <= b < |all| ==> LessEq(some[a], all[b])
  {
    NearestEventsPrefix(grid, events, q, k);
  }

  // ------------------------------------------------------------------
  // The world

  /** `get_lowest_price` takes either a point or an event number (or `None`). */
  datatype PriceQuery = AtPoint(point: (int, int)) | OfCell(cell: Cell)

  class World {
    var off: (int, int)
    var grid: Grid
    var events: map<int, Offers>
    var size: Option<Size>

    /** The part of `__init__` that does not depend on the data sources:
        `off` is `min_coords` negated. */
    constructor (minCoords: (int, int))
      ensures off == (-minCoords.0, -minCoords.1)
      ensures forall x :: Offset(x) == (x.0 - minCoords.0, x.1 - minCoords.1)
      ensures grid == [] && events == map[] && size == None
    {
      off := (-minCoords.0, -minCoords.1);
      grid := [];
      events := map[];
      size := None;
      new;
      OffsetFromMin(this, minCoords);
    }

    /** `offset(x)`: caller coordinates to grid-local coordinates. Moving
        the result back by `off` gives `x` again. */
    function Offset(x: (int, int)): (r: (int, int))
      reads this
      ensures (r.0 - off.0, r.1 - off.1) == x
    {
      (x.0 + off.0, x.1 + off.1)
    }

    /** `get(x)`: `grid[x0][x1]` at the offset point, with Python's list
        indexing (negative indices count from the end). The first
        coordinate picks the row, the second the column. */
    function Get(x: (int, int)): (r: Result<Cell, WorldError>)
      reads this
      ensures var p := Offset(x);
        0 <= p.0 < |grid| && 0 <= p.1 < |grid[p.0]| ==> r == Ok(grid[p.0][p.1])
      ensures var p := Offset(x); var pr := PyIndex(|grid|, p.0);
        r.Ok? <==> pr.Some? && PyIndex(|grid[pr.value]|, p.1).Some?
      ensures var p := Offset(x); var pr := PyIndex(|grid|, p.0);
        r.Ok? ==> pr.Some? && r.value == grid[pr.value][PyIndex(|grid[pr.value]|, p.1).value]
      ensures r.Err? ==> r.error == IndexError
    {
      var p := Offset(x);
      match PyIndex(|grid|, p.0)
      case None => Err(IndexError)
      case Some(row) =>
        match PyIndex(|grid[row]|, p.1)
        case None => Err(IndexError)
        case Some(col) => Ok(grid[row][col])
    }

    predicate Listed(c: Cell)
      reads this
    {
      c.Some? ==> c.value in events
    }

    /** The cell a price query is about. */
    function QueriedCell(x: PriceQuery): Result<Cell, WorldError>
      reads this
    {
      match x
      case AtPoint(p) => Get(p)
      case OfCell(c) => Ok(c)
    }

    /** `get_lowest_price(x)`: `Inf` for an empty cell, otherwise the
        lowest price of the event that still has tickets (or `Inf`). */
    function GetLowestPrice(x: PriceQuery): (r: Result<Price, WorldError>)
      reads this
      requires QueriedCell(x).Ok? ==> Listed(QueriedCell(x).value)
      ensures r.Ok? <==> QueriedCell(x).Ok?
      ensures r.Ok? && QueriedCell(x).value.None? ==> r.value == Inf
      ensures r.Ok? && QueriedCell(x).value.Some? ==> r.value == LowestPositiveOf(events[QueriedCell(x).value.value])
      ensures r.Ok? ==>
        (r.value.Inf? <==> QueriedCell(x).value.None? || forall p :: p in events[QueriedCell(x).value.value] ==> events[QueriedCell(x).value.value][p] <= 0)
    {
      match QueriedCell(x)
      case Err(e) => Err(e)
      case Ok(None) => Ok(Inf)
      case Ok(Some(id)) => Ok(LowestPositiveOf(events[id]))
    }

    /** `get_nearest_events(x, k)`: scans every cell, keeps occupied cells
        whose event has tickets left, sorts their
        `(distance, price, event_no)` tuples and keeps the first `k`. */
    method GetNearestEvents(x: (int, int), k: Option<int>) returns (r: seq<Entry>)
      requires Catalogued(grid, events)
      ensures r == NearestEvents(grid, events, Offset(x), k)
      ensures Sorted(r)
      ensures k.None? ==> multiset(r) == multiset(GridEntries(grid, Offset(x), events))
    {
      var q := Offset(x);
      var nearest: seq<Entry> := [];
      for j := 0 to |grid|
        invariant nearest == GridEntries(grid[..j], q, events)
      {
        GridEntriesStep(grid, j, q, events);
        nearest := ScanRow(nearest, grid[j], j, q);
      }
      assert grid[..|grid|] == grid;
      nearest := Sort(nearest);
      if k.None? {
        r := nearest;
      } else {
        r := SlicePrefix(nearest, k.value);
      }
      assert Sorted(r);
    }

    /** The inner loop of `get_nearest_events` over row `j`: appends to
        `nearest` the tuple of each occupied cell whose event has tickets. */
    method ScanRow(nearest0: seq<Entry>, row: Row, j: int, q: (int, int)) returns (nearest: seq<Entry>)
      requires RowCatalogued(row, events)
      ensures nearest == nearest0 + RowEntries(row, j, q, events)
    {
      nearest := nearest0;
      for i := 0 to |row|
        invariant nearest == nearest0 + RowEntries(row[..i], j, q, events)
      {
        RowEntriesStep(row, i, j, q, events);
        var eventNo := row[i];
        if eventNo.Some? {
          var price := LowestPositive(events[eventNo.value]);
          if price.Finite? {
            var d := ManhattanDistance([q.0, q.1], [i, j]);
            nearest := nearest + [Entry(d, price.amount, eventNo.value)];
          }
        }
      }
      assert row[..|row|] == row;
    }

    /** `load_grid_from_csv` over the file's lines (each with its newline):
        on success `grid` holds the parsed rows, last line first, and
        `size` is `(row_length, rows)`; the event numbers read are
        returned. A bad field is a `ValueError`, a ragged row an
        `AssertionError`. */
    method LoadGridFromCsv(lines: seq<string>) returns (r: Result<seq<int>, WorldError>)
      modifies this
      ensures off == old(off) && events == old(events)
      ensures LoadGrid(lines).Err? ==> r == Err(LoadGrid(lines).error)
      ensures LoadGrid(lines).Ok? ==>
        && r == Ok(LoadGrid(lines).value.eventNos)
        && grid == LoadGrid(lines).value.grid
        && size == Some(LoadGrid(lines).value.size)
    {
      grid := [];
      var eventNos: seq<int> := [];
      var rowLength: Option<nat> := None;
      for n := 0 to |lines|
        invariant off == old(off) && events == old(events)
        invariant ScanLines(lines[..n], ParseLine) == Ok(Scan(grid, rowLength, eventNos))
      {
        var parsed, ids := ReadRow(Split(lines[n], ','));
        if parsed.Err? {
          ScanLinesFails(lines, ParseLine, n, Scan(grid, rowLength, eventNos));
          return Err(parsed.error);
        }
        var row := parsed.value;
        if rowLength.Some? && rowLength.value != |row| {
          ScanLinesFails(lines, ParseLine, n, Scan(grid, rowLength, eventNos));
          return Err(AssertionError);
        }
        ScanLinesStep(lines, ParseLine, n, Scan(grid, rowLength, eventNos));
        if rowLength.None? {
          rowLength := Some(|row|);
        }
        grid := grid + [row];
        eventNos := eventNos + ids;
      }
      assert lines[..|lines|] == lines;
      grid := Reverse(grid);
      size := Some(Size(rowLength, |grid|));
      return Ok(eventNos);
    }

    /** `World(grid_data_source, event_data_source, min_coords)`. The files
        are given by name and contents: `gridLines` is what a CSV or text
        grid file holds, `gridJson` what `json.load` reads from a JSON
        grid file, `offers` the offer tables the event file yields. The
        grid source is dispatched first; its load errors come before the
        event source's extension is looked at. */
    static method Create(gridSource: string, eventSource: string, minCoords: (int, int),
                         gridLines: seq<string>, gridJson: Grid, offers: map<int, Offers>)
      returns (r: Result<World, WorldError>)
      ensures FormatOf(gridSource) == Unrecognized ==>
        r == Err(UnrecognizedFormatError(gridSource + " is not in a recognized format."))
      ensures FormatOf(gridSource) == Csv && LoadGrid(gridLines).Err? ==>
        r == Err(LoadGrid(gridLines).error)
      ensures GridAccepted(gridSource, gridLines) && FormatOf(eventSource) == Unrecognized ==>
        r == Err(UnrecognizedFormatError(eventSource + " is not in a recognized format."))
      ensures r.Ok? <==> GridAccepted(gridSource, gridLines) && FormatOf(eventSource) != Unrecognized
      ensures r.Ok? ==> fresh(r.value)
      ensures r.Ok? ==> r.value.off == (-minCoords.0, -minCoords.1) && r.value.events == offers
      ensures r.Ok? ==> forall x :: r.value.Offset(x) == (x.0 - minCoords.0, x.1 - minCoords.1)
      ensures r.Ok? && FormatOf(gridSource) == Csv ==>
        r.value.grid == LoadGrid(gridLines).value.grid && r.value.size == Some(LoadGrid(gridLines).value.size)
      ensures r.Ok? && FormatOf(gridSource) == Json ==> r.value.grid == gridJson && r.value.size == None
    {
      var w := new World(minCoords);
      var e := w.LoadGridSource(gridSource, gridLines, gridJson);
      if e.Some? {
        return Err(e.value);
      }
      if FormatOf(eventSource) == Unrecognized {
        return Err(UnrecognizedFormatError(eventSource + " is not in a recognized format."));
      }
      w.events := offers;
      OffsetFromMin(w, minCoords);
      return Ok(w);
    }

    /** The first half of `__init__`: the grid source's extension picks the
        loader, which fills `grid` (and, for CSV, `size`). The error, if
        any, is returned. */
    method LoadGridSource(gridSource: string, gridLines: seq<string>, gridJson: Grid) returns (e: Option<WorldError>)
      modifies this
      ensures off == old(off) && events == old(events)
      ensures e.None? <==> GridAccepted(gridSource, gridLines)
      ensures FormatOf(gridSource) == Unrecognized ==>
        e == Some(UnrecognizedFormatError(gridSource + " is not in a recognized format."))
      ensures FormatOf(gridSource) == Csv && LoadGrid(gridLines).Err? ==> e == Some(LoadGrid(gridLines).error)
      ensures e.None? && FormatOf(gridSource) == Csv ==>
        grid == LoadGrid(gridLines).value.grid && size == Some(LoadGrid(gridLines).value.size)
      ensures e.None? && FormatOf(gridSource) == Json ==> grid == gridJson && size == old(size)
    {
      var format := FormatOf(gridSource);
      if format == Csv {
        var loaded := LoadGridFromCsv(gridLines);
        if loaded.Err? {
          return Some(loaded.error);
        }
      } else if format == Json {
        grid := gridJson;
      } else {
        return Some(UnrecognizedFormatError(gridSource + " is not in a recognized format."));
      }
      return None;
    }
  }

  /** The grid source has a known extension and, for CSV, loads. */
  predicate GridAccepted(gridSource: string, gridLines: seq<string>) {
    || FormatOf(gridSource) == Json
    || (FormatOf(gridSource) == Csv && LoadGrid(gridLines).Ok?)
  }

  /** The distance the scan measures from the offset point to the cell at
      column `i`, row `j` is the distance, in the caller's coordinates,
      from `x` to where that cell sits: `(i, j)` moved back by `off`. */
  lemma OffsetPreservesDistance(w: World, x: (int, int), i: int, j: int)
    ensures Manhattan([w.Offset(x).0, w.Offset(x).1], [i, j]) == Manhattan([x.0, x.1], [i - w.off.0, j - w.off.1])
  {
    var p := w.Offset(x);
    Manhattan2D(p.0, p.1, i, j);
    Manhattan2D(x.0, x.1, i - w.off.0, j - w.off.1);
  }

  /** With `off` the negated `min_coords`, `offset` subtracts `min_coords`. */
  lemma OffsetFromMin(w: World, minCoords: (int, int))
    requires w.off == (-minCoords.0, -minCoords.1)
    ensures forall x :: w.Offset(x) == (x.0 - minCoords.0, x.1 - minCoords.1)
  {
    forall x ensures w.Offset(x) == (x.0 - minCoords.0, x.1 - minCoords.1) {
      var p := w.Offset(x);
      assert p.0 == x.0 - minCoords.0 && p.1 == x.1 - minCoords.1;
    }
  }

  /** `get` reads `grid[x0][x1]` (row `x0`, column `x1`) while the scan puts
      column `i` of row `j` at `(i, j)`. So when the grid-local point is
      `p`, the event `get` returns is the one the scan lists for the cell
      at `(p.1, p.0)`, and the scan puts that event at distance
      `2 * |p.0 - p.1|` from `p`, not at distance 0 unless `p` lies on the
      diagonal. */
  lemma GetIsTransposedScan(w: World, x: (int, int))
    requires Catalogued(w.grid, w.events)
    ensures var p := w.Offset(x);
      Qualifies(w.grid, w.events, p.1, p.0) ==>
        && w.Get(x) == Ok(Some(EntryOf(w.grid, w.events, p, p.1, p.0).eventNo))
        && EntryOf(w.grid, w.events, p, p.1, p.0).distance == 2 * Abs(p.0 - p.1)
  {
    var p := w.Offset(x);
    if Qualifies(w.grid, w.events, p.1, p.0) {
      Manhattan2D(p.0, p.1, p.1, p.0);
    }
  }
}
