/** The helpers of utils.py: Manhattan distance, the cheapest price that
    still has tickets, and writing a grid out as CSV lines. */
module Utils {
  import opened Common
  import opened PyText

  function Abs(x: int): nat {
    if x < 0 then -x else x
  }

  /** The number of pairs `zip(a, b)` produces. */
  function ZipLength(a: seq<int>, b: seq<int>): (n: nat)
    ensures n <= |a| && n <= |b| && (n == |a| || n == |b|)
  {
    if |a| <= |b| then |a| else |b|
  }

  /** The sum of |a[t] - b[t]| over the first `n` coordinate pairs. */
  function SumAbsDiff(a: seq<int>, b: seq<int>, n: nat): int
    requires n <= |a| && n <= |b|
  {
    if n == 0 then 0 else SumAbsDiff(a, b, n - 1) + Abs(a[n - 1] - b[n - 1])
  }

  /** The Manhattan distance over the zipped coordinates: the extra
      coordinates of the longer point are ignored. */
  function Manhattan(a: seq<int>, b: seq<int>): int {
    SumAbsDiff(a, b, ZipLength(a, b))
  }

  /** `manhattan_distance(x_1, x_2)`: accumulates the absolute
      differences pair by pair. */
  method ManhattanDistance(x1: seq<int>, x2: seq<int>) returns (ret: int)
    ensures ret == Manhattan(x1, x2)
    ensures ret >= 0
  {
    ret := 0;
    var n := if |x1| <= |x2| then |x1| else |x2|;
    for t := 0 to n
      invariant ret == SumAbsDiff(x1, x2, t)
    {
      ret := ret + Abs(x1[t] - x2[t]);
    }
    ManhattanNonNegative(x1, x2);
  }

  lemma {:induction false} SumAbsDiffNonNegative(a: seq<int>, b: seq<int>, n: nat)
    requires n <= |a| && n <= |b|
    ensures SumAbsDiff(a, b, n) >= 0
  {
    if n > 0 {
      SumAbsDiffNonNegative(a, b, n - 1);
    }
  }

  lemma ManhattanNonNegative(a: seq<int>, b: seq<int>)
    ensures Manhattan(a, b) >= 0
  {
    SumAbsDiffNonNegative(a, b, ZipLength(a, b));
  }

  lemma {:induction false} SumAbsDiffSymmetric(a: seq<int>, b: seq<int>, n: nat)
    requires n <= |a| && n <= |b|
    ensures SumAbsDiff(a, b, n) == SumAbsDiff(b, a, n)
  {
    if n > 0 {
      SumAbsDiffSymmetric(a, b, n - 1);
    }
  }

  lemma ManhattanSymmetric(a: seq<int>, b: seq<int>)
    ensures Manhattan(a, b) == Manhattan(b, a)
  {
    SumAbsDiffSymmetric(a, b, ZipLength(a, b));
  }

  lemma {:induction false} SumAbsDiffSelf(a: seq<int>, n: nat)
    requires n <= |a|
    ensures SumAbsDiff(a, a, n) == 0
  {
    if n > 0 {
      SumAbsDiffSelf(a, n - 1);
    }
  }

  /** A point is at distance 0 from itself. */
  lemma ManhattanSelf(a: seq<int>)
    ensures Manhattan(a, a) == 0
  {
    SumAbsDiffSelf(a, |a|);
  }

  /** Only the first `n` coordinates count towards `SumAbsDiff(_, _, n)`. */
  lemma {:induction false} SumAbsDiffPrefix(a: seq<int>, b: seq<int>, n: nat, m: nat)
    requires n <= m <= |a| && m <= |b|
    ensures SumAbsDiff(a, b, n) == SumAbsDiff(a[..m], b[..m], n)
  {
    if n > 0 {
      SumAbsDiffPrefix(a, b, n - 1, m);
    }
  }

  /** `zip` truncates to the shorter point: cutting both points to that
      length does not change the distance. */
  lemma ManhattanTruncates(a: seq<int>, b: seq<int>)
    ensures Manhattan(a, b) == Manhattan(a[..ZipLength(a, b)], b[..ZipLength(a, b)])
  {
    var n := ZipLength(a, b);
    SumAbsDiffPrefix(a, b, n, n);
  }

  lemma {:induction false} SumAbsDiffTriangle(a: seq<int>, b: seq<int>, c: seq<int>, n: nat)
    requires n <= |a| && n <= |b| && n <= |c|
    ensures SumAbsDiff(a, c, n) <= SumAbsDiff(a, b, n) + SumAbsDiff(b, c, n)
  {
    if n > 0 {
      SumAbsDiffTriangle(a, b, c, n - 1);
    }
  }

  /** The triangle inequality, for points of one dimension. */
  lemma ManhattanTriangle(a: seq<int>, b: seq<int>, c: seq<int>)
    requires |a| == |b| == |c|
    ensures Manhattan(a, c) <= Manhattan(a, b) + Manhattan(b, c)
  {
    SumAbsDiffTriangle(a, b, c, |a|);
  }

  /** In two dimensions the distance is the sum of the two axis gaps. */
  lemma Manhattan2D(a0: int, a1: int, b0: int, b1: int)
    ensures Manhattan([a0, a1], [b0, b1]) == Abs(a0 - b0) + Abs(a1 - b1)
  {
    assert SumAbsDiff([a0, a1], [b0, b1], 1) == Abs(a0 - b0);
  }

  lemma NonEmptyHasElement(s: set<int>)
    requires s != {}
    ensures exists x :: x in s
  {
    if forall x :: x !in s {
      assert false;
    }
  }
  /** Every finite, non-empty set of integers has a least element. */
  lemma {:induction false} HasLeast(s: set<int>)
    requires s != {}
    ensures exists m :: m in s && forall y :: y in s ==> m <= y
    decreases s
  {
    NonEmptyHasElement(s);
    var x :| x in s;
    if s != {x} {
      var rest := s - {x};
      NonEmptyHasElement(rest);
      HasLeast(rest);
      var m :| m in rest && forall y :: y in rest ==> m <= y;
      var least := if x < m then x else m;
      forall y | y in s ensures least <= y {
        if y != x {
          assert y in rest;
        }
      }
    } else {
      assert forall y :: y in s ==> x <= y;
    }
  }

  /** The least element of a non-empty set. */
  function SetMin(s: set<int>): (m: int)
    requires s != {}
    ensures m in s && forall y :: y in s ==> m <= y
  {
    HasLeast(s);
    var m :| m in s && forall y :: y in s ==> m <= y;
    m
  }

  /** `sorted(s)`: the elements of `s` in strictly increasing order. */
  function SortedSet(s: set<int>): (r: seq<int>)
    ensures forall i, j :: 0 <= i < j < |r| ==> r[i] < r[j]
    ensures forall x :: x in r <==> x in s
    decreases s
  {
    if s == {} then []
    else
      var m := SetMin(s);
      [m] + SortedSet(s - {m})
  }

  /** The lowest price of `d` that still has tickets, or `Inf` when none has. */
  function LowestPositiveOf(d: Offers): (p: Price)
    ensures p.Finite? ==> p.amount in d && d[p.amount] > 0
    ensures p.Finite? ==> forall k :: k in d && k < p.amount ==> d[k] <= 0
    ensures p.Inf? <==> forall k :: k in d ==> d[k] <= 0
  {
    var onSale := set k | k in d && d[k] > 0;
    assert forall k :: k in d && d[k] > 0 ==> k in onSale;
    if onSale == {} then Inf else Finite(SetMin(onSale))
  }

  /** A key with a positive value below which no key has one is the
      lowest positive key. */
  lemma LowestPositiveIs(d: Offers, x: int)
    requires x in d && d[x] > 0
    requires forall k :: k in d && k < x ==> d[k] <= 0
    ensures LowestPositiveOf(d) == Finite(x)
  {
    var p := LowestPositiveOf(d);
    assert p.Finite?;
  }

  /** `lowest_positive(d)`: walks the keys in increasing order and returns
      the first whose value is positive. */
  method LowestPositive(d: Offers) returns (p: Price)
    ensures p == LowestPositiveOf(d)
    ensures p.Finite? ==> p.amount in d && d[p.amount] > 0
    ensures p.Finite? ==> forall k :: k in d && k < p.amount ==> d[k] <= 0
    ensures p.Inf? <==> forall k :: k in d ==> d[k] <= 0
  {
    var keys := SortedSet(d.Keys);
    for i := 0 to |keys|
      invariant forall j :: 0 <= j < i ==> d[keys[j]] <= 0
    {
      var x := keys[i];
      if d[x] > 0 {
        forall k | k in d && k < x ensures d[k] <= 0 {
          var j :| 0 <= j < |keys| && keys[j] == k;
          assert j < i;
        }
        LowestPositiveIs(d, x);
        return Finite(x);
      }
    }
    forall k | k in d ensures d[k] <= 0 {
      var j :| 0 <= j < |keys| && keys[j] == k;
    }
    return Inf;
  }

  /** The CSV text of one cell: empty for `None`, `str(x)` otherwise. */
  function CellText(c: Cell): (s: string)
    ensures c.None? <==> s == ""
    ensures ',' !in s
  {
    match c
    case None => ""
    case Some(x) => IntToStr(x)
  }

  /** The texts of a row's cells, in order. */
  function RowTexts(row: Row): (r: seq<string>)
    ensures |r| == |row|
    ensures forall i :: 0 <= i < |row| ==> r[i] == CellText(row[i])
  {
    if row == [] then [] else RowTexts(row[..|row| - 1]) + [CellText(row[|row| - 1])]
  }

  /** One written line: the cell texts joined by `,`, then a newline. */
  function CsvLine(row: Row): string {
    Join(RowTexts(row), ',') + "\n"
  }

  /** `[f(x) for x in reversed(s)]`. */
  function MapReversed<A, B>(s: seq<A>, f: A -> B): (r: seq<B>)
    ensures |r| == |s|
    ensures forall t :: 0 <= t < |s| ==> r[t] == f(s[|s| - 1 - t])
  {
    seq(|s|, t requires 0 <= t < |s| => f(s[|s| - 1 - t]))
  }

  /** The lines `save_grid_as_csv` writes: one per row, last row first. */
  function CsvText(grid: Grid): (lines: seq<string>)
    ensures |lines| == |grid|
    ensures forall t :: 0 <= t < |grid| ==> lines[t] == CsvLine(grid[|grid| - 1 - t])
  {
    MapReversed(grid, CsvLine)
  }

  lemma RowTextsStep(row: Row, i: nat)
    requires i < |row|
    ensures RowTexts(row[..i + 1]) == RowTexts(row[..i]) + [CellText(row[i])]
  {
    assert row[..i + 1][..i] == row[..i];
  }

  lemma MapReversedStep<A, B>(s: seq<A>, f: A -> B, t: nat)
    requires t < |s|
    ensures MapReversed(s, f)[..t + 1] == MapReversed(s, f)[..t] + [f(s[|s| - 1 - t])]
  {
  }

  /** The inner loop of `save_grid_as_csv`: `''` for an empty cell,
      `str(x)` for an event number, in column order. */
  method RowStrings(row: Row) returns (strRow: seq<string>)
    ensures strRow == RowTexts(row)
  {
    strRow := [];
    for i := 0 to |row|
      invariant strRow == RowTexts(row[..i])
    {
      var x := row[i];
      RowTextsStep(row, i);
      if x.None? {
        strRow := strRow + [""];
      } else {
        strRow := strRow + [IntToStr(x.value)];
      }
    }
    assert row[..|row|] == row;
  }

  /** `save_grid_as_csv(filename, grid)`, returning the lines written to
      the file instead of writing them. */
  method SaveGridAsCsv(grid: Grid) returns (lines: seq<string>)
    ensures lines == CsvText(grid)
  {
    lines := [];
    var rows := Reverse(grid);
    ghost var all := MapReversed(grid, CsvLine);
    for t := 0 to |rows|
      invariant lines == all[..t]
    {
      var row := rows[t];
      var strRow := RowStrings(row);
      MapReversedStep(grid, CsvLine, t);
      assert Join(strRow, ',') + "\n" == CsvLine(grid[|grid| - 1 - t]);
      lines := lines + [Join(strRow, ',') + "\n"];
    }
    assert all[..|grid|] == all;
    assert CsvText(grid) == MapReversed(grid, CsvLine);
  }
}
