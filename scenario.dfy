/** A worked example of the brute-force nearest-event query: a 3 by 3
    grid with one event that has tickets at one price, one that has
    tickets only at its higher price, and one that is sold out. */
module Scenario {
  import opened Common
  import opened Utils
  import opened Entries
  import opened World

  /** Event 303 at (0, 0), 101 at (1, 1), 202 at (2, 2); row `j` holds
      the cells `(i, j)`. */
  function ExampleGrid(): Grid {
    [[Some(303), None, None], [None, Some(101), None], [None, None, Some(202)]]
  }

  function ExampleEvents(): map<int, Offers> {
    map[101 := map[500 := 10], 202 := map[300 := 0, 600 := 5], 303 := map[200 := 0]]
  }

  lemma ExampleCatalogued()
    ensures Catalogued(ExampleGrid(), ExampleEvents())
  {
    var g: Grid := ExampleGrid();
    forall j: int, i: int | 0 <= j < |g| && 0 <= i < |g[j]| && g[j][i].Some?
      ensures g[j][i].value in ExampleEvents()
    {
      assert g[j][i] in {Some(303), Some(101), Some(202)};
    }
  }

  /** 101 sells at 500; 202's only price with tickets is 600; 303 has none. */
  lemma ExamplePrices()
    ensures LowestPositiveOf(ExampleEvents()[101]) == Finite(500)
    ensures LowestPositiveOf(ExampleEvents()[202]) == Finite(600)
    ensures LowestPositiveOf(ExampleEvents()[303]) == Inf
  {
    var a := ExampleEvents()[101];
    var b := ExampleEvents()[202];
    assert a[500] > 0 && b[600] > 0;
  }

  lemma RowEntriesOfThree(row: Row, j: int, q: (int, int), ev: map<int, Offers>)
    requires |row| == 3 && RowCatalogued(row, ev)
    ensures RowEntries(row, j, q, ev) ==
      CellEntries(row[0], 0, j, q, ev) + CellEntries(row[1], 1, j, q, ev) + CellEntries(row[2], 2, j, q, ev)
  {
    var two, one := row[..2], row[..1];
    assert two[..1] == one && one[..0] == [] && one[0] == row[0] && two[1] == row[1];
    assert RowEntries(one, j, q, ev) == CellEntries(row[0], 0, j, q, ev);
    assert RowEntries(two, j, q, ev) == RowEntries(one, j, q, ev) + CellEntries(row[1], 1, j, q, ev);
    assert RowEntries(row, j, q, ev) == RowEntries(two, j, q, ev) + CellEntries(row[2], 2, j, q, ev);
  }

  lemma GridEntriesOfThree(g: Grid, q: (int, int), ev: map<int, Offers>)
    requires |g| == 3 && Catalogued(g, ev)
    ensures RowCatalogued(g[0], ev) && RowCatalogued(g[1], ev) && RowCatalogued(g[2], ev)
    ensures GridEntries(g, q, ev) ==
      RowEntries(g[0], 0, q, ev) + RowEntries(g[1], 1, q, ev) + RowEntries(g[2], 2, q, ev)
  {
    assert RowCatalogued(g[0], ev) && RowCatalogued(g[1], ev) && RowCatalogued(g[2], ev);
    var two, one := g[..2], g[..1];
    assert two[..1] == one && one[..0] == [] && one[0] == g[0] && two[1] == g[1];
    assert GridEntries(one, q, ev) == RowEntries(g[0], 0, q, ev);
    assert GridEntries(two, q, ev) == GridEntries(one, q, ev) + RowEntries(g[1], 1, q, ev);
    assert GridEntries(g, q, ev) == GridEntries(two, q, ev) + RowEntries(g[2], 2, q, ev);
  }

  /** An occupied cell whose event sells at `p` gives one tuple. */
  lemma CellEntriesOf(c: Cell, i: int, j: int, q: (int, int), ev: map<int, Offers>, p: int)
    requires c.Some? && c.value in ev && LowestPositiveOf(ev[c.value]) == Finite(p)
    ensures CellEntries(c, i, j, q, ev) == [Entry(Abs(q.0 - i) + Abs(q.1 - j), p, c.value)]
  {
    Manhattan2D(q.0, q.1, i, j);
  }

  /** On a grid whose only events sit on the diagonal, the scan meets
      them in row order and skips the one with no tickets. */
  lemma DiagonalEntries(g: Grid, ev: map<int, Offers>, q: (int, int), x: int, y: int, z: int, py: int, pz: int)
    requires g == [[Some(x), None, None], [None, Some(y), None], [None, None, Some(z)]]
    requires x in ev && y in ev && z in ev
    requires LowestPositiveOf(ev[x]) == Inf
    requires LowestPositiveOf(ev[y]) == Finite(py) && LowestPositiveOf(ev[z]) == Finite(pz)
    ensures Catalogued(g, ev)
    ensures GridEntries(g, q, ev) == [Entry(Abs(q.0 - 1) + Abs(q.1 - 1), py, y), Entry(Abs(q.0 - 2) + Abs(q.1 - 2), pz, z)]
  {
    assert Catalogued(g, ev) by {
      forall j: int, i: int | 0 <= j < |g| && 0 <= i < |g[j]| && g[j][i].Some?
        ensures g[j][i].value in ev
      {
        assert g[j][i] in {Some(x), Some(y), Some(z)};
      }
    }
    GridEntriesOfThree(g, q, ev);
    RowEntriesOfThree(g[0], 0, q, ev);
    RowEntriesOfThree(g[1], 1, q, ev);
    RowEntriesOfThree(g[2], 2, q, ev);
    CellEntriesOf(g[1][1], 1, 1, q, ev, py);
    CellEntriesOf(g[2][2], 2, 2, q, ev, pz);
    assert RowEntries(g[0], 0, q, ev) == [];
  }

  /** The scan meets 101 and then 202, and skips the sold-out 303. */
  lemma ExampleEntries(q: (int, int))
    ensures Catalogued(ExampleGrid(), ExampleEvents())
    ensures GridEntries(ExampleGrid(), q, ExampleEvents()) ==
      [Entry(Abs(q.0 - 1) + Abs(q.1 - 1), 500, 101), Entry(Abs(q.0 - 2) + Abs(q.1 - 2), 600, 202)]
  {
    ExamplePrices();
    DiagonalEntries(ExampleGrid(), ExampleEvents(), q, 303, 101, 202, 500, 600);
  }

  /** From any point the two events with tickets come back nearest
      first, the cheaper first when they are equally near. */
  lemma ExampleNearest(q: (int, int))
    ensures Catalogued(ExampleGrid(), ExampleEvents())
    ensures var a := Entry(Abs(q.0 - 1) + Abs(q.1 - 1), 500, 101);
      var b := Entry(Abs(q.0 - 2) + Abs(q.1 - 2), 600, 202);
      NearestEvents(ExampleGrid(), ExampleEvents(), q, None) == if a.distance <= b.distance then [a, b] else [b, a]
  {
    ExampleEntries(q);
    var a := Entry(Abs(q.0 - 1) + Abs(q.1 - 1), 500, 101);
    var b := Entry(Abs(q.0 - 2) + Abs(q.1 - 2), 600, 202);
    SortOfPair(a, b);
    assert LessEq(a, b) <==> a.distance <= b.distance;
  }

  /** From (1, 1): 101 in its own cell at distance 0, then 202 at
      distance 2. */
  lemma ExampleFromCentre()
    ensures Catalogued(ExampleGrid(), ExampleEvents())
    ensures NearestEvents(ExampleGrid(), ExampleEvents(), (1, 1), None) == [Entry(0, 500, 101), Entry(2, 600, 202)]
  {
    ExampleNearest((1, 1));
  }

  /** From (1, 1), `k = 2` keeps both, `k = 1` the first, `k = 0`
      nothing, and Python's `[:-1]` drops the last. */
  lemma ExampleFromCentreFirstK(k: int)
    requires -1 <= k <= 2
    ensures Catalogued(ExampleGrid(), ExampleEvents())
    ensures NearestEvents(ExampleGrid(), ExampleEvents(), (1, 1), Some(k)) ==
      if k == 0 then [] else if k == 2 then [Entry(0, 500, 101), Entry(2, 600, 202)] else [Entry(0, 500, 101)]
  {
    ExampleFromCentre();
    NearestEventsSlice(ExampleGrid(), ExampleEvents(), (1, 1), k);
    SliceOfPair(Entry(0, 500, 101), Entry(2, 600, 202), k);
  }

  lemma SliceOfPair(a: Entry, b: Entry, k: int)
    requires -1 <= k <= 2
    ensures SlicePrefix([a, b], k) == if k == 0 then [] else if k == 2 then [a, b] else [a]
  {
    assert [a, b][..1] == [a] && [a, b][..0] == [] && [a, b][..2] == [a, b];
  }

  /** From (5, 5), outside the grid, the full scan still finds both
      events, now with 202 (distance 6) ahead of 101 (distance 8). */
  lemma ExampleFromOutside()
    ensures Catalogued(ExampleGrid(), ExampleEvents())
    ensures NearestEvents(ExampleGrid(), ExampleEvents(), (5, 5), None) == [Entry(6, 600, 202), Entry(8, 500, 101)]
  {
    ExampleNearest((5, 5));
  }
}
