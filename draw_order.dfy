/**
  The order of a draw pass, stated without its recursive definition. `DrawnCells`
  lists the cells a pass draws; the lemmas here prove that the draw list holds
  exactly one draw per listed cell, in list order, that the list is strictly
  increasing in column-then-row order, and that it holds every cell with a
  positive key and nothing else. Together these fix both the order of the draws
  and their number.
 */
module DrawOrder {
  import opened TileBoard

  /** A grid position: column, then row. */
  type Cell = (int, int)

  /** Column-major order: column first, then row within the column. */
  predicate Before(p: Cell, q: Cell) {
    p.0 < q.0 || (p.0 == q.0 && p.1 < q.1)
  }

  predicate Sorted(ps: seq<Cell>) {
    forall i, j :: 0 <= i < j < |ps| ==> Before(ps[i], ps[j])
  }

  /** A cell of the board holding a positive key: one that a draw pass draws. */
  predicate Drawn(f: DrawFrame, p: Cell) {
    0 <= p.0 < XTileCount && 0 <= p.1 < YTileCount && f.cells[p.0][p.1] > 0
  }

  /** The drawn cells among rows 0 .. n-1 of column x. */
  function ColumnCells(f: DrawFrame, x: int, n: int): seq<Cell> {
    if n <= 0 then [] else ColumnCells(f, x, n - 1) + (if Drawn(f, (x, n - 1)) then [(x, n - 1)] else [])
  }

  /** The drawn cells of columns 0 .. m-1. */
  function ColumnsCells(f: DrawFrame, m: int): seq<Cell> {
    if m <= 0 then [] else ColumnsCells(f, m - 1) + ColumnCells(f, m - 1, YTileCount)
  }

  function DrawnCells(f: DrawFrame): seq<Cell> {
    ColumnsCells(f, XTileCount)
  }

  /** `ds` is one draw per cell of `ps`, position by position. */
  predicate DrawsOfCells(f: DrawFrame, ds: seq<Draw>, ps: seq<Cell>) {
    |ds| == |ps| && forall i :: 0 <= i < |ps| ==> Drawn(f, ps[i]) && ds[i] == CellDraw(f, ps[i].0, ps[i].1)
  }

  /** The non-empty cells of the board, as a set. */
  function PositiveCells(f: DrawFrame): set<Cell> {
    set x, y | 0 <= x < XTileCount && 0 <= y < YTileCount && f.cells[x][y] > 0 :: (x, y)
  }

  // ----- sortedness and membership of the cell list ---------------------------

  lemma SortedAppend(a: seq<Cell>, b: seq<Cell>)
    requires Sorted(a) && Sorted(b)
    requires forall p, q :: p in a && q in b ==> Before(p, q)
    ensures Sorted(a + b)
  {
    forall i, j | 0 <= i < j < |a + b|
      ensures Before((a + b)[i], (a + b)[j])
    {
      if j < |a| {
        assert (a + b)[i] == a[i] && (a + b)[j] == a[j];
      } else if i >= |a| {
        assert (a + b)[i] == b[i - |a|] && (a + b)[j] == b[j - |a|];
      } else {
        assert (a + b)[i] == a[i] && (a + b)[j] == b[j - |a|];
        assert a[i] in a && b[j - |a|] in b;
      }
    }
  }

  lemma {:induction false} ColumnCellsComplete(f: DrawFrame, x: int, n: int)
    requires 0 <= x < XTileCount && 0 <= n <= YTileCount
    ensures forall p :: p in ColumnCells(f, x, n) <==> Drawn(f, p) && p.0 == x && p.1 < n
  {
    if n > 0 {
      ColumnCellsComplete(f, x, n - 1);
    }
  }

  lemma {:induction false} ColumnCellsSorted(f: DrawFrame, x: int, n: int)
    requires 0 <= x < XTileCount && 0 <= n <= YTileCount
    ensures Sorted(ColumnCells(f, x, n))
  {
    if n > 0 {
      ColumnCellsSorted(f, x, n - 1);
      ColumnCellsComplete(f, x, n - 1);
      var last := if Drawn(f, (x, n - 1)) then [(x, n - 1)] else [];
      SortedAppend(ColumnCells(f, x, n - 1), last);
    }
  }

  lemma {:induction false} ColumnsCellsComplete(f: DrawFrame, m: int)
    requires 0 <= m <= XTileCount
    ensures forall p :: p in ColumnsCells(f, m) <==> Drawn(f, p) && p.0 < m
  {
    if m > 0 {
      ColumnsCellsComplete(f, m - 1);
      ColumnCellsComplete(f, m - 1, YTileCount);
    }
  }

  lemma {:induction false} ColumnsCellsSorted(f: DrawFrame, m: int)
    requires 0 <= m <= XTileCount
    ensures Sorted(ColumnsCells(f, m))
  {
    if m > 0 {
      ColumnsCellsSorted(f, m - 1);
      ColumnsCellsComplete(f, m - 1);
      ColumnCellsSorted(f, m - 1, YTileCount);
      ColumnCellsComplete(f, m - 1, YTileCount);
      SortedAppend(ColumnsCells(f, m - 1), ColumnCells(f, m - 1, YTileCount));
    }
  }

  /** The cell list is strictly increasing in column-then-row order and holds
      exactly the cells with a positive key. */
  lemma DrawnCellsSortedAndComplete(f: DrawFrame)
    ensures Sorted(DrawnCells(f))
    ensures forall p :: p in DrawnCells(f) <==> Drawn(f, p)
  {
    ColumnsCellsSorted(f, XTileCount);
    ColumnsCellsComplete(f, XTileCount);
  }

  // ----- the draw list follows the cell list ----------------------------------

  lemma DrawsOfCellsAppend(f: DrawFrame, d1: seq<Draw>, p1: seq<Cell>, d2: seq<Draw>, p2: seq<Cell>)
    requires DrawsOfCells(f, d1, p1) && DrawsOfCells(f, d2, p2)
    ensures DrawsOfCells(f, d1 + d2, p1 + p2)
  {
    forall i | 0 <= i < |p1 + p2|
      ensures Drawn(f, (p1 + p2)[i]) && (d1 + d2)[i] == CellDraw(f, (p1 + p2)[i].0, (p1 + p2)[i].1)
    {
      if i < |p1| {
        assert (p1 + p2)[i] == p1[i] && (d1 + d2)[i] == d1[i];
      } else {
        assert (p1 + p2)[i] == p2[i - |p1|] && (d1 + d2)[i] == d2[i - |d1|];
      }
    }
  }

  lemma {:induction false} ColumnDrawsFollowCells(f: DrawFrame, x: int, n: int)
    requires 0 <= x < XTileCount && 0 <= n <= YTileCount
    ensures DrawsOfCells(f, ColumnDraws(f, x, n), ColumnCells(f, x, n))
  {
    if n > 0 {
      ColumnDrawsFollowCells(f, x, n - 1);
      var last := if Drawn(f, (x, n - 1)) then [(x, n - 1)] else [];
      assert DrawsOfCells(f, CellDraws(f, x, n - 1), last);
      DrawsOfCellsAppend(f, ColumnDraws(f, x, n - 1), ColumnCells(f, x, n - 1), CellDraws(f, x, n - 1), last);
    }
  }

  lemma {:induction false} ColumnsDrawsFollowCells(f: DrawFrame, m: int)
    requires 0 <= m <= XTileCount
    ensures DrawsOfCells(f, ColumnsDraws(f, m), ColumnsCells(f, m))
  {
    if m > 0 {
      ColumnsDrawsFollowCells(f, m - 1);
      ColumnDrawsFollowCells(f, m - 1, YTileCount);
      DrawsOfCellsAppend(f, ColumnsDraws(f, m - 1), ColumnsCells(f, m - 1),
        ColumnDraws(f, m - 1, YTileCount), ColumnCells(f, m - 1, YTileCount));
    }
  }

  /** Draw i of a pass is the draw of the i-th cell of `DrawnCells`, and there are
      as many draws as listed cells. */
  lemma DrawListFollowsCells(f: DrawFrame)
    ensures DrawsOfCells(f, DrawList(f), DrawnCells(f))
  {
    ColumnsDrawsFollowCells(f, XTileCount);
  }

  // ----- consequences: order and number of draws -------------------------------

  /** Of two non-empty cells, the one earlier in column-then-row order is drawn
      earlier in the pass. */
  lemma DrawListOrder(f: DrawFrame, p: Cell, q: Cell)
    requires Drawn(f, p) && Drawn(f, q) && Before(p, q)
    ensures exists i, j :: 0 <= i < j < |DrawList(f)|
              && DrawList(f)[i] == CellDraw(f, p.0, p.1) && DrawList(f)[j] == CellDraw(f, q.0, q.1)
  {
    var cells, draws := DrawnCells(f), DrawList(f);
    DrawnCellsSortedAndComplete(f);
    DrawListFollowsCells(f);
    assert p in cells && q in cells;
    var i :| 0 <= i < |cells| && cells[i] == p;
    var j :| 0 <= j < |cells| && cells[j] == q;
    assert i < j;
    assert draws[i] == CellDraw(f, p.0, p.1) && draws[j] == CellDraw(f, q.0, q.1);
  }

  lemma {:induction false} SortedCardinality(ps: seq<Cell>)
    requires Sorted(ps)
    ensures |set p | p in ps| == |ps|
  {
    if ps != [] {
      var init := ps[..|ps| - 1];
      var last := ps[|ps| - 1];
      assert Sorted(init);
      SortedCardinality(init);
      assert last !in init;
      assert ps == init + [last];
      assert (set p | p in ps) == (set p | p in init) + {last};
    }
  }

  /** A draw pass issues exactly one draw per cell holding a positive key. */
  lemma DrawListCount(f: DrawFrame)
    ensures |DrawList(f)| == |PositiveCells(f)|
  {
    var cells := DrawnCells(f);
    DrawnCellsSortedAndComplete(f);
    DrawListFollowsCells(f);
    SortedCardinality(cells);
    assert (set p | p in cells) == PositiveCells(f) by {
      forall p | p in PositiveCells(f)
        ensures p in cells
      {
        assert Drawn(f, p);
      }
    }
  }
}
