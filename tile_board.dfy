/**
  The values a tile view works with, and what one draw pass of it must produce.

  A board is the view's 12 x 22 grid of palette indices (10 x 20 playing cells
  plus a one-cell wall on every side), written as a sequence of 12 columns of 22
  cells each, so that `cells[x][y]` is the cell in column x and row y. An index of
  0 (or anything not positive) means "empty" and is never drawn. A draw pass
  visits the columns left to right and, within a column, the rows top to bottom;
  every cell with a positive index yields one draw of the palette entry under that
  index at the cell's pixel position.
 */
module TileBoard {
  import opened JavaInt

  const XTileCount: nat := 12
  const YTileCount: nat := 22

  datatype Option<T> = None | Some(value: T)

  /** The platform image a tile is loaded from; its pixels are not modelled. */
  type Drawable(==)

  /** A square bitmap: the drawable rasterised at `size` x `size` pixels. */
  datatype Bitmap = Rendered(source: Drawable, size: int)

  /** A palette slot: empty until a tile is loaded into it. */
  type Slot = Option<Bitmap>

  /** One call of the platform's bitmap drawing: the palette slot drawn (an empty
      slot is `None`) and the pixel position of its top-left corner. */
  datatype Draw = Draw(bitmap: Slot, left: int, top: int)

  /** The pixel translation of grid cell (0, 0) and the edge length of a tile. */
  datatype Layout = Layout(xOffset: int, yOffset: int, tileSize: int)

  predicate IsBoard(cells: seq<seq<int>>) {
    |cells| == XTileCount && forall x :: 0 <= x < |cells| ==> |cells[x]| == YTileCount
  }

  type Board = cells: seq<seq<int>> | IsBoard(cells) witness EmptyBoard()

  /** Everything a draw pass reads: the grid, the palette and the layout. */
  datatype Frame = Frame(cells: Board, palette: seq<Slot>, layout: Layout)

  /** Every index that a draw pass would look up is a slot of the palette. */
  predicate Indexed(f: Frame) {
    forall x, y :: 0 <= x < XTileCount && 0 <= y < YTileCount && f.cells[x][y] > 0 ==> f.cells[x][y] < |f.palette|
  }

  /** A frame that a draw pass can run on without an out-of-bounds palette access. */
  type DrawFrame = f: Frame | Indexed(f) witness Frame(EmptyBoard(), [], Layout(0, 0, 0))

  /** Two boards are equal when they agree on every cell. */
  lemma BoardsEqual(a: Board, b: Board)
    requires forall x, y :: 0 <= x < XTileCount && 0 <= y < YTileCount ==> a[x][y] == b[x][y]
    ensures a == b
  {
    forall x | 0 <= x < XTileCount
      ensures a[x] == b[x]
    {
      assert forall y :: 0 <= y < YTileCount ==> a[x][y] == b[x][y];
    }
  }

  /** The board the view starts from and returns to when cleared. */
  function EmptyBoard(): (cells: seq<seq<int>>)
    ensures IsBoard(cells)
    ensures forall x, y :: 0 <= x < XTileCount && 0 <= y < YTileCount ==> cells[x][y] == 0
  {
    seq(XTileCount, _ => seq(YTileCount, _ => 0))
  }

  /** The board with the one cell (x, y) holding `index`. */
  function SetCell(cells: Board, x: int, y: int, index: int): (r: Board)
    requires 0 <= x < XTileCount && 0 <= y < YTileCount
    ensures r[x][y] == index
    ensures forall i, j :: 0 <= i < XTileCount && 0 <= j < YTileCount && (i != x || j != y) ==> r[i][j] == cells[i][j]
  {
    cells[x := cells[x][y := index]]
  }

  /** The draw a non-empty cell (x, y) stands for. */
  function CellDraw(f: DrawFrame, x: int, y: int): Draw
    requires 0 <= x < XTileCount && 0 <= y < YTileCount && f.cells[x][y] > 0
  {
    Draw(f.palette[f.cells[x][y]], f.layout.xOffset + x * f.layout.tileSize, f.layout.yOffset + y * f.layout.tileSize)
  }

  /** The draws of cell (x, y): one if it is a non-empty cell of the board, none otherwise. */
  function CellDraws(f: DrawFrame, x: int, y: int): seq<Draw> {
    if 0 <= x < XTileCount && 0 <= y < YTileCount && f.cells[x][y] > 0 then [CellDraw(f, x, y)] else []
  }

  /** The draws of rows 0 .. n-1 of column x, top to bottom. */
  function ColumnDraws(f: DrawFrame, x: int, n: int): seq<Draw> {
    if n <= 0 then [] else ColumnDraws(f, x, n - 1) + CellDraws(f, x, n - 1)
  }

  /** The draws of columns 0 .. m-1, left to right. */
  function ColumnsDraws(f: DrawFrame, m: int): seq<Draw> {
    if m <= 0 then [] else ColumnsDraws(f, m - 1) + ColumnDraws(f, m - 1, YTileCount)
  }

  /** Everything one draw pass emits, in the order it emits it. */
  function DrawList(f: DrawFrame): seq<Draw> {
    ColumnsDraws(f, XTileCount)
  }

  // ----- what a draw pass emits ---------------------------------------------

  lemma {:induction false} ColumnDrawsMembership(f: DrawFrame, x: int, n: int, d: Draw)
    requires 0 <= x < XTileCount && 0 <= n <= YTileCount
    ensures d in ColumnDraws(f, x, n) <==> exists y :: 0 <= y < n && f.cells[x][y] > 0 && d == CellDraw(f, x, y)
  {
    if n > 0 {
      ColumnDrawsMembership(f, x, n - 1, d);
    }
  }

  lemma {:induction false} ColumnsDrawsMembership(f: DrawFrame, m: int, d: Draw)
    requires 0 <= m <= XTileCount
    ensures d in ColumnsDraws(f, m)
        <==> exists x, y :: 0 <= x < m && 0 <= y < YTileCount && f.cells[x][y] > 0 && d == CellDraw(f, x, y)
  {
    if m > 0 {
      ColumnsDrawsMembership(f, m - 1, d);
      ColumnDrawsMembership(f, m - 1, YTileCount, d);
    }
  }

  /** A draw is emitted exactly when it is the draw of some non-empty cell. */
  lemma DrawListMembership(f: DrawFrame, d: Draw)
    ensures d in DrawList(f)
        <==> exists x, y :: 0 <= x < XTileCount && 0 <= y < YTileCount && f.cells[x][y] > 0 && d == CellDraw(f, x, y)
  {
    ColumnsDrawsMembership(f, XTileCount, d);
  }

  /** A draw pass emits nothing exactly when no cell holds a positive index. */
  lemma DrawListEmpty(f: DrawFrame)
    ensures DrawList(f) == [] <==> forall x, y :: 0 <= x < XTileCount && 0 <= y < YTileCount ==> f.cells[x][y] <= 0
  {
    var ds := DrawList(f);
    if ds == [] {
      forall x, y | 0 <= x < XTileCount && 0 <= y < YTileCount
        ensures f.cells[x][y] <= 0
      {
        if f.cells[x][y] > 0 {
          DrawListMembership(f, CellDraw(f, x, y));
        }
      }
    } else {
      DrawListMembership(f, ds[0]);
    }
  }

  /** A cleared board draws nothing, whatever the palette and layout. */
  lemma EmptyBoardDrawsNothing(palette: seq<Slot>, layout: Layout)
    ensures Indexed(Frame(EmptyBoard(), palette, layout))
    ensures DrawList(Frame(EmptyBoard(), palette, layout)) == []
  {
    DrawListEmpty(Frame(EmptyBoard(), palette, layout));
  }

  lemma {:induction false} EmptyColumnDrawsNothing(f: DrawFrame, x: int, n: int)
    requires 0 <= x < XTileCount && 0 <= n <= YTileCount
    requires forall j :: 0 <= j < n ==> f.cells[x][j] <= 0
    ensures ColumnDraws(f, x, n) == []
  {
    if n > 0 {
      EmptyColumnDrawsNothing(f, x, n - 1);
    }
  }

  /** A board whose only non-empty cell is (x, y) draws that cell and nothing else:
      one draw, of palette entry `cells[x][y]` at (xOffset + x*tileSize, yOffset + y*tileSize). */
  lemma SingleTileDraw(f: DrawFrame, x: int, y: int)
    requires 0 <= x < XTileCount && 0 <= y < YTileCount && f.cells[x][y] > 0
    requires forall i, j :: 0 <= i < XTileCount && 0 <= j < YTileCount && (i != x || j != y) ==> f.cells[i][j] <= 0
    ensures DrawList(f)
         == [Draw(f.palette[f.cells[x][y]], f.layout.xOffset + x * f.layout.tileSize, f.layout.yOffset + y * f.layout.tileSize)]
  {
    SingleTileColumns(f, x, y, XTileCount);
  }

  /** A single `SetCell` of a positive, palette-backed index on the empty board
      draws exactly that one tile. */
  lemma SetCellOnEmptyDraw(palette: seq<Slot>, layout: Layout, x: int, y: int, i: int)
    requires 0 <= x < XTileCount && 0 <= y < YTileCount && 0 < i < |palette|
    ensures Indexed(Frame(SetCell(EmptyBoard(), x, y, i), palette, layout))
    ensures DrawList(Frame(SetCell(EmptyBoard(), x, y, i), palette, layout))
         == [Draw(palette[i], layout.xOffset + x * layout.tileSize, layout.yOffset + y * layout.tileSize)]
  {
    var f := Frame(SetCell(EmptyBoard(), x, y, i), palette, layout);
    assert Indexed(f);
    SingleTileDraw(f, x, y);
  }

  lemma {:induction false} SingleTileColumns(f: DrawFrame, x: int, y: int, m: int)
    requires 0 <= x < XTileCount && 0 <= y < YTileCount && f.cells[x][y] > 0
    requires forall i, j :: 0 <= i < XTileCount && 0 <= j < YTileCount && (i != x || j != y) ==> f.cells[i][j] <= 0
    requires 0 <= m <= XTileCount
    ensures ColumnsDraws(f, m) == if m <= x then [] else [CellDraw(f, x, y)]
  {
    if m > 0 {
      SingleTileColumns(f, x, y, m - 1);
      if m - 1 != x {
        EmptyColumnDrawsNothing(f, m - 1, YTileCount);
      } else {
        SingleTileColumnSuffix(f, x, y, YTileCount);
      }
    }
  }

  lemma {:induction false} SingleTileColumnSuffix(f: DrawFrame, x: int, y: int, n: int)
    requires 0 <= x < XTileCount && 0 <= y < YTileCount && f.cells[x][y] > 0
    requires forall j :: 0 <= j < YTileCount && j != y ==> f.cells[x][j] <= 0
    requires y < n <= YTileCount
    ensures ColumnDraws(f, x, n) == [CellDraw(f, x, y)]
  {
    if n == y + 1 {
      EmptyColumnDrawsNothing(f, x, y);
    } else {
      SingleTileColumnSuffix(f, x, y, n - 1);
    }
  }

  /** After `SetCell(cells, x, y, i)`: a positive `i` is drawn at the cell's pixel
      position, and with a positive tile size no draw lands on that position for a
      non-positive `i` (the cell is drawn nowhere else). */
  lemma SetCellDrawn(cells: Board, palette: seq<Slot>, layout: Layout, x: int, y: int, i: int)
    requires 0 <= x < XTileCount && 0 <= y < YTileCount
    requires Indexed(Frame(SetCell(cells, x, y, i), palette, layout))
    ensures var after := Frame(SetCell(cells, x, y, i), palette, layout);
      var left, top := layout.xOffset + x * layout.tileSize, layout.yOffset + y * layout.tileSize;
      && (i > 0 ==> Draw(palette[i], left, top) in DrawList(after))
      && (i <= 0 && layout.tileSize > 0 ==> forall d :: d in DrawList(after) ==> d.left != left || d.top != top)
  {
    var after: DrawFrame := Frame(SetCell(cells, x, y, i), palette, layout);
    var left, top := layout.xOffset + x * layout.tileSize, layout.yOffset + y * layout.tileSize;
    if i > 0 {
      DrawListMembership(after, CellDraw(after, x, y));
    }
    if i <= 0 && layout.tileSize > 0 {
      forall d | d in DrawList(after)
        ensures d.left != left || d.top != top
      {
        DrawListMembership(after, d);
        var a, b :| 0 <= a < XTileCount && 0 <= b < YTileCount && after.cells[a][b] > 0 && d == CellDraw(after, a, b);
        if a != x {
          TileOffsetInjective(layout.tileSize, a, x);
        } else {
          TileOffsetInjective(layout.tileSize, b, y);
        }
      }
    }
  }

  lemma TileOffsetInjective(size: int, a: int, b: int)
    requires size > 0 && a != b
    ensures a * size != b * size
  {
    if a < b {
      assert b * size == a * size + (b - a) * size;
    } else {
      assert a * size == b * size + (a - b) * size;
    }
  }

  lemma MulStrictlyBelow(a: int, b: int, c: int)
    requires a < b && c > 0
    ensures a * c + c <= b * c
  {
    SubtractMultiples(b, a, c);
    SubtractMultiples(b - a, 1, c);
    assert (b - a - 1) * c >= 0;
  }

  // ----- layout offsets -----------------------------------------------------

  /** The left edge of the board for a view `w` pixels wide: the view is cut into
      `pos` slices and the board placed relative to the last one, using Java's
      truncating division. `pos == 0` would divide by zero. */
  function XOffsetFor(w: int, tileSize: int, pos: int): int
    requires pos != 0
  {
    (w - TruncDiv(w, pos)) + TruncDiv(w - tileSize * XTileCount, 2 * pos)
  }

  /** The top edge of the board for a view `h` pixels high (Java's truncating division). */
  function YOffsetFor(h: int, tileSize: int): int {
    TruncDiv(h - tileSize * YTileCount, 2)
  }

  /** The board is centred vertically: the space above and the space below differ
      by at most one pixel, the odd pixel going below when the board fits and above
      when it overhangs. */
  lemma YOffsetCentres(h: int, tileSize: int)
    ensures var above := YOffsetFor(h, tileSize);
      var below := h - (above + tileSize * YTileCount);
      && (h >= tileSize * YTileCount ==> 0 <= below - above <= 1)
      && (h < tileSize * YTileCount ==> -1 <= below - above <= 0)
  {
    var n := h - tileSize * YTileCount;
    var q := TruncDiv(n, 2);
    assert IsTruncRemainder(n, 2, n - q * 2);
  }

  /** With a single slice (`pos == 1`) the board is centred horizontally in the
      same way. */
  lemma XOffsetCentresWithOneSlice(w: int, tileSize: int)
    ensures var left := XOffsetFor(w, tileSize, 1);
      var right := w - (left + tileSize * XTileCount);
      && (w >= tileSize * XTileCount ==> 0 <= right - left <= 1)
      && (w < tileSize * XTileCount ==> -1 <= right - left <= 0)
  {
    var n := w - tileSize * XTileCount;
    assert IsTruncRemainder(w, 1, w - TruncDiv(w, 1) * 1);
    assert TruncDiv(w, 1) == w;
    var q := TruncDiv(n, 2);
    assert IsTruncRemainder(n, 2, n - q * 2);
  }

  /** With `pos` positive slices, a board no wider than the view starts inside the
      last slice, which begins at `w - w/pos`. */
  lemma XOffsetInLastSlice(w: int, tileSize: int, pos: int)
    requires pos > 0 && 0 <= tileSize * XTileCount <= w
    ensures w - TruncDiv(w, pos) <= XOffsetFor(w, tileSize, pos) <= w
  {
    var n := w - tileSize * XTileCount;
    var q := TruncDiv(n, 2 * pos);
    assert IsTruncRemainder(n, 2 * pos, n - q * (2 * pos));
    var p := TruncDiv(w, pos);
    assert IsTruncRemainder(w, pos, w - p * pos);
    assert q >= 0 by {
      if q < 0 { MulStrictlyBelow(q, 0, 2 * pos); }
    }
    assert q <= p by {
      if q > p {
        assert q * (2 * pos) == 2 * (q * pos);
        MulStrictlyBelow(p, q, pos);
        MulStrictlyBelow(0, q, pos);
      }
    }
  }

  /** With more than one slice the board is not centred in the last slice, and
      may run past the view's right edge: in a 100-pixel view cut into 2 slices,
      a board of 4-pixel tiles (48 pixels) fits the 50-pixel last slice, yet it
      starts at pixel 63 and ends at pixel 111. */
  lemma XOffsetOverhangsWithTwoSlices()
    ensures 4 * XTileCount <= TruncDiv(100, 2)
    ensures XOffsetFor(100, 4, 2) == 63
    ensures XOffsetFor(100, 4, 2) + 4 * XTileCount > 100
  {
    TruncDivAgreesOnNaturals(100, 2);
    TruncDivAgreesOnNaturals(52, 4);
  }
}
