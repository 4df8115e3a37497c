/**
  The tile view of the Tetris client: a 12 x 22 grid of palette indices that it
  mutates in place, a palette of tile bitmaps, and the pixel offsets at which the
  grid is drawn. A draw pass does not paint pixels here: it returns the list of
  bitmap draws it would issue, in order.
 */
module Tetris {
  import opened JavaInt
  import opened TileBoard

  class TileView {
    /** Edge of one tile in pixels, fixed when the view is built. */
    var tileSize: nat
    /** How many horizontal slices the view is cut into when placing the board. */
    var pos: int
    var xOffset: int
    var yOffset: int
    /** The bitmap slots, indexed by tile key; null until `ResetTiles`. */
    var palette: array?<Slot>
    /** `grid[x, y]` is the key of the tile at column x, row y; null until first needed. */
    var grid: array2?<int>

    /** A grid, once there is one, always has the view's fixed dimensions. */
    ghost predicate Valid()
      reads this
    {
      grid != null ==> grid.Length0 == XTileCount && grid.Length1 == YTileCount
    }

    /** The grid as a board value. */
    ghost function Cells(): (cells: Board)
      requires Valid() && grid != null
      reads this, grid
      ensures forall x, y :: 0 <= x < XTileCount && 0 <= y < YTileCount ==> cells[x][y] == grid[x, y]
    {
      var g := grid;
      seq(XTileCount, x requires 0 <= x < XTileCount reads g =>
        seq(YTileCount, y requires 0 <= y < YTileCount reads g => g[x, y]))
    }

    /** The palette as a sequence; a palette never allocated has no slots. */
    ghost function Palette(): seq<Slot>
      reads this, palette
    {
      if palette == null then [] else palette[..]
    }

    ghost function CurrentLayout(): Layout
      reads this
    {
      Layout(xOffset, yOffset, tileSize)
    }

    /** Everything a draw pass reads. */
    ghost function CurrentFrame(): Frame
      requires Valid() && grid != null
      reads this, grid, palette
    {
      Frame(Cells(), Palette(), CurrentLayout())
    }

    /** A view with the given tile size and slice count, and no grid or palette yet. */
    constructor (tileSize: nat, pos: int)
      ensures Valid()
      ensures this.tileSize == tileSize && this.pos == pos
      ensures xOffset == 0 && yOffset == 0
      ensures grid == null && palette == null
    {
      this.tileSize := tileSize;
      this.pos := pos;
      xOffset, yOffset := 0, 0;
      palette, grid := null, null;
    }

    /** Replaces the palette by `tilecount` empty slots. A negative count is a
        failed allocation. */
    method ResetTiles(tilecount: int)
      requires Valid() && tilecount >= 0
      modifies this`palette
      ensures Valid()
      ensures fresh(palette)
      ensures Palette() == seq(tilecount, _ => None)
    {
      palette := new Slot[tilecount](_ => None);
    }

    /** Stores `tile`, rasterised at the current tile size, in slot `key`; every other
        slot keeps its bitmap. */
    method LoadTile(key: int, tile: Drawable)
      requires Valid() && palette != null && 0 <= key < palette.Length
      modifies palette
      ensures Valid()
      ensures Palette() == old(Palette())[key := Some(Rendered(tile, tileSize))]
    {
      palette[key] := Some(Rendered(tile, tileSize));
    }

    /** Writes `tileindex` into cell (x, y), first allocating an all-empty grid if
        there is none. Coordinates outside the grid are an array-bounds failure. */
    method SetTile(tileindex: int, x: int, y: int)
      requires Valid()
      requires 0 <= x < XTileCount && 0 <= y < YTileCount
      modifies this`grid, grid
      ensures Valid() && grid != null
      ensures old(grid) != null ==> grid == old(grid)
      ensures old(grid) == null ==> fresh(grid)
      ensures Cells() == SetCell(old(if grid == null then EmptyBoard() else Cells()), x, y, tileindex)
    {
      ghost var before := if grid == null then EmptyBoard() else Cells();
      if grid == null {
        grid := new int[XTileCount, YTileCount]((_, _) => 0);
      }
      grid[x, y] := tileindex;
      BoardsEqual(Cells(), SetCell(before, x, y, tileindex));
    }

    /** Empties every cell, cell by cell through `SetTile` (which allocates the grid
        if there is none). */
    method ClearTiles()
      requires Valid()
      modifies this`grid, grid
      ensures Valid() && grid != null
      ensures old(grid) != null ==> grid == old(grid)
      ensures old(grid) == null ==> fresh(grid)
      ensures Cells() == EmptyBoard()
    {
      for x := 0 to XTileCount
        invariant Valid()
        invariant x > 0 ==> grid != null
        invariant old(grid) != null ==> grid == old(grid)
        invariant old(grid) == null && grid != null ==> fresh(grid)
        invariant grid != null ==> forall i, j :: 0 <= i < x && 0 <= j < YTileCount ==> grid[i, j] == 0
      {
        for y := 0 to YTileCount
          invariant Valid()
          invariant x > 0 || y > 0 ==> grid != null
          invariant old(grid) != null ==> grid == old(grid)
          invariant old(grid) == null && grid != null ==> fresh(grid)
          invariant grid != null ==> forall i, j :: 0 <= i < x && 0 <= j < YTileCount ==> grid[i, j] == 0
          invariant grid != null ==> forall j :: 0 <= j < y ==> grid[x, j] == 0
        {
          SetTile(0, x, y);
        }
      }
      BoardsEqual(Cells(), EmptyBoard());
    }

    /** Recomputes the offsets for a view of `w` x `h` pixels (Java's truncating
        division; `pos == 0` divides by zero) and replaces the grid by a fresh
        all-empty one. The previous size is not used. */
    method OnSizeChanged(w: int, h: int, oldw: int, oldh: int)
      requires pos != 0
      modifies this`xOffset, this`yOffset, this`grid
      ensures xOffset == XOffsetFor(w, tileSize, pos) && yOffset == YOffsetFor(h, tileSize)
      ensures Valid() && grid != null && fresh(grid)
      ensures Cells() == EmptyBoard()
    {
      xOffset := (w - TruncDiv(w, pos)) + TruncDiv(w - tileSize * XTileCount, 2 * pos);
      yOffset := TruncDiv(h - tileSize * YTileCount, 2);
      grid := new int[XTileCount, YTileCount]((_, _) => 0);
      ClearTiles();
    }

    /** One draw pass: for every cell with a positive key, column by column and row
        by row, the palette slot under that key at the cell's pixel position. The
        grid must exist and every positive key must name a palette slot, or the pass
        fails on a null or out-of-bounds array access. */
    method OnDraw() returns (draws: seq<Draw>)
      requires Valid() && grid != null && Indexed(CurrentFrame())
      ensures draws == DrawList(CurrentFrame())
    {
      ghost var f: DrawFrame := CurrentFrame();
      draws := [];
      for x := 0 to XTileCount
        invariant draws == ColumnsDraws(f, x)
      {
        for y := 0 to YTileCount
          invariant draws == ColumnsDraws(f, x) + ColumnDraws(f, x, y)
        {
          if grid[x, y] > 0 {
            draws := draws + [Draw(palette[grid[x, y]], xOffset + x * tileSize, yOffset + y * tileSize)];
          }
        }
      }
    }
  }

  /** A fresh view with 20-pixel tiles and a five-slot palette, whose only tile is
      key 3 at cell (5, 10): one draw pass draws that tile, once, at pixel (100, 200).
      The grid is allocated by `SetTile` itself, and the offsets are still 0. */
  method SingleTileScenario(image: Drawable) returns (draws: seq<Draw>)
    ensures draws == [Draw(Some(Rendered(image, 20)), 100, 200)]
  {
    var view := new TileView(20, 1);
    view.ResetTiles(5);
    view.LoadTile(3, image);
    ghost var slots := view.Palette();
    assert |slots| == 5 && slots[3] == Some(Rendered(image, 20));
    view.SetTile(3, 5, 10);
    assert view.Palette() == slots && view.CurrentLayout() == Layout(0, 0, 20);
    ghost var f := view.CurrentFrame();
    assert f == Frame(SetCell(EmptyBoard(), 5, 10, 3), slots, Layout(0, 0, 20));
    SetCellOnEmptyDraw(slots, Layout(0, 0, 20), 5, 10, 3);
    draws := view.OnDraw();
    assert draws == DrawList(f) == [Draw(slots[3], 5 * 20, 10 * 20)];
  }

  /** Whatever the palette and offsets, a draw pass right after `ClearTiles` emits nothing. */
  method ClearedScenario(view: TileView) returns (draws: seq<Draw>)
    requires view.Valid()
    modifies view`grid, view.grid
    ensures draws == []
  {
    view.ClearTiles();
    draws := view.OnDraw();
    EmptyBoardDrawsNothing(view.Palette(), view.CurrentLayout());
    assert view.CurrentFrame() == Frame(EmptyBoard(), view.Palette(), view.CurrentLayout());
  }
}
