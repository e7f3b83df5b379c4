/** The drawing grid of Window.h: a 640 x 480 array of intensities, indexed `grid[x][y]`, of
    which the 28 x 28 corner is shown, painted with the mouse and fed to the network. */
module DrawingGrid {
  import opened VectorMath

  /** `WINDOW_SIZE_X` and `WINDOW_SIZE_Y`: the window, and the dimensions of the grid array. */
  const WindowWidth: nat := 640
  const WindowHeight: nat := 480

  /** `GRID_WINDOW`: the side, in pixels, of the square the drawing cells cover. */
  const GridWindow: nat := 480

  /** `GRID_X` = `GRID_Y`: cells per side of the drawing area. */
  const GridCells: nat := 28

  /** The highest cell index the brush clamps to. */
  const LastCell: nat := 27

  /** Intensities of a freshly painted centre cell and of its brushed neighbours. */
  const Ink: real := 1.0
  const HalfInk: real := 0.5

  type Grid = seq<seq<real>>

  /** The shape `create_window` gives the grid: 640 columns of 480 cells. */
  predicate Shaped(g: Grid)
  {
    |g| == WindowWidth && forall x :: 0 <= x < |g| ==> |g[x]| == WindowHeight
  }

  /** `grid.resize(640); for (auto& v : grid) v.resize(480);`: every cell starts at 0. */
  function NewGrid(): (g: Grid)
    ensures Shaped(g)
    ensures forall x, y :: 0 <= x < |g| && 0 <= y < |g[x]| ==> g[x][y] == 0.0
  {
    seq(WindowWidth, _ => Zeros(WindowHeight))
  }

  // ---------------------------------------------------------------------------
  // handle_mouse.

  /** `((float)p / GRID_WINDOW) * GRID_X` truncated: the cell under window coordinate p. The
      exact value 7p/120 is either an integer, which the single-precision computation hits
      exactly (p is then a multiple of 120, and p/480 a multiple of 1/4), or at least 1/120
      away from one. The single-precision error stays below 1e-4 for every p whose cell
      lies in the 640 x 480 array (p < 10972). So the exact quotient agrees with the
      computation. */
  function CellOf(p: nat): (c: nat)
    ensures GridWindow * c <= GridCells * p < GridWindow * (c + 1)
    ensures c < GridCells <==> p < GridWindow
  {
    (p * GridCells) / GridWindow
  }

  /** The `max` macro of `<windows.h>`, `((a) > (b) ? (a) : (b))`: the larger argument. */
  function Max(a: real, b: real): (m: real)
    ensures m >= a && m >= b
    ensures m == a || m == b
  {
    if a < b then b else a
  }

  /** `max(0, i - 1)`: the cell before i, or 0 at the edge. */
  function Before(i: nat): (b: nat)
    ensures b <= i && (i > 0 ==> b + 1 == i)
  {
    if i == 0 then 0 else i - 1
  }

  /** `min(27, i + 1)`: the cell after i, but never past the last cell of the drawing area. */
  function After(i: nat): (a: nat)
    ensures a <= LastCell
    ensures a == i + 1 || a == LastCell
    ensures i < LastCell ==> a == i + 1
  {
    if i + 1 < LastCell then i + 1 else LastCell
  }

  /** Cell (x, y) is one of the four the brush half-inks around centre (gx, gy): the clamped
      left and right cells on row gy and the clamped top and bottom cells in column gx. */
  predicate Brushed(gx: nat, gy: nat, x: nat, y: nat)
  {
    || (y == gy && (x == Before(gx) || x == After(gx)))
    || (x == gx && (y == Before(gy) || y == After(gy)))
  }

  /** `grid[x][y] = v`. */
  function Write(g: Grid, x: nat, y: nat, v: real): (r: Grid)
    requires x < |g| && y < |g[x]|
    ensures |r| == |g| && forall i :: 0 <= i < |g| ==> |r[i]| == |g[i]|
    ensures r[x][y] == v
    ensures forall i, j :: 0 <= i < |g| && 0 <= j < |g[i]| && (i != x || j != y) ==> r[i][j] == g[i][j]
  {
    g[x := g[x][y := v]]
  }

  /** `grid[x][y] = max(grid[x][y], 0.5f)`. */
  function Brush(g: Grid, x: nat, y: nat): (r: Grid)
    requires x < |g| && y < |g[x]|
    ensures |r| == |g| && forall i :: 0 <= i < |g| ==> |r[i]| == |g[i]|
    ensures r[x][y] == Max(g[x][y], HalfInk)
    ensures forall i, j :: 0 <= i < |g| && 0 <= j < |g[i]| && (i != x || j != y) ==> r[i][j] == g[i][j]
  {
    Write(g, x, y, Max(g[x][y], HalfInk))
  }

  /** The body of `handle_mouse` once the cell (gx, gy) is known: the four neighbours, clamped
      to [0, 27], are raised to at least 0.5, then the centre is set to 1. The `erase` flag is
      accepted and ignored, so the right button paints exactly like the left. */
  function Paint(g: Grid, gx: nat, gy: nat, erase: bool): (r: Grid)
    requires Shaped(g) && gx < WindowWidth && gy < WindowHeight
    ensures Shaped(r)
    ensures forall x, y :: 0 <= x < |g| && 0 <= y < |g[x]| ==>
      r[x][y] == (if x == gx && y == gy then Ink
                  else if Brushed(gx, gy, x, y) then Max(g[x][y], HalfInk)
                  else g[x][y])
  {
    var g1 := Brush(g, Before(gx), gy);
    var g2 := Brush(g1, After(gx), gy);
    var g3 := Brush(g2, gx, Before(gy));
    var g4 := Brush(g3, gx, After(gy));
    Write(g4, gx, gy, Ink)
  }

  /** `handle_mouse(x, y, erase)` for a point of the client area. The window can be resized,
      so the point may lie beyond 640 x 480; `grid[grid_x][grid_y]` stays inside the array
      exactly when its cell does. */
  function HandleMouse(g: Grid, px: nat, py: nat, erase: bool): (r: Grid)
    requires Shaped(g) && CellOf(px) < WindowWidth && CellOf(py) < WindowHeight
    ensures Shaped(r)
    ensures r[CellOf(px)][CellOf(py)] == Ink
  {
    Paint(g, CellOf(px), CellOf(py), erase)
  }

  /** The right button (erase) and the left button leave the same grid. */
  lemma EraseIsIgnored(g: Grid, px: nat, py: nat)
    requires Shaped(g) && CellOf(px) < WindowWidth && CellOf(py) < WindowHeight
    ensures HandleMouse(g, px, py, true) == HandleMouse(g, px, py, false)
  {
  }

  /** Painting never darkens a cell, and it touches at most the centre and its four
      neighbours. */
  lemma PaintOnlyBrightens(g: Grid, gx: nat, gy: nat, erase: bool)
    requires Shaped(g) && gx < WindowWidth && gy < WindowHeight
    requires forall x, y :: 0 <= x < |g| && 0 <= y < |g[x]| ==> g[x][y] <= Ink
    ensures var r := Paint(g, gx, gy, erase);
      forall x, y :: 0 <= x < |g| && 0 <= y < |g[x]| ==>
        && g[x][y] <= r[x][y] <= Ink
        && (r[x][y] != g[x][y] ==> (x == gx && y == gy) || Brushed(gx, gy, x, y))
  {
  }

  /** Every cell holds one of the three intensities the window paints: black, gray, white. */
  predicate InPalette(g: Grid)
  {
    forall x, y :: 0 <= x < |g| && 0 <= y < |g[x]| ==> g[x][y] == 0.0 || g[x][y] == HalfInk || g[x][y] == Ink
  }

  /** Painting a grid of 0, 0.5 and 1 leaves a grid of 0, 0.5 and 1, whatever the click; from
      the blank grid, strokes therefore only ever produce those three values. */
  lemma PaintKeepsPalette(g: Grid, gx: nat, gy: nat, erase: bool)
    requires Shaped(g) && gx < WindowWidth && gy < WindowHeight && InPalette(g)
    ensures InPalette(Paint(g, gx, gy, erase))
  {
  }

  /** A stroke right of the drawing area (column 29 or beyond) still half-inks column 27 on
      its row, because the right neighbour is clamped to 27 rather than to the centre. */
  lemma StrokeBeyondGridMarksLastColumn(g: Grid, gx: nat, gy: nat, erase: bool)
    requires Shaped(g) && LastCell + 1 < gx < WindowWidth && gy < WindowHeight
    ensures Paint(g, gx, gy, erase)[LastCell][gy] == Max(g[LastCell][gy], HalfInk)
    ensures LastCell != gx + 1 && LastCell != gx - 1
  {
  }

  /** A stroke below the drawing area (row 29 or beyond, reachable once the window is
      enlarged) still half-inks row 27 in its column, because the bottom neighbour is clamped
      to 27 rather than to the centre. */
  lemma StrokeBelowGridMarksLastRow(g: Grid, gx: nat, gy: nat, erase: bool)
    requires Shaped(g) && gx < WindowWidth && LastCell + 1 < gy < WindowHeight
    ensures Paint(g, gx, gy, erase)[gx][LastCell] == Max(g[gx][LastCell], HalfInk)
    ensures LastCell != gy + 1 && LastCell != gy - 1
  {
  }

  /** A mouse point below the 480-pixel square, in a window enlarged past 498 pixels, lands
      on a cell below the drawing area; its stroke half-inks the last row. */
  lemma PointBelowGridMarksLastRow(g: Grid, px: nat, py: nat, erase: bool)
    requires Shaped(g) && px < GridWindow && 498 <= py && CellOf(py) < WindowHeight
    ensures CellOf(px) < GridCells && LastCell + 1 < CellOf(py)
    ensures HandleMouse(g, px, py, erase)[CellOf(px)][LastCell] == Max(g[CellOf(px)][LastCell], HalfInk)
  {
    StrokeBelowGridMarksLastRow(g, CellOf(px), CellOf(py), erase);
  }

  // ---------------------------------------------------------------------------
  // Clearing with the C key.

  /** The grid with its 28 x 28 drawing area blanked and every other cell kept. */
  function Cleared(g: Grid): (r: Grid)
    ensures |r| == |g| && forall x :: 0 <= x < |g| ==> |r[x]| == |g[x]|
  {
    seq(|g|, x requires 0 <= x < |g| =>
      if x < GridCells then seq(|g[x]|, y requires 0 <= y < |g[x]| => if y < GridCells then 0.0 else g[x][y])
      else g[x])
  }

  /** The `WM_KEYDOWN` handler for 'C': two nested loops over the 28 x 28 cells. */
  method Clear(g: Grid) returns (r: Grid)
    requires |g| >= GridCells && forall x :: 0 <= x < GridCells ==> |g[x]| >= GridCells
    ensures r == Cleared(g)
  {
    r := g;
    var x := 0;
    while x < GridCells
      invariant 0 <= x <= GridCells
      invariant |r| == |g| && forall i :: 0 <= i < |g| ==> |r[i]| == |g[i]|
      invariant forall i, j :: 0 <= i < |g| && 0 <= j < |g[i]| ==>
        r[i][j] == (if i < x && j < GridCells then 0.0 else g[i][j])
    {
      var y := 0;
      while y < GridCells
        invariant 0 <= y <= GridCells
        invariant |r| == |g| && forall i :: 0 <= i < |g| ==> |r[i]| == |g[i]|
        invariant forall i, j :: 0 <= i < |g| && 0 <= j < |g[i]| ==>
          r[i][j] == (if (i < x && j < GridCells) || (i == x && j < y) then 0.0 else g[i][j])
      {
        r := Write(r, x, y, 0.0);
        y := y + 1;
      }
      x := x + 1;
    }
    assert forall i :: 0 <= i < |g| ==> r[i] == Cleared(g)[i];
  }

  /** Clearing twice is clearing once, and clearing keeps the palette. */
  lemma ClearedIdempotent(g: Grid)
    ensures Cleared(Cleared(g)) == Cleared(g)
    ensures InPalette(g) ==> InPalette(Cleared(g))
  {
    assert forall x :: 0 <= x < |g| ==> Cleared(Cleared(g))[x] == Cleared(g)[x];
  }
}
