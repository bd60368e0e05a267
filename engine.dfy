/** The grid routines of the simulator, on the two-dimensional arrays they fill in place:
    createGrid, countNeighbors, updateGrid and the copy the control loop makes on a resize.
    Each is proved against the value-level definitions of module Grid. */
module Engine {
  import opened Grid

  /** The contents of a grid array, as a Board of a.Length0 rows of a.Length1 cells. */
  ghost function Cells(a: array2<char>): (g: Board)
    reads a
    ensures IsGrid(g, a.Length1, a.Length0)
    ensures forall y, x | 0 <= y < a.Length0 && 0 <= x < a.Length1 :: g[y][x] == a[y, x]
  {
    seq(a.Length0, y reads a requires 0 <= y < a.Length0 =>
      seq(a.Length1, x reads a requires 0 <= x < a.Length1 => a[y, x]))
  }

  /** An array and a board with the same shape and the same cells have the same contents. */
  lemma CellsAre(a: array2<char>, g: Board)
    requires IsGrid(g, a.Length1, a.Length0)
    requires forall y, x | 0 <= y < a.Length0 && 0 <= x < a.Length1 :: a[y, x] == g[y][x]
    ensures Cells(a) == g
  {
    forall y | 0 <= y < a.Length0
      ensures Cells(a)[y] == g[y]
    {
    }
  }

  /** createGrid: a fresh height x width grid whose every cell is ' '. */
  method CreateGrid(width: nat, height: nat) returns (grid: array2<char>)
    ensures fresh(grid)
    ensures grid.Length0 == height && grid.Length1 == width
    ensures Cells(grid) == Blank(width, height)
  {
    grid := new char[height, width];
    for i := 0 to height
      invariant forall y, x | 0 <= y < i && 0 <= x < width :: grid[y, x] == Dead
    {
      for j := 0 to width
        invariant forall y, x | 0 <= y < i && 0 <= x < width :: grid[y, x] == Dead
        invariant forall x | 0 <= x < j :: grid[i, x] == Dead
      {
        grid[i, j] := Dead;
      }
    }
    CellsAre(grid, Blank(width, height));
  }

  /** What the neighbour loop adds at offset (dx, dy): nothing at the centre, else 1 for a
      live neighbour. */
  function Term(g: Board, w: nat, h: nat, x: nat, y: nat, dx: int, dy: int): nat
    requires IsGrid(g, w, h) && x < w && y < h && -1 <= dx <= 1 && -1 <= dy <= 1
  {
    if dx == 0 && dy == 0 then 0 else Neighbor(g, w, h, x, y, dx, dy)
  }

  /** The inner loop's sum over the first n offsets dx = -1, 0, 1 of row offset dy. */
  function RowSum(g: Board, w: nat, h: nat, x: nat, y: nat, dy: int, n: nat): nat
    requires IsGrid(g, w, h) && x < w && y < h && -1 <= dy <= 1 && n <= 3
  {
    if n == 0 then 0 else RowSum(g, w, h, x, y, dy, n - 1) + Term(g, w, h, x, y, n - 2, dy)
  }

  /** The outer loop's sum over the first m row offsets dy = -1, 0, 1. */
  function RowsSum(g: Board, w: nat, h: nat, x: nat, y: nat, m: nat): nat
    requires IsGrid(g, w, h) && x < w && y < h && m <= 3
  {
    if m == 0 then 0 else RowsSum(g, w, h, x, y, m - 1) + RowSum(g, w, h, x, y, m - 2, 3)
  }

  /** A full row of the inner loop adds its three offsets. */
  lemma RowSumFull(g: Board, w: nat, h: nat, x: nat, y: nat, dy: int)
    requires IsGrid(g, w, h) && x < w && y < h && -1 <= dy <= 1
    ensures RowSum(g, w, h, x, y, dy, 3) ==
            Term(g, w, h, x, y, -1, dy) + Term(g, w, h, x, y, 0, dy) + Term(g, w, h, x, y, 1, dy)
  {
    assert RowSum(g, w, h, x, y, dy, 1) == Term(g, w, h, x, y, -1, dy);
    assert RowSum(g, w, h, x, y, dy, 2) == RowSum(g, w, h, x, y, dy, 1) + Term(g, w, h, x, y, 0, dy);
  }

  /** The three rows of offsets add up to the eight-neighbour count. */
  lemma RowsSumAll(g: Board, w: nat, h: nat, x: nat, y: nat)
    requires IsGrid(g, w, h) && x < w && y < h
    ensures RowsSum(g, w, h, x, y, 3) == NeighborCount(g, w, h, x, y)
  {
    RowSumFull(g, w, h, x, y, -1);
    RowSumFull(g, w, h, x, y, 0);
    RowSumFull(g, w, h, x, y, 1);
    assert RowsSum(g, w, h, x, y, 1) == RowSum(g, w, h, x, y, -1, 3);
    assert RowsSum(g, w, h, x, y, 2) == RowsSum(g, w, h, x, y, 1) + RowSum(g, w, h, x, y, 0, 3);
    assert RowsSum(g, w, h, x, y, 3) == RowsSum(g, w, h, x, y, 2) + RowSum(g, w, h, x, y, 1, 3);
  }

  /** countNeighbors: the double loop over the offsets counts exactly the live toroidal
      neighbours of (x, y), never indexing outside the grid. */
  method CountNeighbors(grid: array2<char>, x: nat, y: nat) returns (count: nat)
    requires y < grid.Length0 && x < grid.Length1
    ensures count == NeighborCount(Cells(grid), grid.Length1, grid.Length0, x, y)
  {
    ghost var g := Cells(grid);
    var height := grid.Length0;
    var width := grid.Length1;
    count := 0;
    for dy := -1 to 2
      invariant count == RowsSum(g, width, height, x, y, dy + 1)
    {
      for dx := -1 to 2
        invariant count == RowsSum(g, width, height, x, y, dy + 1) + RowSum(g, width, height, x, y, dy, dx + 1)
      {
        if dx == 0 && dy == 0 {
          continue;
        }
        var newY := (y + dy + height) % height;
        var newX := (x + dx + width) % width;
        WrapIsMod(y, dy, height);
        WrapIsMod(x, dx, width);
        if grid[newY, newX] == Live {
          count := count + 1;
        }
      }
    }
    RowsSumAll(g, width, height, x, y);
  }

  /** The cells of a that updateGrid's loops have visited, those before row y and those of
      row y before column x, hold the next generation of g; the others are still ' '. */
  ghost predicate UpdatedUpTo(a: array2<char>, g: Board, w: nat, h: nat, y: nat, x: nat)
    reads a
    requires IsGrid(g, w, h) && a.Length0 == h && a.Length1 == w
  {
    forall yy, xx | 0 <= yy < h && 0 <= xx < w ::
      a[yy, xx] == if yy < y || (yy == y && xx < x) then NextCell(g, w, h, xx, yy) else Dead
  }

  /** Once every row is visited, the array holds exactly the next generation. */
  lemma UpdatedAll(a: array2<char>, g: Board, w: nat, h: nat)
    requires IsGrid(g, w, h) && a.Length0 == h && a.Length1 == w
    requires UpdatedUpTo(a, g, w, h, h, 0)
    ensures Cells(a) == Next(g, w, h)
  {
    CellsAre(a, Next(g, w, h));
  }

  /** updateGrid: a freshly allocated grid of the same shape holding the next generation.
      The input is only read. */
  method UpdateGrid(grid: array2<char>) returns (newGrid: array2<char>)
    requires grid.Length0 >= 1  // the source reads len(grid[0])
    ensures fresh(newGrid)
    ensures newGrid.Length0 == grid.Length0 && newGrid.Length1 == grid.Length1
    ensures Cells(newGrid) == Next(Cells(grid), grid.Length1, grid.Length0)
  {
    ghost var g := Cells(grid);
    var height := grid.Length0;
    var width := grid.Length1;
    newGrid := CreateGrid(width, height);
    for y := 0 to height
      invariant Cells(grid) == g
      invariant UpdatedUpTo(newGrid, g, width, height, y, 0)
    {
      for x := 0 to width
        invariant Cells(grid) == g
        invariant UpdatedUpTo(newGrid, g, width, height, y, x)
      {
        var neighbors := CountNeighbors(grid, x, y);
        var isAlive := grid[y, x] == Live;
        if isAlive && (neighbors == 2 || neighbors == 3) {
          newGrid[y, x] := Live;
        } else if !isAlive && neighbors == 3 {
          newGrid[y, x] := Live;
        }
      }
    }
    UpdatedAll(newGrid, g, width, height);
  }

  /** The resize path of the control loop: a fresh grid of the new size, into which the
      top-left region shared by the old and the new size is copied. The old grid is only read. */
  method ResizeGrid(grid: array2<char>, width: nat, height: nat) returns (newGrid: array2<char>)
    ensures fresh(newGrid)
    ensures newGrid.Length0 == height && newGrid.Length1 == width
    ensures Cells(newGrid) == Resized(Cells(grid), grid.Length1, grid.Length0, width, height)
  {
    ghost var target := Resized(Cells(grid), grid.Length1, grid.Length0, width, height);
    newGrid := CreateGrid(width, height);
    var rows := Min(grid.Length0, newGrid.Length0);
    var cols := Min(grid.Length1, newGrid.Length1);
    for y := 0 to rows
      invariant forall yy, xx | 0 <= yy < height && 0 <= xx < width ::
                  newGrid[yy, xx] == if yy < y && xx < cols then grid[yy, xx] else Dead
    {
      for x := 0 to cols
        invariant forall yy, xx | 0 <= yy < height && 0 <= xx < width ::
                    newGrid[yy, xx] == if (yy < y && xx < cols) || (yy == y && xx < x) then grid[yy, xx] else Dead
      {
        newGrid[y, x] := grid[y, x];
      }
    }
    CellsAre(newGrid, target);
  }
}
