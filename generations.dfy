/** What one generation of module Grid does to particular fields: empty fields, a lone cell,
    the block and the blinker, and what a resize there and back keeps. */
module Generations {
  import opened Grid

  /** Two boards of the same shape with the same cells are equal. */
  lemma BoardsEqual(a: Board, b: Board, w: nat, h: nat)
    requires IsGrid(a, w, h) && IsGrid(b, w, h)
    requires forall y, x | 0 <= y < h && 0 <= x < w :: a[y][x] == b[y][x]
    ensures a == b
  {
    forall y | 0 <= y < h
      ensures a[y] == b[y]
    {
    }
  }

  /** A cell with no live cell anywhere on the field stays dead. */
  lemma CellStaysDead(g: Board, w: nat, h: nat, x: nat, y: nat)
    requires IsGrid(g, w, h) && NoneAlive(g) && x < w && y < h
    ensures Next(g, w, h)[y][x] == Dead
  {
    assert NeighborCount(g, w, h, x, y) == 0;
  }

  /** No spontaneous generation: a field without live cells stays without live cells, and
      the next generation is written all ' '. */
  lemma NoneAliveStaysBlank(g: Board, w: nat, h: nat)
    requires IsGrid(g, w, h) && NoneAlive(g)
    ensures Next(g, w, h) == Blank(w, h)
  {
    forall y, x | 0 <= y < h && 0 <= x < w
      ensures Next(g, w, h)[y][x] == Blank(w, h)[y][x]
    {
      CellStaysDead(g, w, h, x, y);
    }
    BoardsEqual(Next(g, w, h), Blank(w, h), w, h);
  }

  /** The field is a torus vertically: a cell of the top row counts a live cell straight
      below it in the bottom row as its upper neighbour. */
  lemma TopSeesBottom(g: Board, w: nat, h: nat, x: nat)
    requires IsGrid(g, w, h) && 1 <= h && x < w && IsAlive(g[h - 1][x])
    ensures Neighbor(g, w, h, x, 0, 0, -1) == 1
    ensures NeighborCount(g, w, h, x, 0) >= 1
  {
  }

  /** The field is a torus horizontally: a cell of the leftmost column counts a live cell of
      the rightmost column on its row as its left neighbour. */
  lemma LeftSeesRight(g: Board, w: nat, h: nat, y: nat)
    requires IsGrid(g, w, h) && 1 <= w && y < h && IsAlive(g[y][w - 1])
    ensures Neighbor(g, w, h, 0, y, -1, 0) == 1
    ensures NeighborCount(g, w, h, 0, y) >= 1
  {
  }

  /** The live cells of g are exactly the one at (x0, y0). */
  predicate OnlyAliveAt(g: Board, w: nat, h: nat, x0: nat, y0: nat)
    requires IsGrid(g, w, h)
  {
    forall y, x | 0 <= y < h && 0 <= x < w :: IsAlive(g[y][x]) <==> (y == y0 && x == x0)
  }

  /** Beside a lone live cell, on a ring of two or more, no cell has exactly three live
      neighbours, and the lone cell itself has none: the count is the number of row offsets
      landing on the lone cell's row times the number of column offsets landing on its
      column, less the centre, and on a ring of two or more neither factor reaches 3. */
  lemma LoneCellCount(g: Board, w: nat, h: nat, x0: nat, y0: nat, x: nat, y: nat)
    requires IsGrid(g, w, h) && 2 <= w && 2 <= h && x0 < w && y0 < h && x < w && y < h
    requires OnlyAliveAt(g, w, h, x0, y0)
    ensures NeighborCount(g, w, h, x, y) != 3
    ensures x == x0 && y == y0 ==> NeighborCount(g, w, h, x, y) == 0
  {
  }

  /** A lone live cell dies, and nothing is born around it, on every field at least two
      cells wide and two high. */
  lemma LoneCellDies(g: Board, w: nat, h: nat, x0: nat, y0: nat)
    requires IsGrid(g, w, h) && 2 <= w && 2 <= h && x0 < w && y0 < h
    requires OnlyAliveAt(g, w, h, x0, y0)
    ensures Next(g, w, h) == Blank(w, h)
  {
    forall y, x | 0 <= y < h && 0 <= x < w
      ensures Next(g, w, h)[y][x] == Blank(w, h)[y][x]
    {
      LoneCellCount(g, w, h, x0, y0, x, y);
    }
    BoardsEqual(Next(g, w, h), Blank(w, h), w, h);
  }

  /** Whether a cell is alive in the next generation, read off B3/S23. */
  lemma NextAlive(g: Board, w: nat, h: nat, x: nat, y: nat)
    requires IsGrid(g, w, h) && x < w && y < h
    ensures IsAlive(Next(g, w, h)[y][x]) == LivesOn(IsAlive(g[y][x]), NeighborCount(g, w, h, x, y))
  {
  }

  /** On a field one cell wide a cell is its own left and right neighbour, so a lone live
      cell there counts itself twice. */
  lemma OneWideSelfCount(g: Board, h: nat, y0: nat)
    requires IsGrid(g, 1, h) && 3 <= h && y0 < h
    requires OnlyAliveAt(g, 1, h, 0, y0)
    ensures NeighborCount(g, 1, h, 0, y0) == 2
  {
  }

  /** The cell below a lone live cell on a field one cell wide sees it three times. */
  lemma OneWideBelowCount(g: Board, h: nat, y0: nat)
    requires IsGrid(g, 1, h) && 3 <= h && y0 < h
    requires OnlyAliveAt(g, 1, h, 0, y0)
    ensures NeighborCount(g, 1, h, 0, Wrap(y0, 1, h)) == 3
  {
  }

  /** Isolation does not kill on a field one cell wide: a lone live cell survives there, and
      the cell below it is born. */
  lemma LoneCellOnOneWideRing(g: Board, h: nat, y0: nat)
    requires IsGrid(g, 1, h) && 3 <= h && y0 < h
    requires OnlyAliveAt(g, 1, h, 0, y0)
    ensures IsAlive(Next(g, 1, h)[y0][0])
    ensures IsAlive(Next(g, 1, h)[Wrap(y0, 1, h)][0])
  {
    OneWideSelfCount(g, h, y0);
    OneWideBelowCount(g, h, y0);
    NextAlive(g, 1, h, 0, y0);
    NextAlive(g, 1, h, 0, Wrap(y0, 1, h));
  }

  /** The 4 x 4 field whose live cells are the 2 x 2 block in its middle. */
  predicate IsBlockField(g: Board)
  {
    IsGrid(g, 4, 4) &&
    forall y, x | 0 <= y < 4 && 0 <= x < 4 :: g[y][x] == if 1 <= x <= 2 && 1 <= y <= 2 then Live else Dead
  }

  lemma BlockCell(g: Board, x: nat, y: nat)
    requires IsBlockField(g) && x < 4 && y < 4
    ensures Next(g, 4, 4)[y][x] == g[y][x]
  {
    assert y == 0 || y == 1 || y == 2 || y == 3;
    assert x == 0 || x == 1 || x == 2 || x == 3;
  }

  /** The block is a still life: every live cell has three live neighbours, and no dead
      cell has exactly three. */
  lemma BlockIsStill(g: Board)
    requires IsBlockField(g)
    ensures Next(g, 4, 4) == g
  {
    forall y, x | 0 <= y < 4 && 0 <= x < 4
      ensures Next(g, 4, 4)[y][x] == g[y][x]
    {
      BlockCell(g, x, y);
    }
    BoardsEqual(Next(g, 4, 4), g, 4, 4);
  }

  /** The 5 x 5 field holding a vertical blinker: three live cells in column 2, rows 1 to 3. */
  predicate IsVerticalBlinker(g: Board)
  {
    IsGrid(g, 5, 5) &&
    forall y, x | 0 <= y < 5 && 0 <= x < 5 :: g[y][x] == if x == 2 && 1 <= y <= 3 then Live else Dead
  }

  /** The 5 x 5 field holding a horizontal blinker: three live cells in row 2, columns 1 to 3. */
  predicate IsHorizontalBlinker(g: Board)
  {
    IsGrid(g, 5, 5) &&
    forall y, x | 0 <= y < 5 && 0 <= x < 5 :: g[y][x] == if y == 2 && 1 <= x <= 3 then Live else Dead
  }

  lemma VerticalCell(g: Board, x: nat, y: nat)
    requires IsVerticalBlinker(g) && x < 5 && y < 5
    ensures Next(g, 5, 5)[y][x] == if y == 2 && 1 <= x <= 3 then Live else Dead
  {
    assert y == 0 || y == 1 || y == 2 || y == 3 || y == 4;
    assert x == 0 || x == 1 || x == 2 || x == 3 || x == 4;
  }

  lemma HorizontalCell(g: Board, x: nat, y: nat)
    requires IsHorizontalBlinker(g) && x < 5 && y < 5
    ensures Next(g, 5, 5)[y][x] == if x == 2 && 1 <= y <= 3 then Live else Dead
  {
    assert y == 0 || y == 1 || y == 2 || y == 3 || y == 4;
    assert x == 0 || x == 1 || x == 2 || x == 3 || x == 4;
  }

  /** A vertical blinker turns horizontal in one generation. */
  lemma VerticalTurns(g: Board)
    requires IsVerticalBlinker(g)
    ensures IsHorizontalBlinker(Next(g, 5, 5))
  {
    forall y, x | 0 <= y < 5 && 0 <= x < 5
      ensures Next(g, 5, 5)[y][x] == if y == 2 && 1 <= x <= 3 then Live else Dead
    {
      VerticalCell(g, x, y);
    }
  }

  /** A horizontal blinker turns vertical in one generation. */
  lemma HorizontalTurns(g: Board)
    requires IsHorizontalBlinker(g)
    ensures IsVerticalBlinker(Next(g, 5, 5))
  {
    forall y, x | 0 <= y < 5 && 0 <= x < 5
      ensures Next(g, 5, 5)[y][x] == if x == 2 && 1 <= y <= 3 then Live else Dead
    {
      HorizontalCell(g, x, y);
    }
  }

  /** The blinker oscillates with period two: it changes in one generation and is back after
      two. */
  lemma BlinkerOscillates(g: Board)
    requires IsVerticalBlinker(g)
    ensures Next(g, 5, 5) != g
    ensures Next(Next(g, 5, 5), 5, 5) == g
  {
    VerticalTurns(g);
    var r := Next(g, 5, 5);
    HorizontalTurns(r);
    assert r[2][1] != g[2][1];
    BoardsEqual(Next(r, 5, 5), g, 5, 5);
  }

  /** Growing the viewport and shrinking it back restores the grid exactly. */
  lemma ResizeThereAndBack(g: Board, w: nat, h: nat, w1: nat, h1: nat)
    requires IsGrid(g, w, h) && w <= w1 && h <= h1
    ensures Resized(Resized(g, w, h, w1, h1), w1, h1, w, h) == g
  {
    var r := Resized(Resized(g, w, h, w1, h1), w1, h1, w, h);
    BoardsEqual(r, g, w, h);
  }
}
