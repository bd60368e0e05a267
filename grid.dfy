/** The cell field of the simulator and the Game of Life rule on it, as values.

    A grid is held as the source holds it: a sequence of rows, each a sequence of runes,
    indexed [row][column]. The rune 'c' marks a live cell; every other rune is dead, and a
    fresh grid is filled with ' '. The field is a torus: neighbour indices wrap modulo the
    height and the width. */
module Grid {

  type Board = seq<seq<char>>

  /** The rune that marks a live cell. */
  const Live: char := 'c'
  /** The rune a fresh grid is filled with, and the rune a dying cell becomes. */
  const Dead: char := ' '

  predicate IsAlive(c: char) { c == Live }

  /** g has exactly h rows of exactly w cells each. */
  predicate IsGrid(g: Board, w: nat, h: nat)
  {
    |g| == h && forall y | 0 <= y < h :: |g[y]| == w
  }

  /** No cell of g is alive. */
  predicate NoneAlive(g: Board)
  {
    forall y, x | 0 <= y < |g| && 0 <= x < |g[y]| :: !IsAlive(g[y][x])
  }

  /** The grid a fresh game or a fresh generation starts from: every cell the dead rune ' '. */
  function Blank(w: nat, h: nat): (g: Board)
    ensures IsGrid(g, w, h)
    ensures forall y, x | 0 <= y < h && 0 <= x < w :: g[y][x] == Dead
  {
    seq(h, _ => seq(w, _ => Dead))
  }

  /** g with cell [y][x] set to c. */
  function SetCell(g: Board, x: nat, y: nat, c: char): (r: Board)
    requires y < |g| && x < |g[y]|
    ensures |r| == |g| && forall yy | 0 <= yy < |g| :: |r[yy]| == |g[yy]|
    ensures forall yy, xx | 0 <= yy < |g| && 0 <= xx < |g[yy]| ::
              r[yy][xx] == if yy == y && xx == x then c else g[yy][xx]
  {
    g[y := g[y][x := c]]
  }

  /** Go's min on ints. */
  function Min(a: int, b: int): (m: int)
    ensures m <= a && m <= b
    ensures m == a || m == b
  {
    if a < b then a else b
  }

  /** The neighbour index of i at offset d on a ring of n: i + d, except that -1 wraps to
      n - 1 and n wraps to 0. */
  function Wrap(i: nat, d: int, n: nat): (r: nat)
    requires i < n && -1 <= d <= 1
    ensures r < n
  {
    if i + d < 0 then n - 1 else if i + d >= n then 0 else i + d
  }

  /** The source computes the wrapped index as (i + d + n) % n. Its dividend is never
      negative, so Go's truncating % and Dafny's Euclidean % agree, and both give Wrap. */
  lemma WrapIsMod(i: nat, d: int, n: nat)
    requires i < n && -1 <= d <= 1
    ensures Wrap(i, d, n) == (i + d + n) % n
  {
  }

  /** 1 when the cell at offset (dx, dy) from (x, y), wrapped on the torus, is alive; else 0. */
  function Neighbor(g: Board, w: nat, h: nat, x: nat, y: nat, dx: int, dy: int): nat
    requires IsGrid(g, w, h) && x < w && y < h
    requires -1 <= dx <= 1 && -1 <= dy <= 1
  {
    if IsAlive(g[Wrap(y, dy, h)][Wrap(x, dx, w)]) then 1 else 0
  }

  /** The number of live cells among the eight toroidal neighbours of (x, y). On a grid one
      cell wide or high a cell is its own neighbour, and is counted once per offset that
      wraps onto it. */
  function NeighborCount(g: Board, w: nat, h: nat, x: nat, y: nat): (n: nat)
    requires IsGrid(g, w, h) && x < w && y < h
    ensures n <= 8
  {
    Neighbor(g, w, h, x, y, -1, -1) + Neighbor(g, w, h, x, y, 0, -1) + Neighbor(g, w, h, x, y, 1, -1) +
    Neighbor(g, w, h, x, y, -1, 0)                                    + Neighbor(g, w, h, x, y, 1, 0) +
    Neighbor(g, w, h, x, y, -1, 1) + Neighbor(g, w, h, x, y, 0, 1)  + Neighbor(g, w, h, x, y, 1, 1)
  }

  /** B3/S23 in its usual compact form: a cell is alive next generation exactly when it has
      three live neighbours, or is alive now and has two. */
  predicate LivesOn(alive: bool, n: nat)
  {
    n == 3 || (alive && n == 2)
  }

  /** The next state of one cell, with the branches of the source: a live cell with 2 or 3
      neighbours is written 'c', a dead cell with exactly 3 is written 'c', and every other
      cell keeps the ' ' of the freshly created grid. */
  function NextCell(g: Board, w: nat, h: nat, x: nat, y: nat): (c: char)
    requires IsGrid(g, w, h) && x < w && y < h
    ensures c == if LivesOn(IsAlive(g[y][x]), NeighborCount(g, w, h, x, y)) then Live else Dead
  {
    var neighbors := NeighborCount(g, w, h, x, y);
    var alive := IsAlive(g[y][x]);
    if alive && (neighbors == 2 || neighbors == 3) then Live
    else if !alive && neighbors == 3 then Live
    else Dead
  }

  /** One generation: every cell of the same-shaped result follows B3/S23, and holds only
      the runes 'c' and ' '. */
  function Next(g: Board, w: nat, h: nat): (r: Board)
    requires IsGrid(g, w, h)
    ensures IsGrid(r, w, h)
    ensures forall y, x | 0 <= y < h && 0 <= x < w ::
              r[y][x] == (if LivesOn(IsAlive(g[y][x]), NeighborCount(g, w, h, x, y)) then Live else Dead)
  {
    var r := seq(h, y requires 0 <= y < h => NextRow(g, w, h, y));
    forall y, x | 0 <= y < h && 0 <= x < w
      ensures r[y][x] == NextCell(g, w, h, x, y)
    {
      assert r[y] == NextRow(g, w, h, y);
    }
    r
  }

  /** Row y of the next generation. */
  function NextRow(g: Board, w: nat, h: nat, y: nat): (row: seq<char>)
    requires IsGrid(g, w, h) && y < h
    ensures |row| == w
    ensures forall x | 0 <= x < w :: row[x] == NextCell(g, w, h, x, y)
  {
    seq(w, x requires 0 <= x < w => NextCell(g, w, h, x, y))
  }

  /** The grid after the viewport changes from w x h to nw x nh: the top-left region the two
      sizes share keeps its cells, and every other cell of the new grid is dead. */
  function Resized(g: Board, w: nat, h: nat, nw: nat, nh: nat): (r: Board)
    requires IsGrid(g, w, h)
    ensures IsGrid(r, nw, nh)
    ensures forall y, x | 0 <= y < nh && 0 <= x < nw ::
              r[y][x] == if y < h && x < w then g[y][x] else Dead
  {
    var r := seq(nh, y requires 0 <= y < nh =>
      seq(nw, x requires 0 <= x < nw => if y < Min(h, nh) && x < Min(w, nw) then g[y][x] else Dead));
    assert forall y, x | 0 <= y < nh && 0 <= x < nw ::
      r[y][x] == if y < Min(h, nh) && x < Min(w, nw) then g[y][x] else Dead;
    r
  }
}
