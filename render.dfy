/** What the simulator writes on the terminal: drawText, drawGrid and the single-cell write of
    a click. The terminal is reduced to the runes written at each (column, row) position; the
    last write to a position is what it shows. */
module Render {
  import opened Grid
  import opened Engine

  /** A terminal position, (column, row), in the order SetContent takes them. */
  type Pos = (int, int)

  /** One SetContent call: where, and which rune. */
  type Write = (Pos, char)

  /** The terminal the program draws on. */
  class Screen {
    /** The rune last written at each position. */
    var cells: map<Pos, char>

    /** A terminal nothing has been written to yet. */
    constructor ()
      ensures cells == map[]
    {
      cells := map[];
    }

    /** SetContent: position (x, y) now shows r, and nothing else changes. */
    method SetContent(x: int, y: int, r: char)
      modifies this
      ensures cells == old(cells)[(x, y) := r]
    {
      cells := cells[(x, y) := r];
    }
  }

  /** The screen after the writes ws, performed in order on the screen m. */
  function Apply(m: map<Pos, char>, ws: seq<Write>): map<Pos, char>
  {
    if |ws| == 0 then m else Apply(m, ws[..|ws| - 1])[ws[|ws| - 1].0 := ws[|ws| - 1].1]
  }

  /** One more write on top of ws. */
  lemma ApplySnoc(m: map<Pos, char>, ws: seq<Write>, w: Write)
    ensures Apply(m, ws + [w]) == Apply(m, ws)[w.0 := w.1]
  {
  }

  /** The writes drawText makes for text, starting at column col of row row, with the
      margins x1 (the column a wrapped line restarts at), x2 (the column that forces a wrap)
      and y2 (the last row it may go on to). Each rune is written, then the column advances,
      wrapping to x1 on the next row when it reaches x2; the loop stops once the row passes
      y2. */
  function TextWrites(col: int, row: int, x1: int, x2: int, y2: int, text: seq<char>): (ws: seq<Write>)
    ensures |ws| <= |text|
    ensures |text| > 0 ==> |ws| > 0 && ws[0] == ((col, row), text[0])
    decreases |text|
  {
    if |text| == 0 then []
    else
      var wraps := col + 1 >= x2;
      var nextCol := if wraps then x1 else col + 1;
      var nextRow := if wraps then row + 1 else row;
      [((col, row), text[0])] + (if nextRow > y2 then [] else TextWrites(nextCol, nextRow, x1, x2, y2, text[1..]))
  }

  /** drawText writes the runes of text in order, one SetContent each, and stops early only
      when its row passes y2: what it writes is a prefix of text, it writes something when
      text is not empty, and the first rune lands at (col, row). */
  lemma {:induction false} TextWritesRunes(col: int, row: int, x1: int, x2: int, y2: int, text: seq<char>)
    ensures |TextWrites(col, row, x1, x2, y2, text)| <= |text|
    ensures |text| > 0 ==> |TextWrites(col, row, x1, x2, y2, text)| > 0 &&
                           TextWrites(col, row, x1, x2, y2, text)[0] == ((col, row), text[0])
    ensures forall k | 0 <= k < |TextWrites(col, row, x1, x2, y2, text)| ::
              TextWrites(col, row, x1, x2, y2, text)[k].1 == text[k]
    decreases |text|
  {
    if |text| > 0 {
      var wraps := col + 1 >= x2;
      var nextCol := if wraps then x1 else col + 1;
      var nextRow := if wraps then row + 1 else row;
      if nextRow <= y2 {
        TextWritesRunes(nextCol, nextRow, x1, x2, y2, text[1..]);
      }
    }
  }

  /** After the first rune, drawText never writes above the starting row or below row y2,
      and every wrapped line starts at column x1. */
  lemma {:induction false} TextWritesInBox(col: int, row: int, x1: int, x2: int, y2: int, text: seq<char>)
    ensures forall k | 1 <= k < |TextWrites(col, row, x1, x2, y2, text)| ::
              row <= TextWrites(col, row, x1, x2, y2, text)[k].0.1 <= y2
    ensures forall k | 1 <= k < |TextWrites(col, row, x1, x2, y2, text)| ::
              TextWrites(col, row, x1, x2, y2, text)[k].0.1 > TextWrites(col, row, x1, x2, y2, text)[k - 1].0.1 ==>
                TextWrites(col, row, x1, x2, y2, text)[k].0.0 == x1
    decreases |text|
  {
    if |text| > 0 {
      var wraps := col + 1 >= x2;
      var nextCol := if wraps then x1 else col + 1;
      var nextRow := if wraps then row + 1 else row;
      if nextRow <= y2 {
        var rest := TextWrites(nextCol, nextRow, x1, x2, y2, text[1..]);
        TextWritesInBox(nextCol, nextRow, x1, x2, y2, text[1..]);
        TextWritesRunes(nextCol, nextRow, x1, x2, y2, text[1..]);
        if |text| > 1 {
          assert rest[0].0 == (nextCol, nextRow);
        }
      }
    }
  }

  /** Where drawText's cursor goes after writing at p: one column right, or column x1 of the
      next row once the column reaches x2. */
  function NextPos(p: Pos, x1: int, x2: int): (q: Pos)
    ensures q.1 == p.1 || q.1 == p.1 + 1
    ensures q.1 == p.1 + 1 <==> p.0 + 1 >= x2
    ensures q.1 == p.1 + 1 ==> q.0 == x1
    ensures q.1 == p.1 ==> q.0 == p.0 + 1
  {
    if p.0 + 1 >= x2 then (x1, p.1 + 1) else (p.0 + 1, p.1)
  }

  /** Each write of drawText after the first lands where the cursor went after the write
      before it. */
  lemma {:induction false} TextWritesStep(col: int, row: int, x1: int, x2: int, y2: int, text: seq<char>, k: nat)
    requires 1 <= k < |TextWrites(col, row, x1, x2, y2, text)|
    ensures var ws := TextWrites(col, row, x1, x2, y2, text);
            ws[k].0 == NextPos(ws[k - 1].0, x1, x2)
    decreases |text|
  {
    var ws := TextWrites(col, row, x1, x2, y2, text);
    var wraps := col + 1 >= x2;
    var nextCol := if wraps then x1 else col + 1;
    var nextRow := if wraps then row + 1 else row;
    var rest := TextWrites(nextCol, nextRow, x1, x2, y2, text[1..]);
    assert nextRow <= y2 && ws == [((col, row), text[0])] + rest;
    TextWritesRunes(nextCol, nextRow, x1, x2, y2, text[1..]);
    if k == 1 {
      assert ws[1] == rest[0];
    } else {
      TextWritesStep(nextCol, nextRow, x1, x2, y2, text[1..], k - 1);
      assert ws[k] == rest[k - 1] && ws[k - 1] == rest[k - 2];
    }
  }

  /** drawText stops before the end of text only when the cursor has left row y2: after its
      last write the cursor is on a row past y2. */
  lemma {:induction false} TextWritesStop(col: int, row: int, x1: int, x2: int, y2: int, text: seq<char>)
    requires |TextWrites(col, row, x1, x2, y2, text)| < |text|
    ensures var ws := TextWrites(col, row, x1, x2, y2, text);
            |ws| > 0 && NextPos(ws[|ws| - 1].0, x1, x2).1 > y2
    decreases |text|
  {
    var ws := TextWrites(col, row, x1, x2, y2, text);
    var wraps := col + 1 >= x2;
    var nextCol := if wraps then x1 else col + 1;
    var nextRow := if wraps then row + 1 else row;
    if nextRow > y2 {
      assert ws == [((col, row), text[0])];
    } else {
      var rest := TextWrites(nextCol, nextRow, x1, x2, y2, text[1..]);
      assert ws == [((col, row), text[0])] + rest;
      TextWritesStop(nextCol, nextRow, x1, x2, y2, text[1..]);
      assert ws[|ws| - 1] == rest[|rest| - 1];
    }
  }

  /** Text that fits before column x2, on a row not past y2, goes on that one row: rune k
      lands at column col + k. */
  lemma {:induction false} TextOnOneRow(col: int, row: int, x1: int, x2: int, y2: int, text: seq<char>)
    requires row <= y2 && col + |text| <= x2
    ensures TextWrites(col, row, x1, x2, y2, text) == seq(|text|, k requires 0 <= k < |text| => ((col + k, row), text[k]))
    decreases |text|
  {
    var ws := TextWrites(col, row, x1, x2, y2, text);
    var line := seq(|text|, k requires 0 <= k < |text| => ((col + k, row), text[k]));
    if |text| > 0 {
      TextOnOneRow(col + 1, row, x1, x2, y2, text[1..]);
      var rest := TextWrites(col + 1, row, x1, x2, y2, text[1..]);
      if |text| == 1 {
        assert ws == [((col, row), text[0])];
      } else {
        assert ws == [((col, row), text[0])] + rest;
      }
      assert |ws| == |line|;
      forall k | 0 <= k < |text|
        ensures ws[k] == line[k]
      {
        if k > 0 {
          assert ws[k] == rest[k - 1];
        }
      }
    }
  }

  /** Text that fits on its row shows rune k at column col + k once drawn. */
  lemma LineShows(m: map<Pos, char>, col: int, row: int, x1: int, x2: int, y2: int, text: seq<char>, k: nat)
    requires row <= y2 && col + |text| <= x2 && k < |text|
    ensures (col + k, row) in Apply(m, TextWrites(col, row, x1, x2, y2, text))
    ensures Apply(m, TextWrites(col, row, x1, x2, y2, text))[(col + k, row)] == text[k]
  {
    var ws := TextWrites(col, row, x1, x2, y2, text);
    TextOnOneRow(col, row, x1, x2, y2, text);
    assert ws[k] == ((col + k, row), text[k]);
    ApplyShows(m, ws, k);
  }

  /** A write that no later write overwrites is what its position shows. */
  lemma {:induction false} ApplyShows(m: map<Pos, char>, ws: seq<Write>, k: nat)
    requires k < |ws|
    requires forall j | k < j < |ws| :: ws[j].0 != ws[k].0
    ensures ws[k].0 in Apply(m, ws) && Apply(m, ws)[ws[k].0] == ws[k].1
    decreases |ws|
  {
    if k < |ws| - 1 {
      var front := ws[..|ws| - 1];
      assert forall j | k < j < |front| :: front[j] == ws[j];
      ApplyShows(m, front, k);
    }
  }

  /** The first i + 1 writes: the first i, then write i. */
  lemma ApplyPrefix(m: map<Pos, char>, ws: seq<Write>, i: nat)
    requires i < |ws|
    ensures Apply(m, ws[..i + 1]) == Apply(m, ws[..i])[ws[i].0 := ws[i].1]
  {
    assert ws[..i + 1][..i] == ws[..i];
  }

  /** One pass of drawText's loop, seen against the whole list of writes all: when the
      writes still to come from rune i on, at (col, row), are all[i..], then write i is rune i
      at (col, row), and the writes after it are those from (nextCol, nextRow), or none once
      that row is past y2. */
  lemma TextStep(all: seq<Write>, col: int, row: int, x1: int, x2: int, y2: int, text: seq<char>, i: nat,
                 nextCol: int, nextRow: int)
    requires i < |text| && i <= |all|
    requires all[i..] == TextWrites(col, row, x1, x2, y2, text[i..])
    requires nextCol == (if col + 1 >= x2 then x1 else col + 1)
    requires nextRow == (if col + 1 >= x2 then row + 1 else row)
    ensures i < |all| && all[i] == ((col, row), text[i])
    ensures nextRow > y2 ==> |all| == i + 1
    ensures nextRow <= y2 ==> all[i + 1..] == TextWrites(nextCol, nextRow, x1, x2, y2, text[i + 1..])
  {
    assert text[i..][1..] == text[i + 1..];
    assert all[i + 1..] == all[i..][1..];
  }

  /** drawText: the loop makes exactly the writes TextWrites describes, in order. */
  method DrawText(s: Screen, x1: int, y1: int, x2: int, y2: int, text: seq<char>)
    modifies s
    ensures s.cells == Apply(old(s.cells), TextWrites(x1, y1, x1, x2, y2, text))
  {
    ghost var all := TextWrites(x1, y1, x1, x2, y2, text);
    var row := y1;
    var col := x1;
    var i := 0;
    assert text[0..] == text;
    while i < |text|
      invariant 0 <= i <= |text| && i <= |all|
      invariant all[i..] == TextWrites(col, row, x1, x2, y2, text[i..])
      invariant s.cells == Apply(old(s.cells), all[..i])
    {
      ghost var c0, r0 := col, row;
      s.SetContent(col, row, text[i]);
      col := col + 1;
      if col >= x2 {
        row := row + 1;
        col := x1;
      }
      TextStep(all, c0, r0, x1, x2, y2, text, i, col, row);
      ApplyPrefix(old(s.cells), all, i);
      i := i + 1;
      if row > y2 {
        assert all[..i] == all;
        break;
      }
    }
    assert all[..i] == all;
  }

  /** The rune drawGrid shows for a cell: '0' for a live cell, ' ' for any other. */
  function Glyph(c: char): (r: char)
    ensures r == '0' <==> IsAlive(c)
    ensures r == '0' || r == ' '
  {
    if c == Live then '0' else ' '
  }

  /** What drawGrid writes for the w x h board g: the glyph of cell [y][x] at (x, y). */
  function GridView(g: Board, w: nat, h: nat): (v: map<Pos, char>)
    requires IsGrid(g, w, h)
    ensures forall p :: p in v <==> 0 <= p.0 < w && 0 <= p.1 < h
    ensures forall x: int, y: int | 0 <= x < w && 0 <= y < h :: v[(x, y)] == Glyph(g[y][x])
  {
    map x: int, y: int | 0 <= x < w && 0 <= y < h :: (x, y) := Glyph(g[y][x])
  }

  /** The board a w x h screen region depicts, read back the way a viewer reads it: '0' is a
      live cell, anything else a dead one. */
  function ReadBack(v: map<Pos, char>, w: nat, h: nat): (g: Board)
    requires forall x: int, y: int | 0 <= x < w && 0 <= y < h :: (x, y) in v
    ensures IsGrid(g, w, h)
    ensures forall y, x | 0 <= y < h && 0 <= x < w :: g[y][x] == if v[(x, y)] == '0' then Live else Dead
  {
    var g := seq(h, y requires 0 <= y < h => seq(w, x requires 0 <= x < w => if v[(x, y)] == '0' then Live else Dead));
    assert forall y, x | 0 <= y < h && 0 <= x < w :: g[y][x] == if v[(x, y)] == '0' then Live else Dead;
    g
  }

  /** Every cell of g is 'c' or ' ', as in every grid the program builds. */
  predicate Clean(g: Board)
  {
    forall y, x | 0 <= y < |g| && 0 <= x < |g[y]| :: g[y][x] == Live || g[y][x] == Dead
  }

  /** A generation holds only 'c' and ' '. */
  lemma NextIsClean(g: Board, w: nat, h: nat)
    requires IsGrid(g, w, h)
    ensures Clean(Next(g, w, h))
  {
  }

  /** The screen m0 with the positions drawGrid's loops have visited, the rows before y
      and the columns of row y before x, showing their cell's glyph. */
  ghost predicate DrawnUpTo(m: map<Pos, char>, m0: map<Pos, char>, grid: array2<char>, y: int, x: int)
    reads grid
  {
    forall p :: (p in m <==> p in m0 || (0 <= p.0 < grid.Length1 && 0 <= p.1 < grid.Length0 && (p.1 < y || (p.1 == y && p.0 < x)))) &&
                (p in m ==> m[p] == if 0 <= p.0 < grid.Length1 && 0 <= p.1 < grid.Length0 && (p.1 < y || (p.1 == y && p.0 < x))
                                    then Glyph(grid[p.1, p.0]) else m0[p])
  }

  /** Once every row is visited, position p shows what m0 overlaid with the grid's view
      shows there. */
  lemma DrawnAt(m: map<Pos, char>, m0: map<Pos, char>, grid: array2<char>, p: Pos)
    requires DrawnUpTo(m, m0, grid, grid.Length0, 0)
    ensures var r := m0 + GridView(Cells(grid), grid.Length1, grid.Length0);
            (p in m <==> p in r) && (p in m ==> m[p] == r[p])
  {
    var v := GridView(Cells(grid), grid.Length1, grid.Length0);
    assert p == (p.0, p.1);
    if 0 <= p.0 < grid.Length1 && 0 <= p.1 < grid.Length0 {
      assert p in v && v[p] == Glyph(grid[p.1, p.0]);
    } else {
      assert p !in v;
    }
  }

  /** Once every row is visited, the screen is m0 overlaid with the grid's view. */
  lemma DrawnAll(m: map<Pos, char>, m0: map<Pos, char>, grid: array2<char>)
    requires DrawnUpTo(m, m0, grid, grid.Length0, 0)
    ensures m == m0 + GridView(Cells(grid), grid.Length1, grid.Length0)
  {
    var r := m0 + GridView(Cells(grid), grid.Length1, grid.Length0);
    forall p
      ensures (p in m <==> p in r) && (p in m ==> m[p] == r[p])
    {
      DrawnAt(m, m0, grid, p);
    }
    MapsEqual(m, r);
  }

  /** Two maps with the same positions, showing the same runes, are equal. */
  lemma MapsEqual(m: map<Pos, char>, r: map<Pos, char>)
    requires forall p :: (p in m <==> p in r) && (p in m ==> m[p] == r[p])
    ensures m == r
  {
  }

  /** The w x h region of the screen m shows the board g: every position of it holds a
      rune, and the rune is '0' exactly where the cell is alive. */
  predicate Depicts(m: map<Pos, char>, g: Board, w: nat, h: nat)
    requires IsGrid(g, w, h)
  {
    forall x: int, y: int | 0 <= x < w && 0 <= y < h :: (x, y) in m && (m[(x, y)] == '0' <==> IsAlive(g[y][x]))
  }

  /** Whatever the screen showed before, drawGrid leaves the grid's region depicting it. */
  lemma OverlayDepicts(m: map<Pos, char>, g: Board, w: nat, h: nat)
    requires IsGrid(g, w, h)
    ensures Depicts(m + GridView(g, w, h), g, w, h)
  {
  }

  /** drawGrid loses nothing: a screen region depicting a clean board determines it, read
      back rune by rune. */
  lemma ViewRoundTrip(m: map<Pos, char>, g: Board, w: nat, h: nat)
    requires IsGrid(g, w, h) && Clean(g) && Depicts(m, g, w, h)
    ensures ReadBack(m, w, h) == g
  {
    var r := ReadBack(m, w, h);
    forall y | 0 <= y < h
      ensures r[y] == g[y]
    {
      assert forall x | 0 <= x < w :: r[y][x] == g[y][x];
    }
  }

  /** drawGrid: every position (x, y) of the grid's region now shows the glyph of cell
      [y][x], and every other position is unchanged. */
  method DrawGrid(s: Screen, grid: array2<char>)
    modifies s
    ensures s.cells == old(s.cells) + GridView(Cells(grid), grid.Length1, grid.Length0)
  {
    var height := grid.Length0;
    var width := grid.Length1;
    for y := 0 to height
      invariant DrawnUpTo(s.cells, old(s.cells), grid, y, 0)
    {
      for x := 0 to width
        invariant DrawnUpTo(s.cells, old(s.cells), grid, y, x)
      {
        if grid[y, x] == Live {
          s.SetContent(x, y, '0');
        } else {
          s.SetContent(x, y, ' ');
        }
      }
    }
    DrawnAll(s.cells, old(s.cells), grid);
  }
}
