# Game of Life in the terminal: a verified model

The program runs Conway's Game of Life on a toroidal grid the size of the terminal. It
starts paused on an empty grid. While paused, a left click brings the clicked cell to life.
Enter toggles between paused and running. While running, every tick of a 100 ms ticker
advances one generation under the B3/S23 rule and redraws the grid. Escape quits. A resize
of the terminal carries the grid over to the new size. A status line, `Paused!` or
`Runnin'`, is drawn at the start of every pass of the event loop.

The model has six modules:

- `Grid` (grid.dfy) is the grid as a value, `seq<seq<char>>` indexed `[row][column]`. It
  defines the wrapped neighbour count, the next generation `Next`, and the resized grid
  `Resized`. These functions are the specification the imperative code is proved against.
- `Engine` (engine.dfy) holds `createGrid`, `countNeighbors`, `updateGrid` and the resize
  copy. Each is a method over `array2<char>` with its loops and their invariants. Each is
  proved against `Grid` through the ghost function `Cells`, which reads an array as a board.
- `Generations` (generations.dfy) proves what one generation does to particular fields:
  - an empty field stays empty;
  - a lone cell dies;
  - on a one-wide ring a lone cell does not die;
  - the block is still;
  - the blinker has period two;
  - the edges of the torus see each other.
- `Render` (render.dfy) holds `drawText` and `drawGrid`. The terminal is reduced to a map
  from (column, row) to the rune last written there.
- `Control` (control.dfy) is the event loop of `main`. The pure functions `Handle` (one
  event), `Iteration` (one pass: status line, then event) and `Run` (a finite sequence of
  passes) specify it. The class `Game` holds the loop's variables and is proved against
  those functions.
- `Behaviour` (behaviour.dfy) proves what the loop promises about each kind of event.

An event is a key (Escape, Enter or another), a resize carrying the terminal size read
after it, a mouse event, another terminal event, a tick, or nothing (the `select`'s default
branch). The program has one way to fail: a tick while running on a grid with no rows.
There `updateGrid` reads `grid[0]`, and Go panics with an index out of range. The model
keeps this case as the ending `Panicked` instead of excluding it with a precondition. Every
other zero-sized case runs normally in the source, and runs normally in the model:
- a terminal of height 0 or width 0 at start-up or after a resize;
- a click on such a grid;
- a resize from such a grid.

In the code, a lone live cell does not always die. On a ring one cell wide and at least two
high, a cell is its own left and right neighbour, so it counts itself; the transposed case,
one cell high, is the same. On a 1 x 1 grid it counts itself eight times and dies. The model
follows the code:
- `Generations.LoneCellDies` proves that a lone cell dies, and nothing is born, on every grid
  of at least 2 x 2;
- `Generations.LoneCellOnOneWideRing` proves that a lone cell survives on a ring one cell
  wide and at least three high, and that the cell below it is born.

Quirks of the source are kept as written:
- the status line is drawn with its last row set to the terminal width;
- a click shows `o`, while `drawGrid` shows a live cell as `0`;
- the click test compares the whole button mask with Button1.

## Model

| member | source | states |
|---|---|---|
| Grid.Min | src/main.go:173-178 | the result is at most both arguments and equals one of them |
| Grid.Wrap | src/main.go:162-163 | a wrapped neighbour index stays inside the ring |
| Grid.WrapIsMod | src/main.go:162-163 | the source's `(i + d + n) % n` equals the wrapped index for every offset -1, 0, 1 |
| Grid.NeighborCount | src/main.go:151-171 | the live-neighbour count on the torus is at most 8 |
| Grid.NextCell | src/main.go:138-145 | the source's two branches give `c` exactly when B3/S23 says the cell lives, and `' '` otherwise |
| Grid.NextRow | src/main.go:137-146 | row y of the next generation has width cells, each the next state of its cell |
| Grid.Next | src/main.go:131-149 | one generation has the input's shape, and each cell is `c` iff it has 3 live neighbours or is alive with 2, and `' '` otherwise |
| Grid.Resized | src/main.go:61-68 | the resized grid has the new shape, keeps every cell of the shared top-left region, and is `' '` elsewhere |
| Grid.SetCell | src/main.go:76 | writing one cell changes that cell and no other, and keeps the shape |
| Grid.Blank | src/main.go:92-101 | the fresh grid has height rows of width cells, all `' '` |
| Engine.Cells | src/main.go:92-101 | the board read from a grid array has the array's shape and its cells |
| Engine.CreateGrid | src/main.go:92-101 | createGrid returns a fresh array of height rows and width columns holding the blank grid |
| Engine.CountNeighbors | src/main.go:151-171 | the double loop over the offsets returns exactly the torus neighbour count of the cell, and every index it reads lies inside the grid |
| Engine.UpdateGrid | src/main.go:131-149 | updateGrid returns a fresh array of the same shape holding the next generation of its input, and leaves the input alone |
| Engine.ResizeGrid | src/main.go:61-68 | the resize copy returns a fresh array of the new shape holding the resized grid, and leaves the old grid alone |
| Generations.NoneAliveStaysBlank | src/main.go:131-149 | a grid with no live cell becomes the all-`' '` grid |
| Generations.TopSeesBottom | src/main.go:162 | a cell of row 0 counts a live cell in row height - 1 of its column |
| Generations.LeftSeesRight | src/main.go:163 | a cell of column 0 counts a live cell in column width - 1 of its row |
| Generations.LoneCellCount | src/main.go:151-171 | beside a lone live cell on a grid of at least 2 x 2, no cell counts 3 and the lone cell counts 0 |
| Generations.LoneCellDies | src/main.go:138-145 | on a grid of at least 2 x 2 a lone live cell dies and nothing is born |
| Generations.OneWideSelfCount | src/main.go:156-168 | on a one-wide ring a lone live cell counts itself twice |
| Generations.OneWideBelowCount | src/main.go:156-168 | on a one-wide ring the cell below a lone live cell counts it three times |
| Generations.LoneCellOnOneWideRing | src/main.go:138-145 | on a one-wide ring a lone live cell survives and the cell below it is born |
| Generations.BlockIsStill | src/main.go:131-149 | the 2 x 2 block on a 4 x 4 torus is unchanged by a generation |
| Generations.VerticalTurns | src/main.go:131-149 | a vertical blinker on a 5 x 5 torus becomes horizontal in one generation |
| Generations.HorizontalTurns | src/main.go:131-149 | a horizontal blinker on a 5 x 5 torus becomes vertical in one generation |
| Generations.BlinkerOscillates | src/main.go:131-149 | the blinker changes in one generation and is back after two |
| Generations.ResizeThereAndBack | src/main.go:61-68 | growing the grid and shrinking it back gives the original grid |
| Render.Screen.SetContent | src/main.go:107 | a write makes its position show the rune and changes no other position |
| Render.TextWrites | src/main.go:103-117 | drawText makes at most one write per rune, and when the text is not empty its first write is rune 0 at the start position |
| Render.TextWritesRunes | src/main.go:103-117 | drawText writes a prefix of the text, rune by rune in order, at most one write per rune, and the first rune lands at (x1, y1) |
| Render.TextWritesInBox | src/main.go:103-117 | after the first write, drawText never writes above the start row or below row y2, and each new row starts at column x1 |
| Render.NextPos | src/main.go:108-112 | after a write the cursor stays on its row one column right, or moves to column x1 of the next row exactly when the column reaches x2 |
| Render.TextWritesStep | src/main.go:106-116 | each write after the first lands where the cursor went after the write before it |
| Render.TextWritesStop | src/main.go:113-115 | drawText stops before the end of the text only when the cursor has moved to a row past y2 |
| Render.TextOnOneRow | src/main.go:103-117 | text that fits before column x2 lands on one row, rune k at column x1 + k |
| Render.LineShows | src/main.go:103-117 | once text that fits on its row is drawn, its column x1 + k shows rune k |
| Render.ApplyShows | src/main.go:107 | a write that no later write overwrites is what its position shows |
| Render.DrawText | src/main.go:103-117 | the loop with its break makes exactly the writes of the text-placement function, in order |
| Render.Glyph | src/main.go:122-126 | a cell is drawn `0` exactly when it is alive, and `' '` otherwise |
| Render.GridView | src/main.go:119-129 | drawGrid covers exactly the grid's rectangle, with the glyph of cell [y][x] at (x, y) |
| Render.DrawGrid | src/main.go:119-129 | after drawGrid the screen is the old screen overlaid with the grid's view; nothing outside the rectangle changes |
| Render.OverlayDepicts | src/main.go:119-129 | whatever the screen held, after drawGrid the grid's region shows `0` exactly at the live cells |
| Render.ReadBack | src/main.go:122-126 | reading a drawn region back gives a board of the region's shape, alive where `0` is shown |
| Render.NextIsClean | src/main.go:134-145 | every cell of a generation is `c` or `' '` |
| Render.ViewRoundTrip | src/main.go:119-129 | a region that depicts a clean grid reads back to exactly that grid, so drawGrid loses nothing |
| Control.StatusText | src/main.go:41-45 | the status is the seven runes `Paused!` exactly when the game is paused |
| Control.Initial | src/main.go:26-29 | the program starts paused, on an empty grid of the terminal's size |
| Control.StatusWrites | src/main.go:41-45 | the status line writes between one and seven runes, the runes of the status in order, the first at (2, 1) |
| Control.WithStatus | src/main.go:41-45 | drawing the status line changes only the screen |
| Control.Handle | src/main.go:49-88 | every event that lets the loop go on keeps the grid at the size of the terminal |
| Control.Iteration | src/main.go:40-89 | a pass that goes on keeps the grid at the size of the terminal |
| Control.Run | src/main.go:40-89 | a sequence of passes that goes on keeps the grid at the size of the terminal |
| Control.Game.constructor | src/main.go:26-29 | start-up builds the initial state around a fresh grid |
| Control.Game.HandleEvent | src/main.go:49-88 | handling one event, with the array updated in place or replaced, ends as the event function says and leaves the variables and the screen in the state it gives |
| Control.Game.Iterate | src/main.go:40-89 | one pass draws the status line, then handles the event, as the pass function says |
| Control.Game.Play | src/main.go:40-89 | the loop over a sequence of events stops at the first pass that does not go on, and ends in the state the run function gives |
| Behaviour.OnlyEscapeExits | src/main.go:53-55 | the program returns exactly on the Escape key |
| Behaviour.PanicsOnlyOnEmptyRunningTick | src/main.go:81-85 | the loop panics exactly on a tick while running on a grid with no rows |
| Behaviour.EnterTwiceRestores | src/main.go:56-58 | Enter flips pause and nothing else, and two Enters restore the state |
| Behaviour.ClickBringsToLife | src/main.go:69-79 | a Button1 click inside the grid while paused makes exactly cell [y][x] alive, leaves every other cell, and shows `o` at (x, y) with no other screen change |
| Behaviour.ClickIsIdempotent | src/main.go:69-79 | a click never kills a cell, and repeating it changes nothing more |
| Behaviour.ClickIgnored | src/main.go:70-75 | a click while running, with another button mask, or outside the grid changes nothing |
| Behaviour.PausedTickFreezes | src/main.go:81-85 | a tick while paused changes nothing |
| Behaviour.TickShowsGeneration | src/main.go:81-85 | a tick while running replaces the grid by its next generation, and the screen then depicts and reads back to that grid |
| Behaviour.TickPass | src/main.go:81-85 | a pass with a tick while running advances one generation and keeps mode and size |
| Behaviour.TickOnEmptyField | src/main.go:81-85 | a tick while running on an empty grid leaves it empty |
| Behaviour.PausedGameKeepsGrid | src/main.go:40-89 | any number of ticks while paused keep the mode, the grid and its size |
| Behaviour.ResizeThereAndBackKeepsGrid | src/main.go:59-68 | growing the terminal and shrinking it back restores the grid |
| Behaviour.ResizeKeepsTopLeft | src/main.go:59-68 | after a resize the grid has the new size, keeps the cells that still fit, and is dead elsewhere |
| Behaviour.StatusLine | src/main.go:41-45 | on a terminal at least nine wide the status runes appear in order in columns 2 to 8 of row 1 |
| Behaviour.NarrowStatus | src/main.go:103-117 | on a terminal at most one wide only the first status rune is written, because the last row is the width |
| Behaviour.StatusWrapsOnFiveColumns | src/main.go:41-45 | on a terminal five wide the status wraps back to column 2 after three runes and all seven are written, on rows 1 to 3 |
| Behaviour.TwoTicks | src/main.go:81-85 | two ticks while running advance the grid two generations |
| Behaviour.RunningBlinkerReturns | src/main.go:81-85 | a running blinker on a 5 x 5 terminal is back after two ticks |

## Left out

- Creating, initialising and closing the terminal (`NewScreen`, `Init`, `Fini`), `EnableMouse`, `SetStyle`, and the colours of the style. These are calls into the terminal library and carry no logic of the program.
- `Show` and `Sync`. They flush or repaint what is already staged, and the staged content is what the model keeps.
- `log.Fatalf` on a failure to create or initialise the terminal. It is process I/O.
- The goroutine that feeds the event channel, the ticker, the choice `select` makes between ready cases, and the 10 ms sleep of its default branch. The model takes the events one pass at a time, as a sequence; the default branch is the event `NoEvent`.
- The terminal's own bounds: it ignores a write outside its area, and it keeps what fits when it is resized. The model's screen records every write and is not clipped.
- Keys other than Escape and Enter are one event; terminal events other than keys, resizes and mouse events are one event; the event time stamps and modifiers are not modelled.
- Mouse positions are naturals. The terminal library does not report negative positions.
- Render.DrawText: the conversion of a Go string to runes is not modelled; the text is a sequence of runes already.
- Engine.CountNeighbors: requires the cell to lie inside the grid. The source's modulo would also wrap a larger x or y, but its only caller passes cells inside the grid.
- Engine.UpdateGrid: requires a grid with at least one row, where the source would panic reading the first row. The loop in `Control` turns that case into the ending `Panicked` before calling it.
- Generations.BlockIsStill, Generations.BlinkerOscillates: proved on a 4 x 4 and a 5 x 5 torus only, not on every size.
- Control.Game.Play: the loop runs over a finite sequence of events, where the program's loop runs until Escape.
