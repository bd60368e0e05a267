/** What the control loop promises, stated over its value-level model: which events end
    the program, what a click, a tick, Enter and a resize do, what the status line shows,
    and what a paused game keeps. */
module Behaviour {
  import opened Grid
  import opened Render
  import opened Generations
  import opened Control

  /** Only the Escape key ends the program normally. */
  lemma OnlyEscapeExits(s: State, ev: Event)
    requires Valid(s)
    ensures Handle(s, ev).ending == Exited <==> ev == KeyEvent(KeyEscape)
  {
  }

  /** The one way the loop fails: a tick while running on a grid with no rows. */
  lemma PanicsOnlyOnEmptyRunningTick(s: State, ev: Event)
    requires Valid(s)
    ensures Handle(s, ev).ending == Panicked <==> ev == TickEvent && !s.paused && s.height == 0
  {
  }

  /** Enter toggles pause and nothing else: pressing it twice restores the state. */
  lemma EnterTwiceRestores(s: State)
    requires Valid(s)
    ensures Handle(s, KeyEvent(KeyEnter)).ending == Running
    ensures Handle(s, KeyEvent(KeyEnter)).state == s.(paused := !s.paused)
    ensures Handle(Handle(s, KeyEvent(KeyEnter)).state, KeyEvent(KeyEnter)) == Outcome(Running, s)
  {
  }

  /** A left click on the grid while paused brings exactly that cell to life, and puts an
      'o' on the terminal at the click; every other cell and position is left as it was. */
  lemma ClickBringsToLife(s: State, x: nat, y: nat)
    requires Valid(s) && s.paused && x < s.width && y < s.height
    ensures var o := Handle(s, MouseEvent(x, y, Button1));
            o.ending == Running && IsAlive(o.state.grid[y][x]) &&
            (forall yy, xx | 0 <= yy < s.height && 0 <= xx < s.width && (yy, xx) != (y, x) ::
               o.state.grid[yy][xx] == s.grid[yy][xx]) &&
            o.state.screen == s.screen[(x, y) := 'o'] &&
            o.state.paused && o.state.width == s.width && o.state.height == s.height
  {
  }

  /** A click never kills a cell, and clicking the same cell again changes nothing more. */
  lemma ClickIsIdempotent(s: State, ev: Event)
    requires Valid(s) && ev.MouseEvent?
    ensures var t := Handle(s, ev).state;
            Valid(t) &&
            (forall y, x | 0 <= y < s.height && 0 <= x < s.width :: IsAlive(s.grid[y][x]) ==> IsAlive(t.grid[y][x])) &&
            Handle(t, ev) == Handle(s, ev)
  {
    var t := Handle(s, ev).state;
    if s.paused && ev.buttons == Button1 && ev.y < s.height && ev.x < s.width {
      var g := SetCell(t.grid, ev.x, ev.y, Live);
      BoardsEqual(g, t.grid, s.width, s.height);
      assert t.screen[(ev.x, ev.y) := 'o'] == t.screen;
    }
  }

  /** A click changes nothing while the game runs, with any button but the left one alone,
      or outside the grid. */
  lemma ClickIgnored(s: State, x: nat, y: nat, b: ButtonMask)
    requires Valid(s)
    requires !s.paused || b != Button1 || y >= s.height || x >= s.width
    ensures Handle(s, MouseEvent(x, y, b)) == Outcome(Running, s)
  {
  }

  /** A paused game ignores ticks. */
  lemma PausedTickFreezes(s: State)
    requires Valid(s) && s.paused
    ensures Handle(s, TickEvent) == Outcome(Running, s)
  {
  }

  /** A tick while running replaces the grid with its next generation and redraws it: the
      grid's region of the terminal then depicts the new grid, and reading it back gives
      that grid exactly. */
  lemma TickShowsGeneration(s: State)
    requires Valid(s) && !s.paused && s.height >= 1
    ensures var o := Handle(s, TickEvent);
            o.ending == Running && o.state.grid == Next(s.grid, s.width, s.height) &&
            Depicts(o.state.screen, o.state.grid, s.width, s.height) &&
            ReadBack(o.state.screen, s.width, s.height) == o.state.grid
  {
    var g := Next(s.grid, s.width, s.height);
    var scr := s.screen + GridView(g, s.width, s.height);
    assert Handle(s, TickEvent) == Outcome(Running, s.(grid := g, screen := scr));
    OverlayDepicts(s.screen, g, s.width, s.height);
    NextIsClean(s.grid, s.width, s.height);
    ViewRoundTrip(scr, g, s.width, s.height);
  }

  /** A pass of the loop whose event is a tick, while running, advances the grid one
      generation and keeps the mode and the size. */
  lemma TickPass(s: State)
    requires Valid(s) && !s.paused && s.height >= 1
    ensures var o := Iteration(s, TickEvent);
            o.ending == Running && o.state.grid == Next(s.grid, s.width, s.height) &&
            !o.state.paused && o.state.width == s.width && o.state.height == s.height
  {
  }

  /** A tick while running on a field without live cells leaves it without live cells. */
  lemma TickOnEmptyField(s: State)
    requires Valid(s) && !s.paused && s.height >= 1 && NoneAlive(s.grid)
    ensures Handle(s, TickEvent).state.grid == Blank(s.width, s.height)
  {
    NoneAliveStaysBlank(s.grid, s.width, s.height);
  }

  /** However many passes of ticks a paused game sees, its mode, grid and size stay. */
  lemma {:induction false} PausedGameKeepsGrid(s: State, evs: seq<Event>)
    requires Valid(s) && s.paused
    requires forall i | 0 <= i < |evs| :: evs[i] == TickEvent
    ensures var o := Run(s, evs);
            o.ending == Running && o.state.paused && o.state.grid == s.grid &&
            o.state.width == s.width && o.state.height == s.height
    decreases |evs|
  {
    if |evs| > 0 {
      var t := Iteration(s, evs[0]).state;
      assert t == WithStatus(s);
      PausedGameKeepsGrid(t, evs[1..]);
    }
  }

  /** Growing the terminal and shrinking it back to its old size restores the grid. */
  lemma ResizeThereAndBackKeepsGrid(s: State, w: nat, h: nat)
    requires Valid(s) && s.width <= w && s.height <= h
    ensures var t := Handle(s, ResizeEvent(w, h)).state;
            var u := Handle(t, ResizeEvent(s.width, s.height)).state;
            u.grid == s.grid && u.width == s.width && u.height == s.height
  {
    ResizeThereAndBack(s.grid, s.width, s.height, w, h);
  }

  /** Shrinking the terminal keeps the cells that still fit and drops the rest; growing it
      adds dead cells. */
  lemma ResizeKeepsTopLeft(s: State, w: nat, h: nat)
    requires Valid(s)
    ensures var t := Handle(s, ResizeEvent(w, h)).state;
            Valid(t) && t.width == w && t.height == h &&
            forall y, x | 0 <= y < h && 0 <= x < w ::
              t.grid[y][x] == if y < s.height && x < s.width then s.grid[y][x] else Dead
  {
  }

  /** Seven runes drawn from column 2 of row 1, with the wrap column and the last row at w,
      w at least 9: column x of row 1, for x from 2 to 8, shows rune x - 2. */
  lemma StatusShows(m: map<Pos, char>, w: int, text: string, x: int)
    requires w >= 9 && |text| == 7 && 2 <= x < 9
    ensures (x, 1) in Apply(m, TextWrites(2, 1, 2, w, w, text))
    ensures Apply(m, TextWrites(2, 1, 2, w, w, text))[(x, 1)] == text[x - 2]
  {
    LineShows(m, 2, 1, 2, w, w, text, x - 2);
  }

  /** On a terminal at least nine columns wide the status text sits on row 1, its runes in
      columns 2 to 8. */
  lemma StatusLine(s: State)
    requires s.width >= 9
    ensures forall x | 2 <= x < 9 ::
              (x, 1) in WithStatus(s).screen && WithStatus(s).screen[(x, 1)] == StatusText(s.paused)[x - 2]
  {
    forall x | 2 <= x < 9
      ensures (x, 1) in WithStatus(s).screen && WithStatus(s).screen[(x, 1)] == StatusText(s.paused)[x - 2]
    {
      StatusShows(s.screen, s.width, StatusText(s.paused), x);
    }
  }

  /** On a terminal at most one column wide the row limit, which is the width, is passed at
      once: only the first rune of the status is written. */
  lemma NarrowStatus(s: State)
    requires s.width <= 1
    ensures StatusWrites(s) == [((2, 1), StatusText(s.paused)[0])]
  {
  }

  /** On a terminal five columns wide the status wraps at column 5 back to column 2: three
      runes on row 1, three on row 2 and the last on row 3, all seven written. */
  lemma StatusWrapsOnFiveColumns(s: State)
    requires s.width == 5
    ensures var t := StatusText(s.paused);
            StatusWrites(s) == [((2, 1), t[0]), ((3, 1), t[1]), ((4, 1), t[2]),
                                ((2, 2), t[3]), ((3, 2), t[4]), ((4, 2), t[5]),
                                ((2, 3), t[6])]
  {
  }

  /** Two passes of ticks while running advance the grid two generations. */
  lemma TwoTicks(s: State)
    requires Valid(s) && !s.paused && s.height >= 1
    ensures var o := Run(s, [TickEvent, TickEvent]);
            o.ending == Running && !o.state.paused &&
            o.state.grid == Next(Next(s.grid, s.width, s.height), s.width, s.height)
  {
    TickPass(s);
    var t := Iteration(s, TickEvent).state;
    TickPass(t);
    assert [TickEvent, TickEvent][1..] == [TickEvent];
  }

  /** A running blinker on a 5 x 5 terminal is back in its first phase after two ticks. */
  lemma RunningBlinkerReturns(s: State)
    requires Valid(s) && !s.paused && s.width == 5 && s.height == 5 && IsVerticalBlinker(s.grid)
    ensures var o := Run(s, [TickEvent, TickEvent]);
            o.ending == Running && o.state.grid == s.grid && !o.state.paused
  {
    TwoTicks(s);
    BlinkerOscillates(s.grid);
  }
}
