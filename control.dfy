/** The control loop of the simulator: the game starts paused on an empty grid the size of
    the terminal; each pass of the loop writes the status line, then handles at most one
    event. Escape ends the program, Enter toggles pause, a resize carries the grid over to
    the new terminal size, a left click while paused brings a cell to life, and a tick while
    running advances one generation and redraws the grid. */
module Control {
  import opened Grid
  import opened Engine
  import opened Render

  /** The keys the loop tells apart. */
  datatype Key = KeyEscape | KeyEnter | OtherKey

  /** The terminal library's mouse button mask; Button1 is its lowest bit. */
  type ButtonMask = bv16
  const Button1: ButtonMask := 1

  /** What one pass of the loop receives: an event from the terminal, a tick of the
      100 ms ticker, or nothing (the select's default branch). A resize carries the
      terminal size read after it. */
  datatype Event =
    | KeyEvent(key: Key)
    | ResizeEvent(width: nat, height: nat)
    | MouseEvent(x: nat, y: nat, buttons: ButtonMask)
    | OtherEvent
    | TickEvent
    | NoEvent

  /** The loop's variables: whether the game is paused, the grid, the terminal size it was
      made for, and what the terminal shows. */
  datatype State = State(paused: bool, grid: Board, width: nat, height: nat, screen: map<Pos, char>)

  /** The grid has the terminal's size: height rows of width cells. */
  predicate Valid(s: State)
  {
    IsGrid(s.grid, s.width, s.height)
  }

  /** How a pass of the loop ends: the loop goes on, the program returns (Escape), or it
      panics (updateGrid reading the first row of a grid that has none). */
  datatype Ending = Running | Exited | Panicked

  /** The ending, and the loop's variables at that point. */
  datatype Outcome = Outcome(ending: Ending, state: State)

  const PausedText: string := "Paused!"
  const RunningText: string := "Runnin'"

  /** The status line for the current mode. */
  function StatusText(paused: bool): (t: string)
    ensures |t| == 7
    ensures t == PausedText <==> paused
  {
    if paused then PausedText else RunningText
  }

  /** The state when the program starts: paused, with an empty grid the size of the
      terminal. */
  function Initial(width: nat, height: nat, screen: map<Pos, char>): (s: State)
    ensures Valid(s) && s.paused
    ensures NoneAlive(s.grid)
  {
    State(true, Blank(width, height), width, height, screen)
  }

  /** The writes of the status line: drawText from column 2 of row 1, with both the wrap
      column and the last row set to the terminal width. */
  function StatusWrites(s: State): (ws: seq<Write>)
    ensures 1 <= |ws| <= 7 && ws[0] == ((2, 1), StatusText(s.paused)[0])
    ensures forall k | 0 <= k < |ws| :: ws[k].1 == StatusText(s.paused)[k]
  {
    TextWritesRunes(2, 1, 2, s.width, s.width, StatusText(s.paused));
    TextWrites(2, 1, 2, s.width, s.width, StatusText(s.paused))
  }

  /** The state once the status line is drawn. */
  function WithStatus(s: State): (t: State)
    ensures t.paused == s.paused && t.grid == s.grid && t.width == s.width && t.height == s.height
  {
    s.(screen := Apply(s.screen, StatusWrites(s)))
  }

  /** The select's body: what one event does to the loop's variables. */
  function Handle(s: State, ev: Event): (o: Outcome)
    requires Valid(s)
    ensures o.ending == Running ==> Valid(o.state)
  {
    match ev
    case KeyEvent(k) =>
      if k == KeyEscape then Outcome(Exited, s)
      else if k == KeyEnter then Outcome(Running, s.(paused := !s.paused))
      else Outcome(Running, s)
    case ResizeEvent(w, h) =>
      Outcome(Running, s.(grid := Resized(s.grid, s.width, s.height, w, h), width := w, height := h))
    case MouseEvent(x, y, b) =>
      if s.paused && b == Button1 && y < s.height && x < s.width then
        Outcome(Running, s.(grid := SetCell(s.grid, x, y, Live), screen := s.screen[(x, y) := 'o']))
      else Outcome(Running, s)
    case OtherEvent => Outcome(Running, s)
    case TickEvent =>
      if s.paused then Outcome(Running, s)
      else if s.height == 0 then Outcome(Panicked, s)
      else
        var g := Next(s.grid, s.width, s.height);
        Outcome(Running, s.(grid := g, screen := s.screen + GridView(g, s.width, s.height)))
    case NoEvent => Outcome(Running, s)
  }

  /** One pass of the loop: the status line, then the event. */
  function Iteration(s: State, ev: Event): (o: Outcome)
    requires Valid(s)
    ensures o.ending == Running ==> Valid(o.state)
  {
    Handle(WithStatus(s), ev)
  }

  /** The loop over a finite sequence of events, up to the pass that ends it. */
  function Run(s: State, evs: seq<Event>): (o: Outcome)
    requires Valid(s)
    ensures o.ending == Running ==> Valid(o.state)
    decreases |evs|
  {
    if |evs| == 0 then Outcome(Running, s)
    else
      var o := Iteration(s, evs[0]);
      if o.ending == Running then Run(o.state, evs[1..]) else o
  }

  /** The program and its terminal. */
  class Game {
    var paused: bool
    var grid: array2<char>
    var width: nat
    var height: nat
    const screen: Screen

    /** The grid array has the size the loop last read from the terminal. */
    ghost predicate Valid()
      reads this
    {
      grid.Length0 == height && grid.Length1 == width
    }

    /** The loop's variables as values. */
    ghost function Model(): State
      reads this, grid, screen
    {
      State(paused, Cells(grid), width, height, screen.cells)
    }

    /** Start-up: the game is paused on an empty grid the size of the terminal. */
    constructor (screen: Screen, width: nat, height: nat)
      ensures this.screen == screen && fresh(grid)
      ensures Valid() && Model() == Initial(width, height, screen.cells)
    {
      var g := CreateGrid(width, height);
      this.screen := screen;
      this.width := width;
      this.height := height;
      paused := true;
      grid := g;
    }

    /** The select's body, for one event. */
    method HandleEvent(ev: Event) returns (ending: Ending)
      requires Valid()
      modifies this, grid, screen
      ensures grid == old(grid) || fresh(grid)
      ensures ending == Handle(old(Model()), ev).ending
      ensures Valid() && Model() == Handle(old(Model()), ev).state
    {
      ending := Running;
      match ev {
        case KeyEvent(k) =>
          if k == KeyEscape {
            ending := Exited;
            return;
          }
          if k == KeyEnter {
            paused := !paused;
          }
        case ResizeEvent(w, h) =>
          grid := ResizeGrid(grid, w, h);
          width, height := w, h;
        case MouseEvent(x, y, b) =>
          if !paused {
            return;
          }
          if b == Button1 {
            if y < height && x < width {
              ghost var g := Cells(grid);
              grid[y, x] := Live;
              CellsAre(grid, SetCell(g, x, y, Live));
              screen.SetContent(x, y, 'o');
            }
          }
        case OtherEvent =>
        case TickEvent =>
          if !paused {
            if height == 0 {
              // updateGrid reads the first row, which a grid of height 0 does not have
              ending := Panicked;
              return;
            }
            grid := UpdateGrid(grid);
            DrawGrid(screen, grid);
          }
        case NoEvent =>
      }
    }

    /** One pass of the loop: draw the status line, then handle the event. */
    method Iterate(ev: Event) returns (ending: Ending)
      requires Valid()
      modifies this, grid, screen
      ensures grid == old(grid) || fresh(grid)
      ensures ending == Iteration(old(Model()), ev).ending
      ensures Valid() && Model() == Iteration(old(Model()), ev).state
    {
      if paused {
        DrawText(screen, 2, 1, width, width, PausedText);
      } else {
        DrawText(screen, 2, 1, width, width, RunningText);
      }
      ending := HandleEvent(ev);
    }

    /** The loop, fed the events evs one pass at a time until one ends it. */
    method Play(evs: seq<Event>) returns (ending: Ending)
      requires Valid()
      modifies this, grid, screen
      ensures ending == Run(old(Model()), evs).ending
      ensures Valid() && Model() == Run(old(Model()), evs).state
    {
      ending := Running;
      var i := 0;
      while i < |evs|
        invariant 0 <= i <= |evs| && ending == Running
        invariant Valid() && (grid == old(grid) || fresh(grid))
        invariant Run(old(Model()), evs) == Run(Model(), evs[i..])
      {
        ghost var before := Model();
        assert evs[i..][1..] == evs[i + 1..];
        ending := Iterate(evs[i]);
        i := i + 1;
        if ending != Running {
          assert Run(before, evs[i - 1..]) == Iteration(before, evs[i - 1]);
          return;
        }
      }
    }
  }
}
