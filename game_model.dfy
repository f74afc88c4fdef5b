/**
 One frame of the game loop on values: the input handling that can change the
 grid or the run flag, the tick counter, and the cadence at which a
 generation is applied.
 */
module GameModel {
  import opened Rules
  import opened CSharp
  import opened Input

  /** Side of a cell in pixels. */
  const CellWidth: int := 2

  /** A generation is applied on every GameSpeed-th tick while the game runs. */
  const GameSpeed: int := 10

  /** The side of the square grid allocated at start-up. */
  const Size: nat := 511

  /** Whether the two keys that reach the grid, Space and R, are down. */
  datatype Keyboard = Keyboard(space: bool, r: bool)

  /** The pointer position in window pixels and its two buttons. */
  datatype Mouse = Mouse(x: int, y: int, leftPressed: bool, rightPressed: bool)

  /** What one frame's input handling sees: last frame's keys, this frame's keys, the mouse. */
  datatype Frame = Frame(lastKeyboard: Keyboard, keyboard: Keyboard, mouse: Mouse)

  /** The game's simulation state. */
  datatype State = State(cells: Grid, playing: bool, gameTimer: int)

  /** The state right after start-up: a dead Size x Size grid, paused, tick 0. */
  function Initial(): (s: State)
    ensures Width(s.cells) == Size && Height(s.cells) == Size && Rect(s.cells)
    ensures AllDead(s.cells) && !s.playing && s.gameTimer == 0
  {
    State(Zero(Size, Size), false, 0)
  }

  /** The pointer lies strictly inside the grid's pixel area (the zoom factor plays no part). */
  predicate MouseWithinBounds(x: int, y: int, g: Grid)
    ensures MouseWithinBounds(x, y, g) ==> Width(g) > 0 && Height(g) > 0
    ensures MouseWithinBounds(x, y, g) ==> 0 <= MouseCell(x) < Width(g) && 0 <= MouseCell(y) < Height(g)
  {
    x > 0 && y > 0 && x < Width(g) * CellWidth && y < Height(g) * CellWidth
  }

  /** The grid index under pixel coordinate p, at zoom factor 1. */
  function MouseCell(p: int): (c: int)
    ensures p >= 0 ==> c == p / CellWidth
  {
    Div(p - Rem(p, CellWidth), CellWidth)
  }

  /** A pixel inside the grid maps to a cell inside the grid, and that cell's square holds the pixel. */
  lemma MouseCellInBounds(p: int, n: int)
    requires 0 < p < n * CellWidth
    ensures 0 <= MouseCell(p) < n
    ensures CellWidth * MouseCell(p) <= p < CellWidth * MouseCell(p) + CellWidth
  {
    var c := MouseCell(p);
    assert Rem(p, CellWidth) == p % 2;
    assert c == p / 2;
  }

  /** The cell the mouse points at lies in the grid whenever the pointer is within bounds. */
  lemma MouseTargetInGrid(m: Mouse, g: Grid)
    requires Rect(g) && MouseWithinBounds(m.x, m.y, g)
    ensures InGrid(g, MouseCell(m.x), MouseCell(m.y))
  {
    MouseCellInBounds(m.x, Width(g));
    MouseCellInBounds(m.y, Height(g));
  }

  /**
   The mouse edit: while paused and inside the grid, the left button makes the
   cell under the pointer alive, otherwise the right button makes it dead.
   */
  function Edit(g: Grid, playing: bool, m: Mouse): (r: Grid)
    requires Rect(g)
    ensures SameShape(r, g)
  {
    if !playing && MouseWithinBounds(m.x, m.y, g) then
      MouseTargetInGrid(m, g);
      if m.leftPressed then Set(g, MouseCell(m.x), MouseCell(m.y), 1)
      else if m.rightPressed then Set(g, MouseCell(m.x), MouseCell(m.y), 0)
      else g
    else g
  }

  /** Input handling: Space toggles the run flag, R clears the grid, then the mouse edit. */
  function UpdateInput(s: State, f: Frame): (r: State)
    requires Rect(s.cells)
    ensures SameShape(r.cells, s.cells) && Rect(r.cells)
    ensures r.gameTimer == s.gameTimer
  {
    var playing := if KeyPressed(f.lastKeyboard.space, f.keyboard.space) then !s.playing else s.playing;
    var cells := if KeyPressed(f.lastKeyboard.r, f.keyboard.r) then Zero(Width(s.cells), Height(s.cells)) else s.cells;
    State(Edit(cells, playing, f.mouse), playing, s.gameTimer)
  }

  /** A generation is due on this tick: the C# remainder test is divisibility by GameSpeed, for negative (wrapped) timers too. */
  predicate StepDue(playing: bool, gameTimer: int)
    ensures StepDue(playing, gameTimer) <==> playing && gameTimer % GameSpeed == 0
  {
    playing && Rem(gameTimer, GameSpeed) == 0
  }

  /** One frame: count the tick, handle input, then apply a generation if one is due. */
  function Update(s: State, f: Frame): (r: State)
    requires Rect(s.cells) && IsInt32(s.gameTimer)
    ensures SameShape(r.cells, s.cells) && Rect(r.cells) && IsInt32(r.gameTimer)
  {
    var t := Inc(s.gameTimer);
    var s' := UpdateInput(s.(gameTimer := t), f);
    if StepDue(s'.playing, t) then s'.(cells := Evolve(s'.cells)) else s'
  }

  /** Each frame counts one tick: the timer goes up by exactly one, wrapping around at the 32-bit limit. */
  lemma UpdateTicks(s: State, f: Frame)
    requires Rect(s.cells) && IsInt32(s.gameTimer)
    ensures s.gameTimer < IntMax ==> Update(s, f).gameTimer == s.gameTimer + 1
    ensures s.gameTimer == IntMax ==> Update(s, f).gameTimer == IntMin
  {
  }

  /** The run flag flips exactly on a Space press; nothing else changes it. */
  lemma UpdateToggles(s: State, f: Frame)
    requires Rect(s.cells) && IsInt32(s.gameTimer)
    ensures Update(s, f).playing == (s.playing != KeyPressed(f.lastKeyboard.space, f.keyboard.space))
  {
  }

  /** Two Space presses restore the run flag, whatever happened to the grid in between. */
  lemma TwoTogglesRestore(s: State, f1: Frame, f2: Frame)
    requires Rect(s.cells) && IsInt32(s.gameTimer)
    requires KeyPressed(f1.lastKeyboard.space, f1.keyboard.space)
    requires KeyPressed(f2.lastKeyboard.space, f2.keyboard.space)
    ensures Update(Update(s, f1), f2).playing == s.playing
  {
    UpdateToggles(s, f1);
    UpdateToggles(Update(s, f1), f2);
  }

  /**
   Generations are spaced: two distinct ticks on which a generation is due
   (between which the timer did not wrap) lie at least GameSpeed ticks apart,
   and a paused game is never due.
   */
  lemma CadenceSpacing(t1: int, t2: int)
    requires StepDue(true, t1) && StepDue(true, t2) && t1 < t2
    ensures t2 - t1 >= GameSpeed
    ensures !StepDue(false, t1)
  {
    assert t1 % GameSpeed == 0 && t2 % GameSpeed == 0;
  }

  /**
   Without a generation due, the grid changes only by input; with one due, the
   new grid is the generation of the grid input handling left.
   */
  lemma UpdateCadence(s: State, f: Frame)
    requires Rect(s.cells) && IsInt32(s.gameTimer)
    ensures var t := Inc(s.gameTimer);
            var edited := UpdateInput(s, f).cells;
            Update(s, f).cells == if StepDue(Update(s, f).playing, t) then Evolve(edited) else edited
  {
  }

  /**
   While the game runs and R is not pressed, the grid is never edited: a frame
   either leaves it alone or replaces it by its next generation.
   */
  lemma RunningOnlyEvolves(s: State, f: Frame)
    requires Rect(s.cells) && IsInt32(s.gameTimer)
    requires Update(s, f).playing && !KeyPressed(f.lastKeyboard.r, f.keyboard.r)
    ensures Update(s, f).cells == s.cells || Update(s, f).cells == Evolve(s.cells)
  {
    UpdateToggles(s, f);
  }

  /**
   R clears the grid without changing its dimensions, the run flag or the timer;
   unless a mouse button paints a cell in the same frame, the grid stays dead
   through the generation that may follow.
   */
  lemma ResetClears(s: State, f: Frame)
    requires Rect(s.cells) && IsInt32(s.gameTimer)
    requires KeyPressed(f.lastKeyboard.r, f.keyboard.r)
    ensures Width(UpdateInput(s, f).cells) == Width(s.cells) && Height(UpdateInput(s, f).cells) == Height(s.cells)
    ensures UpdateInput(s, f).playing == (s.playing != KeyPressed(f.lastKeyboard.space, f.keyboard.space))
    ensures UpdateInput(s, f).gameTimer == s.gameTimer
    ensures !f.mouse.leftPressed ==> AllDead(UpdateInput(s, f).cells) && AllDead(Update(s, f).cells)
  {
    var z := Zero(Width(s.cells), Height(s.cells));
    if !f.mouse.leftPressed {
      var cells := UpdateInput(s, f).cells;
      forall x, y | 0 <= x < |cells| && 0 <= y < |cells[x]| ensures cells[x][y] == 0 {
        assert InGrid(z, x, y);
      }
      var t := Inc(s.gameTimer);
      assert UpdateInput(s.(gameTimer := t), f).cells == cells;
      EvolveAllDead(cells);
    }
  }

  /**
   Without R, a frame's input handling writes at most the one cell under the
   pointer: only while paused and within bounds, 1 for the left button, else
   0 for the right button.
   */
  lemma EditLocality(s: State, f: Frame)
    requires Rect(s.cells) && !KeyPressed(f.lastKeyboard.r, f.keyboard.r)
    ensures var r := UpdateInput(s, f);
            var cx, cy := MouseCell(f.mouse.x), MouseCell(f.mouse.y);
            && (forall a, b | InGrid(s.cells, a, b) && (a != cx || b != cy) :: r.cells[a][b] == s.cells[a][b])
            && (r.cells != s.cells ==> !r.playing && MouseWithinBounds(f.mouse.x, f.mouse.y, s.cells))
            && (!r.playing && MouseWithinBounds(f.mouse.x, f.mouse.y, s.cells) ==>
                  InGrid(s.cells, cx, cy) &&
                  r.cells[cx][cy] == if f.mouse.leftPressed then 1 else if f.mouse.rightPressed then 0 else s.cells[cx][cy])
  {
    if MouseWithinBounds(f.mouse.x, f.mouse.y, s.cells) {
      MouseTargetInGrid(f.mouse, s.cells);
    }
  }

  /** The mouse edit writes only 0 or 1, so it keeps every cell in {0, 1}. */
  lemma EditKeepsBinary(g: Grid, playing: bool, m: Mouse)
    requires Rect(g) && Binary(g)
    ensures Binary(Edit(g, playing, m))
  {
    var r := Edit(g, playing, m);
    forall x, y | 0 <= x < |r| && 0 <= y < |r[x]| ensures r[x][y] == 0 || r[x][y] == 1 {
      assert InGrid(g, x, y);
    }
  }

  /** Input handling keeps every cell in {0, 1}: R writes an all-dead grid and the edit writes 0 or 1. */
  lemma UpdateInputKeepsBinary(s: State, f: Frame)
    requires Rect(s.cells) && Binary(s.cells)
    ensures Binary(UpdateInput(s, f).cells)
  {
    var base := if KeyPressed(f.lastKeyboard.r, f.keyboard.r) then Zero(Width(s.cells), Height(s.cells)) else s.cells;
    assert Binary(base);
    var playing := if KeyPressed(f.lastKeyboard.space, f.keyboard.space) then !s.playing else s.playing;
    EditKeepsBinary(base, playing, f.mouse);
  }

  /** Every cell stays 0 or 1 from frame to frame, and the grid keeps its dimensions. */
  lemma UpdateKeepsBinary(s: State, f: Frame)
    requires Rect(s.cells) && IsInt32(s.gameTimer) && Binary(s.cells)
    ensures Binary(Update(s, f).cells)
    ensures Width(Update(s, f).cells) == Width(s.cells) && Height(Update(s, f).cells) == Height(s.cells)
  {
    var t := Inc(s.gameTimer);
    var edited := UpdateInput(s.(gameTimer := t), f).cells;
    UpdateInputKeepsBinary(s.(gameTimer := t), f);
    EvolveBinary(edited);
  }

  /**
   The game loop: Update applied to each frame in turn. The source saves the
   keyboard at the end of every frame as the next frame's previous keyboard;
   Chained says the frames agree with that.
   */
  function Run(s: State, frames: seq<Frame>): (r: State)
    requires Rect(s.cells) && IsInt32(s.gameTimer)
    ensures SameShape(r.cells, s.cells) && Rect(r.cells) && IsInt32(r.gameTimer)
    decreases |frames|
  {
    if frames == [] then s else Run(Update(s, frames[0]), frames[1..])
  }

  /** Each frame's previous keyboard is the keyboard of the frame before it, the first one's is `last`. */
  ghost predicate Chained(last: Keyboard, frames: seq<Frame>)
    decreases |frames|
  {
    frames != [] ==> frames[0].lastKeyboard == last && Chained(frames[0].keyboard, frames[1..])
  }

  /** Whether Space is down on each frame. */
  function SpaceDown(frames: seq<Frame>): (keys: seq<bool>)
    ensures |keys| == |frames| && forall k | 0 <= k < |frames| :: keys[k] == frames[k].keyboard.space
  {
    seq(|frames|, k requires 0 <= k < |frames| => frames[k].keyboard.space)
  }

  /** The run flag after the frames, each Space press flipping it. */
  function Flips(playing: bool, frames: seq<Frame>): bool
    decreases |frames|
  {
    if frames == [] then playing
    else Flips(playing != KeyPressed(frames[0].lastKeyboard.space, frames[0].keyboard.space), frames[1..])
  }

  /** Over a run of frames the run flag changes only by Space presses. */
  lemma {:induction false} RunPlaying(s: State, frames: seq<Frame>)
    requires Rect(s.cells) && IsInt32(s.gameTimer)
    ensures Run(s, frames).playing == Flips(s.playing, frames)
    decreases |frames|
  {
    if frames != [] {
      var s1 := Update(s, frames[0]);
      assert Run(s, frames) == Run(s1, frames[1..]);
      RunPlaying(s1, frames[1..]);
      UpdateToggles(s, frames[0]);
    }
  }

  /**
   With chained frames, the flag is flipped exactly when Space fired an odd
   number of times.
   */
  lemma {:induction false} FlipsIsParity(playing: bool, last: Keyboard, frames: seq<Frame>)
    requires Chained(last, frames)
    ensures Flips(playing, frames) == (playing != (Fires(last.space, SpaceDown(frames)) % 2 == 1))
    decreases |frames|
  {
    if frames != [] {
      var f, rest := frames[0], frames[1..];
      var keys := SpaceDown(frames);
      assert keys[1..] == SpaceDown(rest);
      var fired := if KeyPressed(last.space, f.keyboard.space) then 1 else 0;
      var later := Fires(f.keyboard.space, SpaceDown(rest));
      assert Fires(last.space, keys) == fired + later;
      FlipsIsParity(playing != KeyPressed(last.space, f.keyboard.space), f.keyboard, rest);
      assert (fired + later) % 2 == 1 <==> ((fired == 1) != (later % 2 == 1));
    }
  }

  /**
   Over a run of chained frames the run flag ends up flipped exactly when
   Space fired an odd number of times, so holding Space down toggles once.
   */
  lemma RunToggles(s: State, last: Keyboard, frames: seq<Frame>)
    requires Rect(s.cells) && IsInt32(s.gameTimer) && Chained(last, frames)
    ensures Run(s, frames).playing == (s.playing != (Fires(last.space, SpaceDown(frames)) % 2 == 1))
  {
    RunPlaying(s, frames);
    FlipsIsParity(s.playing, last, frames);
  }
}
