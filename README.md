# Leon's Game of Life: the cellular-automaton engine

This project models the simulation core of Leon's Game of Life, a desktop
cellular automaton built on the XNA/MonoGame game loop. The state is a
511 x 511 integer grid `cells`, a run flag `playing` and a frame counter
`gameTimer`. On every frame, `Update` does three things in order:

1. It counts the tick.
2. It handles input. Space toggles the run flag, R clears the grid, and while
   paused the left or right mouse button sets or clears the cell under the
   pointer.
3. While running, on every tenth tick, it replaces the grid by its next
   generation. The next generation is computed into a fresh array.

The project is in five modules:

- `Rules` (`rules.dfy`): the grid as a value, the neighbour count, the
  per-cell rule and one generation. It also holds lemmas on what a
  generation does.
- `CSharp` (`csharp.dfy`): the parts of C# `int` arithmetic the game relies
  on:
  - 32-bit wrap-around of `gameTimer++`;
  - `%` and `/`, which truncate toward zero.
- `Input` (`input.dfy`): the rising-edge key test of `Input.ToggleKeybind`,
  and how often a held key fires. `GameModel.Run` links it to the game loop:
  over frames whose previous keyboard is the keyboard of the frame before
  (the end-of-frame snapshot at `LeonsGameOfLife/LeonsGameOfLife.cs:84`), the
  run flag flips once per firing of Space.
- `GameModel` (`game_model.dfy`): one frame of the game loop as a function on
  values. It has lemmas on the tick, the run flag, the cadence of
  generations, reset, the mouse edit and the 0/1 invariant.
- `Game` (`game.dfy`): the class `LeonsGameOfLife`. Its fields are
  `cells: array2<int>`, `playing` and `gameTimer`, and its methods do what the
  C# code does:
  - `CountNeighbors` and the generation loop use nested `for` loops.
  - The mouse edit writes one array element in place.
  - Reset and the generation assign a fresh array.

  Each method is proved against the value model. For example, `Update`
  ensures `Model() == GameModel.Update(old(Model()), f)`.

**The rule the code implements is not Conway's rule.** The loop body at
`LeonsGameOfLife/LeonsGameOfLife.cs:67-78` is written in the shape of the
textbook rule. Its `else if` at line 71 holds the textbook death condition:
a live cell with fewer than two or more than three neighbours dies. But that
branch can never run, and the model follows the code:

- The generation loop tests `nextCells[x, y]`, the freshly zero-filled
  target array (`LeonsGameOfLife/LeonsGameOfLife.cs:61,67,71`), not
  `cells[x, y]`.
- So the "dies" branch is never taken. A cell with exactly three live
  neighbours becomes 1, and every other cell keeps its value.
- Live cells never die, and a blinker grows into a plus.

`Rules.ConwayNext` states the textbook rule, only so that
`LoneCellSurvives` and `BlinkerGrowsIntoPlus` can show the difference. The
2 x 2 block is still a still life (`BlockStill`).

## Model

| member | source | states |
|---|---|---|
| Rules.At | LeonsGameOfLife/LeonsGameOfLife.cs:153 | a position contributes to a count only when it lies inside the grid: the count is clipped, with no wrap-around |
| Rules.Neighbors | LeonsGameOfLife/LeonsGameOfLife.cs:145-164 | the live-neighbour count: the eight cells around (i, j), clipped at the grid's edges; between 0 and 8 on a 0/1 grid |
| Rules.NeighborsAfterSet | LeonsGameOfLife/LeonsGameOfLife.cs:145-164 | writing v into one cell changes the count of each of its eight neighbours by the difference written, and no other count |
| Rules.Set | LeonsGameOfLife/LeonsGameOfLife.cs:178 | a single-cell write: the written cell holds v, the shape and every other cell are unchanged |
| Rules.Zero | LeonsGameOfLife/LeonsGameOfLife.cs:169 | a fresh `new int[w, h]`: w columns of h cells, all dead |
| Rules.RuleChanges | LeonsGameOfLife/LeonsGameOfLife.cs:67-78 | the loop body changes a cell only by a birth (target cell 0, exactly three neighbours, writes 1) or a death (target cell 1, fewer than two or more than three neighbours, writes 0) |
| Rules.RuleOnFreshBuffer | LeonsGameOfLife/LeonsGameOfLife.cs:61-78 | with a zero-filled target cell, the loop body writes 1 when the count is 3 and the old value otherwise; the "dies" branch is dead |
| Rules.Evolve | LeonsGameOfLife/LeonsGameOfLife.cs:61-81 | a generation keeps the grid's shape |
| Rules.EvolveAt | LeonsGameOfLife/LeonsGameOfLife.cs:61-81 | each cell of the next generation is the rule applied to the old cell and its count in the old grid only |
| Rules.EvolveBirth | LeonsGameOfLife/LeonsGameOfLife.cs:67-69 | a cell with exactly three live neighbours is 1 after a generation |
| Rules.EvolveKeeps | LeonsGameOfLife/LeonsGameOfLife.cs:71-78 | a cell whose count is not 3 keeps its old value |
| Rules.LiveCellsNeverDie | LeonsGameOfLife/LeonsGameOfLife.cs:61-78 | a live cell is still alive after a generation |
| Rules.EvolveBinary | LeonsGameOfLife/LeonsGameOfLife.cs:69-77 | a generation keeps every cell in {0, 1} |
| Rules.EvolveAllDead | LeonsGameOfLife/LeonsGameOfLife.cs:61-78 | an all-dead grid stays all-dead |
| Rules.LoneCellSurvives | LeonsGameOfLife/LeonsGameOfLife.cs:67-78 | a lone live cell dies under the textbook rule but survives under the rule as written |
| Rules.BlinkerGrowsIntoPlus | LeonsGameOfLife/LeonsGameOfLife.cs:61-81 | a horizontal blinker: the textbook rule kills its ends, the code keeps them and adds the two vertical cells |
| Rules.BlinkerPlusOnly | LeonsGameOfLife/LeonsGameOfLife.cs:61-81 | after one generation every cell of the blinker's grid outside the plus is dead, so the result is exactly a plus |
| Rules.BlockStill | LeonsGameOfLife/LeonsGameOfLife.cs:61-81 | the 2 x 2 block is a still life: one generation leaves its grid unchanged |
| CSharp.Inc | LeonsGameOfLife/LeonsGameOfLife.cs:55 | `gameTimer++` stays a 32-bit value, congruent to v + 1 modulo 2^32, and larger than v below the maximum |
| CSharp.Rem | LeonsGameOfLife/LeonsGameOfLife.cs:59 | C# `%` with a positive divisor: strictly between -b and b, non-negative for a non-negative dividend and non-positive for a non-positive one, so it takes the sign of the dividend |
| CSharp.Div | LeonsGameOfLife/LeonsGameOfLife.cs:19-20 | C# `/` with a positive divisor: quotient times divisor plus the C# remainder gives back the dividend |
| Input.KeyPressed | LeonsGameOfLife/Input.cs:17 | a binding fires only while its key is down, and never when the key was already down on the previous frame |
| Input.Fires | LeonsGameOfLife/Input.cs:15-21 | a bound action fires at most once per frame, and never while a key stays held from before |
| Input.HeldKeyFiresOnce | LeonsGameOfLife/Input.cs:17 | a key pressed and then held fires exactly once |
| Input.FiresAtMostHalf | LeonsGameOfLife/Input.cs:17 | firings need a release in between, so a key fires on at most half of the frames (rounded up from a released key) |
| GameModel.Initial | LeonsGameOfLife/LeonsGameOfLife.cs:41 | start-up: a dead 511 x 511 grid, paused, timer 0 |
| GameModel.MouseWithinBounds | LeonsGameOfLife/LeonsGameOfLife.cs:17 | a pointer within bounds implies a non-empty grid and, at zoom 1, both cell indices inside the grid |
| GameModel.MouseCell | LeonsGameOfLife/LeonsGameOfLife.cs:18-20 | `MouseCellPos` at zoom 1: for a non-negative pixel coordinate the cell index is the coordinate halved, rounded down |
| GameModel.MouseCellInBounds | LeonsGameOfLife/LeonsGameOfLife.cs:17-20 | at zoom 1, a pixel strictly inside the grid's pixel area maps to a cell index inside the grid, namely the cell whose 2-pixel square holds the pixel |
| GameModel.MouseTargetInGrid | LeonsGameOfLife/LeonsGameOfLife.cs:17-20 | when the pointer is within bounds, the cell it designates lies in the grid |
| GameModel.Edit | LeonsGameOfLife/LeonsGameOfLife.cs:174-184 | the mouse edit keeps the grid's shape |
| GameModel.UpdateInput | LeonsGameOfLife/LeonsGameOfLife.cs:166-184 | input handling keeps the grid's shape and does not touch the timer |
| GameModel.Update | LeonsGameOfLife/LeonsGameOfLife.cs:53-82 | a frame keeps the grid's shape and the timer a 32-bit value |
| GameModel.UpdateTicks | LeonsGameOfLife/LeonsGameOfLife.cs:55 | each frame raises the timer by exactly one, wrapping from the 32-bit maximum to the minimum |
| GameModel.UpdateToggles | LeonsGameOfLife/LeonsGameOfLife.cs:168 | the run flag flips exactly when Space is pressed on this frame |
| GameModel.TwoTogglesRestore | LeonsGameOfLife/LeonsGameOfLife.cs:168 | two Space presses restore the run flag |
| GameModel.StepDue | LeonsGameOfLife/LeonsGameOfLife.cs:59 | a generation is due exactly when the game runs and the timer is divisible by gameSpeed; the C# remainder test agrees with divisibility for negative (wrapped) timers too |
| GameModel.CadenceSpacing | LeonsGameOfLife/LeonsGameOfLife.cs:59 | two ticks on which a generation is due lie at least gameSpeed ticks apart; a paused game is never due |
| GameModel.UpdateCadence | LeonsGameOfLife/LeonsGameOfLife.cs:57-82 | the grid after a frame is the generation of the input-edited grid when a generation is due, and the edited grid otherwise |
| GameModel.RunningOnlyEvolves | LeonsGameOfLife/LeonsGameOfLife.cs:59-82 | while the game runs and R is not pressed, a frame leaves the grid alone or replaces it by its next generation |
| GameModel.ResetClears | LeonsGameOfLife/LeonsGameOfLife.cs:169 | R keeps the grid's dimensions and the timer, the run flag still changes only by Space; without a left click the grid is all dead, and stays so through a generation |
| GameModel.EditLocality | LeonsGameOfLife/LeonsGameOfLife.cs:174-184 | without R, input changes at most the cell (X/2, Y/2), only while paused and within bounds: left writes 1, otherwise right writes 0 |
| GameModel.UpdateKeepsBinary | LeonsGameOfLife/LeonsGameOfLife.cs:53-82 | every cell stays in {0, 1} from frame to frame, and the grid keeps its dimensions |
| GameModel.EditKeepsBinary | LeonsGameOfLife/LeonsGameOfLife.cs:174-184 | the mouse edit keeps every cell in {0, 1} |
| GameModel.UpdateInputKeepsBinary | LeonsGameOfLife/LeonsGameOfLife.cs:166-184 | input handling (toggle, reset, edit) keeps every cell in {0, 1} |
| GameModel.Run | LeonsGameOfLife/LeonsGameOfLife.cs:53-88 | the game loop, one Update per frame, keeps the grid's shape and the timer a 32-bit value |
| GameModel.RunPlaying | LeonsGameOfLife/LeonsGameOfLife.cs:168 | over a run of frames the run flag changes only by Space presses, one flip per press |
| GameModel.FlipsIsParity | LeonsGameOfLife/Input.cs:15-21 | with each frame's previous keyboard the keyboard of the frame before, the flag is flipped exactly when Space fired an odd number of times |
| GameModel.RunToggles | LeonsGameOfLife/LeonsGameOfLife.cs:84 | over a run of frames chained by the end-of-frame keyboard snapshot, the run flag ends flipped exactly when Space fired an odd number of times; holding Space toggles once |
| Game.LeonsGameOfLife.constructor | LeonsGameOfLife/LeonsGameOfLife.cs:41 | the object starts as the model's start-up state with a fresh 511 x 511 array |
| Game.LeonsGameOfLife.CountNeighbors | LeonsGameOfLife/LeonsGameOfLife.cs:145-164 | the nested loop returns the clipped live-neighbour count of the current array and changes nothing |
| Game.LeonsGameOfLife.NextValue | LeonsGameOfLife/LeonsGameOfLife.cs:67-78 | the loop body's three branches compute the rule on the value already in the target cell, the old cell and its count |
| Game.LeonsGameOfLife.NextCells | LeonsGameOfLife/LeonsGameOfLife.cs:61-80 | the nested loop fills a fresh array of the same dimensions with the next generation of the old grid, writing nothing else |
| Game.LeonsGameOfLife.Generation | LeonsGameOfLife/LeonsGameOfLife.cs:61-81 | the grid is replaced by a fresh array holding its next generation; the old array is untouched and cells stay 0/1 |
| Game.LeonsGameOfLife.Reset | LeonsGameOfLife/LeonsGameOfLife.cs:169 | the grid is replaced by a fresh all-dead array of the same dimensions; nothing else changes |
| Game.LeonsGameOfLife.Toggle | LeonsGameOfLife/LeonsGameOfLife.cs:168 | the run flag flips; nothing else changes |
| Game.LeonsGameOfLife.EditCell | LeonsGameOfLife/LeonsGameOfLife.cs:174-184 | the array is edited in place exactly as the model's mouse edit says |
| Game.LeonsGameOfLife.UpdateInput | LeonsGameOfLife/LeonsGameOfLife.cs:166-184 | the object's new state is the model's input handling of its old state |
| Game.LeonsGameOfLife.Update | LeonsGameOfLife/LeonsGameOfLife.cs:53-82 | the object's new state is the model's frame of its old state; the 0/1 and 32-bit invariant is kept |

## Left out

- Rendering (`Draw`, `LoadContent`, sprite batches and textures) is left out. It is output only and never changes the grid.
- `MaximizeWindow` and the native `SDL_MaximizeWindow` call are left out. They are window management through a foreign call.
- The floating-point zoom `scale` is left out: the scroll-wheel change, the S key that resets it, and its use in `MouseCellPos`. The model fixes `scale` at 1, where `(int)(k / scale)` is `k`. At other zoom factors `MouseWithinBounds` ignores `scale`, so the written index can leave the grid. That case is not modelled.
- The C and G keys are left out. They toggle the cross and grid overlays, which never affect the grid.
- Polling the keyboard and mouse is left out. A frame's input is a parameter (`GameModel.Frame`): the previous and current state of Space and R, and the mouse position and buttons. The end-of-frame snapshot into `lastKeyboard` (`LeonsGameOfLife/LeonsGameOfLife.cs:84`) appears only as the `GameModel.Chained` condition on a run of frames; `lastMouse` (line 85) feeds only the zoom, which is left out.
- Game.LeonsGameOfLife.NextValue: it calls `CountNeighbors` once per cell. The C# code writes the call once per test. It reads the unchanged old grid, so every call returns the same value.
- Rules.BlinkerGrowsIntoPlus: it is stated for a 5 x 5 grid holding the blinker, not for a blinker anywhere in the 511 x 511 grid.
- `base.Update`, `base.Initialize` and the framework's game loop are not part of this model.
