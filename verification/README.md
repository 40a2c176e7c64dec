# Conway's Game of Life engine, modelled in Dafny

This project models the simulation engine of a small tkinter Game of Life
(`game_of_life.py`). The grid holds `N` cells laid out row-major in `C`
columns (the program ships with `MAX_CELLS = 1035` and `COLUMN_SIZE = 45`).
Each cell is alive or dead and has a scratch "next state". Cell `i` sits at
row `i / C`, column `i % C`. Each generation runs in two passes. Pass 1
computes every cell's next state from its eight Moore neighbours, clipped
at the edges with no wrap-around. Pass 2 commits all of those next states.
A controller counts the generations ("years") and lets the user run, pause,
reset and toggle cells.

Modules, one per component:

- `Errors` (`errors.dfy`): the Python exceptions the core can raise, as a `Result` type.
- `Grid` (`grid.dfy`): cells, the index/coordinate layout, `align_cells`.
- `Neighbours` (`neighbours.dfy`): the candidate list and the edge-clipping policy.
- `Count` (`count.dfy`): `countAliveCells`, including Python's list subscript rules.
- `Engine` (`engine.dfy`): the rule, the two passes, and one generation, both as functions and as a looping method.
- `Life` (`life.dfy`): the textbook B3/S23 reference, and the theorems that tie the engine to it.
- `Lifecycle` (`lifecycle.dfy`): the Idle/Running phase, the year counter, and the controls.

The neighbour row bound is asymmetric. With a partial last row
(`N % C != 0`) the row `N / C` is still accepted, and the last cell's
right-hand neighbour is kept with index `N`. `self._cells[N]` then raises
`IndexError`. The model keeps this behaviour and does not change the bound.
`Life.StepDefinedIffFullRows` proves that on an aligned grid a generation
succeeds if and only if `N % C == 0`, and otherwise fails with `IndexError`.
In the controller, that exception ends the tick loop (phase `Halted`). By
then the year has already been incremented. No committed state has
changed, but the cells that pass 1 visited before the failing one keep the
scratch states it wrote into them.

The row bound in the source uses the constant `MAX_CELLS`, while the model
uses the length of the cell list. The two agree because `create_cells`
always builds exactly `MAX_CELLS` cells.

The program has no separate "Paused" phase. Pausing stops the loop and
builds a fresh, idle controller that carries the year over. The model
represents this as a return to `Idle`. `cell_reset` and `on_click` do not
check the phase themselves. The guard is that their buttons are disabled
while the game runs. The model keeps the four enabled flags (Run, Pause,
Reset, and the cell buttons, which are always switched together) in the
game state. They are set where the program sets them: at start-up (Pause is
created disabled), by Run and by Pause. `Press` reads them, and a click on a
disabled button changes nothing. `Lifecycle.ButtonsFollowPhase` states that
the enabled buttons are exactly those the phase calls for. Start-up
establishes it, and every click and every tick keeps it.

## Model

| member | source | states |
|---|---|---|
| Grid.CreateCells | game_of_life.py:215-224 | start-up builds exactly `N` cells, all dead |
| Grid.CoordinatesRoundTrip | game_of_life.py:226-236 | the coordinates `(i / C, i % C)` of cell `i` map back to `i` under the index formula `x*C + y` |
| Grid.IndexRoundTrip | game_of_life.py:135 | for an in-column position `(x, y)`, the layout inverts the index formula: the cell at `x*C + y` has coordinates `(x, y)` |
| Grid.IndexInjective | game_of_life.py:135 | two distinct in-column positions never share a list index |
| Grid.AlignCells | game_of_life.py:226-236 | the row/column counter loop gives every cell the coordinates `(i / C, i % C)`, leaves its states alone, and returns the final counters `((N-1)/C, (N-1)%C + 1)`, or `(0, 0)` for an empty list |
| Neighbours.Kept | game_of_life.py:122-135 | a candidate position is kept exactly when it is in the candidate list and none of the exclusions holds: negative row or column, row past the asymmetric bound, column past `C-1`; at most as many survive as there were candidates |
| Neighbours.CandidatesAreMoore | game_of_life.py:108-117 | the candidate list holds eight distinct positions, exactly those at most one row and one column from the cell other than the cell itself: the Moore neighbourhood |
| Neighbours.NeighbourIndices | game_of_life.py:108-135 | the neighbour list has at most 8 entries, and an index is listed exactly when some non-excluded candidate of the eight Moore offsets has that index |
| Neighbours.NeighboursDistinct | game_of_life.py:108-135 | no neighbour index is listed twice |
| Neighbours.NeighboursExcludeSelf | game_of_life.py:108-135 | a cell whose column is in range never lists its own index |
| Neighbours.KeptIndexInRange | game_of_life.py:122-135 | a kept position has a non-negative index, which is below `N` when `N % C == 0` |
| Neighbours.NeighboursInRange | game_of_life.py:122-135 | every listed index is non-negative, and when `N % C == 0` every listed index is below `N`, so the subscript in `countAliveCells` is valid |
| Neighbours.PartialRowReachesPastEnd | game_of_life.py:126-135 | when `N % C != 0`, the last cell's neighbour list contains `N`, one past the end of the list |
| Count.CountAlive | game_of_life.py:185-194 | the count succeeds exactly when every listed index is a valid Python subscript; otherwise it raises `IndexError` for the first invalid one; on success alive + dead equals the list length |
| Count.CountAliveIsMultiset | game_of_life.py:185-194 | `alive` and `dead` are the numbers of live and dead cells in the multiset of listed cells' states |
| Count.CountAliveFrame | game_of_life.py:185-194 | the count reads only committed states, so lists that differ only in scratch states give the same count |
| Count.CountAliveAllDead | game_of_life.py:185-194 | among dead cells the alive count is 0 |
| Engine.Rule | game_of_life.py:140-161 | the next state is alive exactly when the count is 3, or the cell is alive and the count is 2 |
| Engine.NextOf | game_of_life.py:107-161 | a cell's scratch state fails only with an `IndexError` naming one of that cell's listed neighbours |
| Engine.Pass1 | game_of_life.py:101-161 | pass 1 never writes committed states or coordinates, also when it aborts; its only failure is `IndexError`, and an aborted pass returns the list with the scratch states written so far |
| Engine.Pass1StopsAtFirstFailure | game_of_life.py:101-161 | in list order, an aborted pass 1 stops at the first cell whose neighbour count raises, with that cell's error; every earlier cell has its computed scratch state written and every later cell is untouched |
| Engine.Pass1OrderIndependent | game_of_life.py:101-161 | for ANY visiting order that reaches every cell, pass 1 succeeds exactly when every cell's neighbour count succeeds, and then it yields the scratch states computed from the pre-step grid |
| Engine.Pass2 | game_of_life.py:165-170 | every cell's committed state becomes its scratch state; scratch states and coordinates are kept |
| Engine.Step | game_of_life.py:101-170 | a generation fails only with `IndexError` and keeps the list length |
| Engine.StepCommitsRule | game_of_life.py:101-170 | a generation succeeds exactly when every neighbour count succeeds; each new state is then `Rule(old state, old alive-neighbour count)`, equals the scratch state, and length and coordinates are unchanged |
| Engine.AllDeadStaysDead | game_of_life.py:140-170 | an all-dead grid that steps, steps to an all-dead grid |
| Engine.Generation | game_of_life.py:101-170 | the two index loops of pass 1 and pass 2 compute exactly the functional generation, including its failure |
| Life.ExclusionIsOnGrid | game_of_life.py:122-135 | when `N % C == 0`, a candidate survives the exclusion policy exactly when a cell exists at that position |
| Life.CountKept | game_of_life.py:107-138 | when `N % C == 0`, counting the listed neighbours succeeds and equals the textbook number of live Moore neighbours |
| Life.StepIsNextGeneration | game_of_life.py:101-170 | when `N % C == 0`, a generation on an aligned grid succeeds, commits the textbook B3/S23 next generation, and keeps the grid aligned |
| Life.StepDefinedIffFullRows | game_of_life.py:122-194 | on an aligned grid a generation succeeds if and only if `N % C == 0`, and otherwise fails with `IndexError` |
| Life.ShippedGridSteps | game_of_life.py:32-33 | with the shipped 1035 cells in 45 columns, a generation never raises and computes the textbook next generation |
| Lifecycle.Initial | game_of_life.py:215-292 | the start-up game is idle in year 0, with `N` dead cells laid out in `C` columns; Pause is created disabled and the other buttons enabled, so the buttons follow the phase |
| Lifecycle.Start | game_of_life.py:238-246 | starting succeeds exactly when the game is idle, moves it to Running with only Pause enabled, and keeps year and cells; otherwise `Thread.start` raises `RuntimeError`, because a thread object can be started only once |
| Lifecycle.Tick | game_of_life.py:95-170 | each tick adds exactly 1 to the year; the game keeps running exactly when the generation succeeds, and then holds its result; an exception halts it with the generation's error, and committed states and coordinates unchanged |
| Lifecycle.TickHaltsAtFirstFailure | game_of_life.py:95-161 | a halted tick stopped at the first cell whose count raised: earlier cells keep the scratch states pass 1 wrote, later cells are untouched, and the phase carries that cell's error |
| Lifecycle.Ticks | game_of_life.py:95-173 | `k` ticks raise the year by at most `k`, and a game that is not running is left as it is |
| Lifecycle.Pause | game_of_life.py:248-260 | pausing succeeds exactly when the game is not idle, returns it to Idle with every button but Pause enabled, and keeps year and cells; pausing an idle game raises `RuntimeError` |
| Lifecycle.Reset | game_of_life.py:262-270 | reset makes every cell dead, sets the year to 0, and keeps phase, buttons, scratch states and coordinates |
| Lifecycle.Toggle | game_of_life.py:209-213 | a valid subscript flips exactly that cell's state and leaves every other cell, the year, the phase and the buttons unchanged; an invalid one raises `IndexError` |
| Lifecycle.ToggleTwice | game_of_life.py:209-213 | toggling the same cell twice restores the game |
| Lifecycle.PauseUndoesStart | game_of_life.py:238-260 | pausing right after starting returns the same idle game, year and buttons included |
| Lifecycle.ResetIdempotent | game_of_life.py:262-270 | reset is idempotent, and the start-up game is already reset |
| Lifecycle.EditsOnlyWhileIdle | game_of_life.py:238-260 | while the buttons follow the phase: when not idle, cell clicks, Reset and Run change nothing; while idle, Pause changes nothing and a cell click toggles that cell |
| Lifecycle.ControlsFollowPhase | game_of_life.py:238-260 | from an idle game whose buttons follow the phase, Run disables Run, Reset and the cells and enables Pause; Pause then does the reverse |
| Lifecycle.PressKeepsButtonsInStep | game_of_life.py:238-260 | every click keeps the buttons following the phase; while they do, Run and Pause never raise `RuntimeError`, and only a cell index outside the list makes a click fail |
| Lifecycle.TicksKeepButtonsInStep | game_of_life.py:95-173 | the tick loop never touches the buttons, so a running or halted game keeps only Pause enabled |
| Lifecycle.TicksAdvance | game_of_life.py:95-170 | when `N % C == 0`, `k` ticks of a running aligned game raise the year by exactly `k`, advance the cells by `k` textbook generations and keep it running |
| Lifecycle.LayoutPreserved | game_of_life.py:226-236 | every control and every tick keeps the number of cells and their alignment |

## Left out

- The tkinter window, icon loading (pygame, PIL), button colours and texts, label text and grid placement of widgets: these are presentation only. `makeAlive`/`makeDead` are modelled as the state change alone.
- The flag test at the top of `run` (game_of_life.py:92-93) can never fire, because every controller starts with its flag cleared and `run` is entered once per object. A repeated start is refused by `threading.Thread.start` instead, which `Lifecycle.Start` models.
- Threading: the thread object, its start/join machinery and the `_thread_active_flag` polling are replaced by the `Phase` and an abstract sequence of ticks. Races are not modelled. In particular, `join(timeout=1)` could return before the loop has stopped; the model assumes the loop has stopped when Pause returns.
- Timing: the `LOOP_DELAY` sleep of 0.1 seconds between generations is wall-clock behaviour.
- Controller replacement on pause is a phase change that keeps the year, not a new object.
- `getCurrentYear`, `setCurrentYear`, `isAlive`, `isDead`, `setCoordinates` and `getNextState` are field reads and writes, inlined where they are used.
- Lifecycle.Ticks: it bounds the year only by `k` in general; the exact count `g.year + k` is stated by `Lifecycle.TicksAdvance` under the full-row condition, because with a partial last row the first tick halts the loop.
- Lifecycle.Press: it has no contract of its own. Its behaviour is stated by `Lifecycle.EditsOnlyWhileIdle`, `Lifecycle.ControlsFollowPhase` and `Lifecycle.PressKeepsButtonsInStep`.
- Lifecycle.Start: `game_loop` switches the buttons before it calls `start()`, so a start that raises leaves them switched, but the model's failure result carries no game. `Lifecycle.PressKeepsButtonsInStep` shows that no click reaches this case.
- Concrete patterns, such as a blinker oscillating: no such pattern is checked cell by cell. `Life.StepIsNextGeneration` relates every generation to the textbook rule instead.
