/** The run/pause/reset controller around the engine, with the widget calls
    left out: a phase, the generation ("year") counter, the cells and which
    buttons are enabled. The
    tick loop is an abstract sequence of ticks, and the controller object
    that pausing throws away and rebuilds is a phase change that keeps the
    year. */
module Lifecycle {
  import opened Errors
  import opened Grid
  import opened Count
  import opened Engine
  import opened Life

  datatype Phase =
    | Idle
    | Running
    /** The tick loop ended on an exception; its thread is finished but the
        controls still show a running game. */
    | Halted(error: Error)

  /** Which buttons are enabled. The cell buttons are always switched
      together, so one flag stands for all of them. */
  datatype Buttons = Buttons(run: bool, pause: bool, reset: bool, cells: bool)

  /** Every button but Pause enabled: as the buttons are created, and as
      pausing leaves them. */
  const IdleButtons := Buttons(true, false, true, true)

  /** Only Pause enabled: as starting leaves the buttons. */
  const RunningButtons := Buttons(false, true, false, false)

  datatype Game = Game(phase: Phase, year: nat, cells: seq<Cell>, buttons: Buttons)

  /** The controls the user can press. */
  datatype Control = RunButton | PauseButton | ResetButton | CellButton(index: int)

  /** Whether the button of `control` is enabled, so that a click on it runs its command. */
  predicate Accepts(b: Buttons, control: Control) {
    match control
    case RunButton => b.run
    case PauseButton => b.pause
    case ResetButton => b.reset
    case CellButton(_) => b.cells
  }

  /** The design the button switching follows: while idle every control but
      Pause takes clicks, otherwise only Pause does. */
  predicate Enabled(phase: Phase, control: Control) {
    if phase == Idle then control != PauseButton else control == PauseButton
  }

  /** The enabled buttons are exactly those the phase calls for. */
  ghost predicate ButtonsFollowPhase(g: Game) {
    forall control :: Accepts(g.buttons, control) == Enabled(g.phase, control)
  }

  /** The four flags are determined by the phase. */
  lemma ButtonsOfPhase(g: Game)
    requires ButtonsFollowPhase(g)
    ensures g.buttons == if g.phase == Idle then IdleButtons else RunningButtons
  {
    assert Accepts(g.buttons, RunButton) == Enabled(g.phase, RunButton);
    assert Accepts(g.buttons, PauseButton) == Enabled(g.phase, PauseButton);
    assert Accepts(g.buttons, ResetButton) == Enabled(g.phase, ResetButton);
    assert Accepts(g.buttons, CellButton(0)) == Enabled(g.phase, CellButton(0));
  }

  /** The state after start-up: `n` dead cells laid out in `cols` columns,
      year 0, idle, and every button enabled except Pause, which is created
      disabled. */
  function Initial(n: nat, cols: nat): (g: Game)
    requires cols > 0
    ensures g.phase == Idle && g.year == 0 && |g.cells| == n && Aligned(g.cells, cols)
    ensures forall i :: 0 <= i < n ==> g.cells[i].state == Dead
    ensures ButtonsFollowPhase(g) && !Accepts(g.buttons, PauseButton)
  {
    Game(Idle, 0, LaidOut(CreateCells(n), cols), IdleButtons)
  }

  /** `game_loop`: disable Run, Reset and the cells, enable Pause, then call
      `start()` on the controller's thread. A thread object can be started
      only once, so `threading.Thread.start` raises for a running or a
      halted game. (The flag test at the top of `run` never fires: every
      controller begins with its flag cleared.) */
  function Start(g: Game): (r: Result<Game>)
    ensures r.Success? <==> g.phase == Idle
    ensures r.Failure? ==> r.error == ThreadAlreadyStarted
    ensures r.Success? ==> r.value == Game(Running, g.year, g.cells, RunningButtons)
  {
    if g.phase != Idle then Failure(ThreadAlreadyStarted)
    else Success(g.(phase := Running, buttons := RunningButtons))
  }

  /** One pass of the tick loop: the year goes up by one, then one
      generation is computed. An exception in pass 1 ends the loop: the
      committed states are untouched, but the cells visited before the
      failing one keep the scratch states pass 1 wrote. */
  function Tick(g: Game, cols: nat): (r: Game)
    requires cols > 0 && g.phase == Running
    ensures r.year == g.year + 1 && |r.cells| == |g.cells| && r.buttons == g.buttons
    ensures r.phase == Running <==> Step(g.cells, cols).Success?
    ensures r.phase == Running ==> r.cells == Step(g.cells, cols).value
    ensures r.phase != Running ==>
      && r.phase == Halted(Step(g.cells, cols).error)
      && SameFrame(r.cells, g.cells)
  {
    match Pass1(g.cells, cols, AllIndices(|g.cells|))
    case Done(p) => g.(year := g.year + 1, cells := Pass2(p))
    case Aborted(p, e) => g.(phase := Halted(e), year := g.year + 1, cells := p)
  }

  /** Up to `k` ticks; a halted loop ticks no more. */
  function Ticks(g: Game, cols: nat, k: nat): (r: Game)
    requires cols > 0
    ensures |r.cells| == |g.cells|
    ensures g.phase == Running ==> g.year <= r.year <= g.year + k
    ensures g.phase != Running ==> r == g
    decreases k
  {
    if k == 0 || g.phase != Running then g else Ticks(Tick(g, cols), cols, k - 1)
  }

  /** `game_pause`: stop the loop and join its thread (which raises if the
      thread was never started), carry the year over to a fresh controller,
      which is idle, then enable Run, Reset and the cells and disable Pause. */
  function Pause(g: Game): (r: Result<Game>)
    ensures r.Success? <==> g.phase != Idle
    ensures r.Failure? ==> r.error == ThreadNotStarted
    ensures r.Success? ==> r.value == Game(Idle, g.year, g.cells, IdleButtons)
  {
    if g.phase == Idle then Failure(ThreadNotStarted)
    else Success(Game(Idle, g.year, g.cells, IdleButtons))
  }

  /** `cell_reset`: every cell dead and the year back to 0. */
  function Reset(g: Game): (r: Game)
    ensures r.phase == g.phase && r.buttons == g.buttons && r.year == 0 && |r.cells| == |g.cells|
    ensures forall i :: 0 <= i < |g.cells| ==>
      r.cells[i] == g.cells[i].(state := Dead)
  {
    g.(year := 0, cells := seq(|g.cells|, i requires 0 <= i < |g.cells| => g.cells[i].(state := Dead)))
  }

  function Flip(s: CellState): CellState {
    if s == Dead then Alive else Dead
  }

  /** `on_click`: the clicked cell comes alive if dead and dies if alive. The
      subscript follows Python's list rules. */
  function Toggle(g: Game, index: int): (r: Result<Game>)
    ensures r.Success? <==> InListRange(|g.cells|, index)
    ensures r.Failure? ==> r.error == IndexError(index)
    ensures r.Success? ==>
      var k := Subscript(|g.cells|, index);
      && r.value.phase == g.phase && r.value.buttons == g.buttons && r.value.year == g.year
      && |r.value.cells| == |g.cells|
      && r.value.cells[k].state != g.cells[k].state
      && r.value.cells[k] == g.cells[k].(state := r.value.cells[k].state)
      && forall i :: 0 <= i < |g.cells| && i != k ==> r.value.cells[i] == g.cells[i]
  {
    if !InListRange(|g.cells|, index) then Failure(IndexError(index))
    else
      var k := Subscript(|g.cells|, index);
      Success(g.(cells := g.cells[k := g.cells[k].(state := Flip(g.cells[k].state))]))
  }

  /** A click on a control: a disabled button ignores it. */
  function Press(g: Game, control: Control): Result<Game> {
    if !Accepts(g.buttons, control) then Success(g)
    else
      match control
      case RunButton => Start(g)
      case PauseButton => Pause(g)
      case ResetButton => Success(Reset(g))
      case CellButton(i) => Toggle(g, i)
  }

  /** Toggling the same cell twice restores the game. */
  lemma ToggleTwice(g: Game, index: int)
    requires InListRange(|g.cells|, index)
    ensures Toggle(Toggle(g, index).value, index) == Success(g)
  {
    var k := Subscript(|g.cells|, index);
    var h := Toggle(Toggle(g, index).value, index).value;
    assert h.cells[k] == g.cells[k];
    assert h.cells == g.cells;
  }

  /** Pausing right after starting gives back the idle game, year and
      buttons included. */
  lemma PauseUndoesStart(g: Game)
    requires g.phase == Idle && ButtonsFollowPhase(g)
    ensures Pause(Start(g).value) == Success(g)
  {
    ButtonsOfPhase(g);
  }

  /** Reset is idempotent, and the start-up state is already reset. */
  lemma ResetIdempotent(g: Game, n: nat, cols: nat)
    requires cols > 0
    ensures Reset(Reset(g)) == Reset(g)
    ensures Reset(Initial(n, cols)) == Initial(n, cols)
  {
  }

  /** While the buttons follow the phase, cell clicks, Reset and Run do
      nothing unless the game is idle, and Pause does nothing while it is idle. */
  lemma EditsOnlyWhileIdle(g: Game, index: int)
    requires ButtonsFollowPhase(g)
    ensures g.phase != Idle ==>
      && Press(g, CellButton(index)) == Success(g)
      && Press(g, ResetButton) == Success(g)
      && Press(g, RunButton) == Success(g)
    ensures g.phase == Idle ==> Press(g, PauseButton) == Success(g)
    ensures g.phase == Idle ==> Press(g, CellButton(index)) == Toggle(g, index)
  {
    assert Accepts(g.buttons, RunButton) == Enabled(g.phase, RunButton);
    assert Accepts(g.buttons, PauseButton) == Enabled(g.phase, PauseButton);
    assert Accepts(g.buttons, ResetButton) == Enabled(g.phase, ResetButton);
    assert Accepts(g.buttons, CellButton(index)) == Enabled(g.phase, CellButton(index));
  }

  /** Run disables the edits and enables Pause; Pause does the reverse. */
  lemma ControlsFollowPhase(g: Game)
    requires g.phase == Idle && ButtonsFollowPhase(g)
    ensures var running := Press(g, RunButton).value;
      && running.phase == Running
      && Accepts(running.buttons, PauseButton) && !Accepts(running.buttons, ResetButton)
      && !Accepts(running.buttons, RunButton) && forall i :: !Accepts(running.buttons, CellButton(i))
    ensures var idle := Press(Press(g, RunButton).value, PauseButton).value;
      && idle.phase == Idle
      && !Accepts(idle.buttons, PauseButton) && Accepts(idle.buttons, ResetButton)
      && Accepts(idle.buttons, RunButton) && forall i :: Accepts(idle.buttons, CellButton(i))
  {
    assert Accepts(g.buttons, RunButton) == Enabled(g.phase, RunButton);
  }

  /** Every click keeps the buttons in step with the phase. While they are
      in step, Run and Pause never meet the `RuntimeError` of starting a
      started thread or joining an unstarted one, and only a cell index
      outside the list can make a click fail. */
  lemma {:induction false} PressKeepsButtonsInStep(g: Game, control: Control)
    requires ButtonsFollowPhase(g)
    ensures !control.CellButton? ==> Press(g, control).Success?
    ensures Press(g, control).Failure? ==> Press(g, control) == Toggle(g, control.index)
    ensures Press(g, control).Success? ==> ButtonsFollowPhase(Press(g, control).value)
  {
    assert Accepts(g.buttons, control) == Enabled(g.phase, control);
    ButtonsOfPhase(g);
  }

  /** A tick, and so any number of them, leaves the buttons alone; a halted
      game keeps showing the running game's buttons. */
  lemma {:induction false} TicksKeepButtonsInStep(g: Game, cols: nat, k: nat)
    requires cols > 0 && g.phase != Idle && ButtonsFollowPhase(g)
    ensures Ticks(g, cols, k).phase != Idle && ButtonsFollowPhase(Ticks(g, cols, k))
    decreases k
  {
    if k > 0 && g.phase == Running {
      var t := Tick(g, cols);
      assert t.buttons == g.buttons;
      TicksKeepButtonsInStep(t, cols, k - 1);
    }
  }

  /** With full rows, `k` ticks of a running aligned game advance the year
      by exactly `k` and the cells by `k` reference generations, and the
      game keeps running. */
  lemma {:induction false} TicksAdvance(g: Game, cols: nat, k: nat)
    requires cols > 0 && g.phase == Running
    requires Aligned(g.cells, cols) && |g.cells| % cols == 0
    ensures var r := Ticks(g, cols, k);
      && r.phase == Running && r.year == g.year + k
      && Aligned(r.cells, cols)
      && States(r.cells) == Generations(States(g.cells), cols, k)
    decreases k
  {
    if k > 0 {
      StepIsNextGeneration(g.cells, cols);
      TicksAdvance(Tick(g, cols), cols, k - 1);
    }
  }

  /** Every control and every tick keeps the number of cells and their layout. */
  lemma LayoutPreserved(g: Game, cols: nat, control: Control)
    requires cols > 0 && Aligned(g.cells, cols)
    ensures Press(g, control).Success? ==>
      |Press(g, control).value.cells| == |g.cells| && Aligned(Press(g, control).value.cells, cols)
    ensures g.phase == Running ==> Aligned(Tick(g, cols).cells, cols)
  {
  }

  /** A tick that halts stops at the first cell whose neighbour count
      raises: the cells before it keep the scratch states pass 1 wrote,
      the rest are as they were, and the year has still gone up. */
  lemma TickHaltsAtFirstFailure(g: Game, cols: nat)
    requires cols > 0 && g.phase == Running
    ensures var r := Tick(g, cols);
      r.phase != Running ==>
        exists k :: && FirstFailure(g.cells, cols, k)
                    && r.phase == Halted(NextOf(g.cells, cols, k).error)
                    && r.cells == WrittenBefore(g.cells, cols, k)
  {
    Pass1StopsAtFirstFailure(g.cells, cols);
  }
}
