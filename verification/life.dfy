/** The textbook reference the engine is measured against: Conway's B3/S23
    rule over the Moore neighbourhood of a bounded grid (no wrap-around),
    where a neighbour counts when the cell at that position exists and is
    alive. The neighbourhood is the engine's candidate list, which
    `Neighbours.CandidatesAreMoore` shows is the Moore neighbourhood. */
module Life {
  import opened Errors
  import opened Grid
  import opened Neighbours
  import opened Count
  import opened Engine

  /** A position that holds one of the `n` cells laid out in `cols` columns. */
  predicate OnGrid(n: nat, cols: nat, p: (int, int)) {
    0 <= p.0 && 0 <= p.1 < cols && Index(cols, p) < n
  }

  /** How many of the positions `ps` hold a live cell. */
  function LiveAmong(states: seq<CellState>, cols: nat, ps: seq<(int, int)>): (k: nat)
    ensures k <= |ps|
  {
    if ps == [] then 0
    else
      var p := ps[0];
      (if OnGrid(|states|, cols, p) && states[Index(cols, p)] == Alive then 1 else 0)
      + LiveAmong(states, cols, ps[1..])
  }

  /** The next generation of `states`: a cell is alive next exactly when it
      has three live neighbours, or is alive now and has two. */
  function NextGeneration(states: seq<CellState>, cols: nat): (r: seq<CellState>)
    requires cols > 0
    ensures |r| == |states|
  {
    seq(|states|, i requires 0 <= i < |states| =>
      var (x, y) := Coordinates(i, cols);
      var k := LiveAmong(states, cols, Candidates(x, y));
      if k == 3 || (states[i] == Alive && k == 2) then Alive else Dead)
  }

  /** `k` generations of the reference. */
  function Generations(states: seq<CellState>, cols: nat, k: nat): (r: seq<CellState>)
    requires cols > 0
    ensures |r| == |states|
    decreases k
  {
    if k == 0 then states else Generations(NextGeneration(states, cols), cols, k - 1)
  }

  /** With full rows, the engine's exclusion policy keeps exactly the
      positions that hold a cell. */
  lemma ExclusionIsOnGrid(n: nat, cols: nat, p: (int, int))
    requires cols > 0 && n % cols == 0
    ensures !Excluded(n, cols, p) <==> OnGrid(n, cols, p)
  {
    if !Excluded(n, cols, p) {
      KeptIndexInRange(n, cols, p);
    }
    if OnGrid(n, cols, p) && RowBeyondGrid(n, cols, p.0) {
      var rows := n / cols;
      assert p.0 >= rows;
      MulLe(rows, p.0, cols);
    }
  }

  /** Counting the listed neighbours of the kept positions gives the
      reference's live-neighbour count. */
  lemma {:induction false} CountKept(cells: seq<Cell>, cols: nat, ps: seq<(int, int)>)
    requires cols > 0 && |cells| % cols == 0
    ensures var idx := IndicesOf(cols, Kept(|cells|, cols, ps));
      && CountAlive(cells, idx).Success?
      && CountAlive(cells, idx).value.alive == LiveAmong(States(cells), cols, ps)
  {
    if ps != [] {
      CountKept(cells, cols, ps[1..]);
      ExclusionIsOnGrid(|cells|, cols, ps[0]);
      if !Excluded(|cells|, cols, ps[0]) {
        var idx := IndicesOf(cols, Kept(|cells|, cols, ps));
        assert idx[1..] == IndicesOf(cols, Kept(|cells|, cols, ps[1..]));
        KeptIndexInRange(|cells|, cols, ps[0]);
      }
    }
  }

  /** With full rows, one step of the engine on an aligned grid succeeds and
      commits the reference's next generation; coordinates stay aligned. */
  lemma StepIsNextGeneration(cells: seq<Cell>, cols: nat)
    requires cols > 0 && Aligned(cells, cols) && |cells| % cols == 0
    ensures Step(cells, cols).Success?
    ensures States(Step(cells, cols).value) == NextGeneration(States(cells), cols)
    ensures Aligned(Step(cells, cols).value, cols)
  {
    forall i | 0 <= i < |cells| ensures NextOf(cells, cols, i).Success? {
      CountKept(cells, cols, Candidates(cells[i].x, cells[i].y));
    }
    StepCommitsRule(cells, cols);
    var r := Step(cells, cols).value;
    forall i | 0 <= i < |cells| ensures r[i].state == NextGeneration(States(cells), cols)[i] {
      CountKept(cells, cols, Candidates(cells[i].x, cells[i].y));
    }
  }

  /** The safety question of the neighbour subscript, answered exactly: on
      an aligned grid the step succeeds if and only if the last row is full.
      With a partial last row it always raises `IndexError`. */
  lemma StepDefinedIffFullRows(cells: seq<Cell>, cols: nat)
    requires cols > 0 && Aligned(cells, cols)
    ensures Step(cells, cols).Success? <==> |cells| % cols == 0
    ensures Step(cells, cols).Failure? ==> Step(cells, cols).error.IndexError?
  {
    var n := |cells|;
    if n % cols == 0 {
      StepIsNextGeneration(cells, cols);
    } else {
      PartialRowReachesPastEnd(n, cols);
      assert n in CellNeighbours(cells, cols, n - 1);
      assert !AllDefined(cells, cols) by {
        assert NextOf(cells, cols, n - 1).Failure?;
      }
      StepCommitsRule(cells, cols);
    }
  }

  /** The shipped configuration: 1035 cells in 45 columns. */
  const MaxCells: nat := 1035
  const ColumnSize: nat := 45

  /** The shipped grid has full rows (23 of them), so the engine's step
      never raises there. */
  lemma ShippedGridSteps(cells: seq<Cell>)
    requires |cells| == MaxCells && Aligned(cells, ColumnSize)
    ensures Step(cells, ColumnSize).Success?
    ensures States(Step(cells, ColumnSize).value) == NextGeneration(States(cells), ColumnSize)
  {
    StepIsNextGeneration(cells, ColumnSize);
  }
}
