/** One generation of the simulation: pass 1 writes every cell's scratch
    state from the committed states, pass 2 commits all scratch states. */
module Engine {
  import opened Errors
  import opened Grid
  import opened Neighbours
  import opened Count

  /** The birth/survival rule, branch for branch as the engine decides it:
      a live cell dies below two and above three live neighbours, a dead
      cell comes alive with exactly three. */
  function Rule(current: CellState, aliveCount: nat): (next: CellState)
    ensures next == Alive <==> aliveCount == 3 || (current == Alive && aliveCount == 2)
  {
    if current == Alive then
      if aliveCount < 2 then Dead        // underpopulation
      else if aliveCount > 3 then Dead   // overpopulation
      else Alive                         // lives on
    else if aliveCount == 3 then Alive   // reproduction
    else Dead
  }

  /** The neighbour list of cell `i`, built from its stored coordinates. */
  function CellNeighbours(cells: seq<Cell>, cols: nat, i: nat): seq<int>
    requires cols > 0 && i < |cells|
  {
    NeighbourIndices(|cells|, cols, cells[i].x, cells[i].y)
  }

  /** The scratch state pass 1 computes for cell `i` of `cells`. */
  function NextOf(cells: seq<Cell>, cols: nat, i: nat): (r: Result<CellState>)
    requires cols > 0 && i < |cells|
    ensures r.Failure? ==> r.error.IndexError? && r.error.index in CellNeighbours(cells, cols, i)
  {
    match CountAlive(cells, CellNeighbours(cells, cols, i))
    case Failure(e) => Failure(e)
    case Success(t) => Success(Rule(cells[i].state, t.alive))
  }

  ghost predicate IndicesBelow(order: seq<nat>, n: nat) {
    forall k :: 0 <= k < |order| ==> order[k] < n
  }

  /** How pass 1 ends: having visited every cell, or on an exception. Either
      way the list carries the scratch states written so far, since the
      cells are shared objects that keep them. */
  datatype PassEnd = Done(cells: seq<Cell>) | Aborted(cells: seq<Cell>, error: Error)

  /** Pass 1, visiting the cells in `order`: each visited cell's scratch
      state is set from the list as it stands, and the first `IndexError`
      aborts the pass, leaving the scratch states of the cells visited
      before it written. Committed states and coordinates are never written. */
  function Pass1(cur: seq<Cell>, cols: nat, order: seq<nat>): (r: PassEnd)
    requires cols > 0 && IndicesBelow(order, |cur|)
    ensures SameFrame(r.cells, cur)
    ensures r.Aborted? ==> r.error.IndexError?
    decreases |order|
  {
    if order == [] then Done(cur)
    else
      var i := order[0];
      match NextOf(cur, cols, i)
      case Failure(e) => Aborted(cur, e)
      case Success(s) => Pass1(cur[i := cur[i].(next := s)], cols, order[1..])
  }

  /** Pass 2: every cell takes its scratch state as its committed state. */
  function Pass2(cells: seq<Cell>): (r: seq<Cell>)
    ensures |r| == |cells|
    ensures forall i :: 0 <= i < |cells| ==> r[i] == cells[i].(state := cells[i].next)
  {
    seq(|cells|, i requires 0 <= i < |cells| => cells[i].(state := cells[i].next))
  }

  /** The list order `0, 1, ..., n - 1` in which the engine visits the cells. */
  function AllIndices(n: nat): (r: seq<nat>)
    ensures |r| == n && forall k :: 0 <= k < n ==> r[k] == k
  {
    seq(n, k => k)
  }

  /** One generation. */
  function Step(cells: seq<Cell>, cols: nat): (r: Result<seq<Cell>>)
    requires cols > 0
    ensures r.Success? ==> |r.value| == |cells|
    ensures r.Failure? ==> r.error.IndexError?
  {
    match Pass1(cells, cols, AllIndices(|cells|))
    case Aborted(_, e) => Failure(e)
    case Done(p) => Success(Pass2(p))
  }

  /** Every cell's scratch state is computable: no neighbour subscript fails. */
  ghost predicate AllDefined(cells: seq<Cell>, cols: nat)
    requires cols > 0
  {
    forall i :: 0 <= i < |cells| ==> NextOf(cells, cols, i).Success?
  }

  /** The list pass 1 should produce: every scratch state computed from the
      pre-step committed states, each cell independently. */
  function Scheduled(cells: seq<Cell>, cols: nat): (r: seq<Cell>)
    requires cols > 0 && AllDefined(cells, cols)
    ensures |r| == |cells|
  {
    seq(|cells|, i requires 0 <= i < |cells| => cells[i].(next := NextOf(cells, cols, i).value))
  }

  /** A scratch state depends only on committed states and coordinates. */
  lemma NextOfFrame(a: seq<Cell>, b: seq<Cell>, cols: nat, i: nat)
    requires cols > 0 && i < |a| && SameFrame(a, b)
    ensures NextOf(a, cols, i) == NextOf(b, cols, i)
  {
    CountAliveFrame(a, b, CellNeighbours(a, cols, i));
  }

  lemma {:induction false} Pass1Succeeds(cells: seq<Cell>, cols: nat, cur: seq<Cell>, order: seq<nat>)
    requires cols > 0 && AllDefined(cells, cols) && SameFrame(cur, cells)
    requires IndicesBelow(order, |cur|)
    requires forall i :: 0 <= i < |cells| && i !in order ==> cur[i].next == NextOf(cells, cols, i).value
    ensures Pass1(cur, cols, order) == Done(Scheduled(cells, cols))
    decreases |order|
  {
    if order == [] {
      assert forall i :: 0 <= i < |cells| ==> cur[i] == Scheduled(cells, cols)[i];
      assert cur == Scheduled(cells, cols);
    } else {
      var i := order[0];
      NextOfFrame(cur, cells, cols, i);
      var cur' := cur[i := cur[i].(next := NextOf(cur, cols, i).value)];
      Pass1Succeeds(cells, cols, cur', order[1..]);
    }
  }

  lemma {:induction false} Pass1Fails(cells: seq<Cell>, cols: nat, cur: seq<Cell>, order: seq<nat>, bad: nat)
    requires cols > 0 && SameFrame(cur, cells) && IndicesBelow(order, |cur|)
    requires bad in order && bad < |cells| && NextOf(cells, cols, bad).Failure?
    ensures Pass1(cur, cols, order).Aborted?
    decreases |order|
  {
    var i := order[0];
    NextOfFrame(cur, cells, cols, i);
    if NextOf(cur, cols, i).Success? {
      assert i != bad;
      var k :| 0 <= k < |order| && order[k] == bad;
      assert order[1..][k - 1] == bad;
      Pass1Fails(cells, cols, cur[i := cur[i].(next := NextOf(cur, cols, i).value)], order[1..], bad);
    }
  }

  /** Pass 1 does not depend on the order in which it visits the cells: for
      any visiting order that reaches every cell, it fails exactly when some
      cell's neighbour subscript fails, and otherwise it yields the scratch
      states computed from the pre-step grid. */
  lemma Pass1OrderIndependent(cells: seq<Cell>, cols: nat, order: seq<nat>)
    requires cols > 0 && IndicesBelow(order, |cells|)
    requires forall i :: 0 <= i < |cells| ==> i in order
    ensures Pass1(cells, cols, order).Done? <==> AllDefined(cells, cols)
    ensures AllDefined(cells, cols) ==> Pass1(cells, cols, order) == Done(Scheduled(cells, cols))
  {
    if AllDefined(cells, cols) {
      Pass1Succeeds(cells, cols, cells, order);
    } else {
      var bad :| 0 <= bad < |cells| && NextOf(cells, cols, bad).Failure?;
      Pass1Fails(cells, cols, cells, order, bad);
    }
  }

  /** Cell `k` is the first, in list order, whose neighbour count raises. */
  ghost predicate FirstFailure(cells: seq<Cell>, cols: nat, k: int)
    requires cols > 0
  {
    && 0 <= k < |cells|
    && NextOf(cells, cols, k).Failure?
    && forall i :: 0 <= i < k ==> NextOf(cells, cols, i).Success?
  }

  /** The list with the scratch states of the cells before `k` written. */
  function WrittenBefore(cells: seq<Cell>, cols: nat, k: int): (r: seq<Cell>)
    requires cols > 0 && forall i :: 0 <= i < k && i < |cells| ==> NextOf(cells, cols, i).Success?
    ensures |r| == |cells|
  {
    seq(|cells|, i requires 0 <= i < |cells| =>
      if i < k then cells[i].(next := NextOf(cells, cols, i).value) else cells[i])
  }

  /** Writing cell `j`'s scratch state extends the written prefix by one. */
  lemma WrittenBeforeNext(cells: seq<Cell>, cols: nat, j: nat)
    requires cols > 0 && j < |cells| && forall i :: 0 <= i <= j ==> NextOf(cells, cols, i).Success?
    ensures var w := WrittenBefore(cells, cols, j);
      w[j := w[j].(next := NextOf(cells, cols, j).value)] == WrittenBefore(cells, cols, j + 1)
  {
  }

  lemma {:induction false} AbortFrom(cells: seq<Cell>, cols: nat, cur: seq<Cell>, j: nat)
    requires cols > 0 && j <= |cells| && forall i :: 0 <= i < j ==> NextOf(cells, cols, i).Success?
    requires cur == WrittenBefore(cells, cols, j)
    ensures Pass1(cur, cols, AllIndices(|cells|)[j..]).Aborted? ==>
      exists k :: && FirstFailure(cells, cols, k)
                  && Pass1(cur, cols, AllIndices(|cells|)[j..])
                     == Aborted(WrittenBefore(cells, cols, k), NextOf(cells, cols, k).error)
    decreases |cells| - j
  {
    if j < |cells| {
      var order := AllIndices(|cells|)[j..];
      assert order[0] == j && order[1..] == AllIndices(|cells|)[j + 1..];
      assert SameFrame(cur, cells);
      NextOfFrame(cur, cells, cols, j);
      if NextOf(cells, cols, j).Failure? {
        assert Pass1(cur, cols, order) == Aborted(cur, NextOf(cells, cols, j).error);
        assert FirstFailure(cells, cols, j);
      } else {
        var cur' := cur[j := cur[j].(next := NextOf(cells, cols, j).value)];
        assert Pass1(cur, cols, order) == Pass1(cur', cols, order[1..]);
        WrittenBeforeNext(cells, cols, j);
        AbortFrom(cells, cols, cur', j + 1);
      }
    }
  }

  /** Visiting the cells in list order, pass 1 stops at the first cell whose
      neighbour count raises; every cell before it has its scratch state
      written and every cell from it on is untouched. */
  lemma Pass1StopsAtFirstFailure(cells: seq<Cell>, cols: nat)
    requires cols > 0
    ensures Pass1(cells, cols, AllIndices(|cells|)).Aborted? ==>
      exists k :: && FirstFailure(cells, cols, k)
                  && Pass1(cells, cols, AllIndices(|cells|))
                     == Aborted(WrittenBefore(cells, cols, k), NextOf(cells, cols, k).error)
  {
    assert cells == WrittenBefore(cells, cols, 0);
    assert AllIndices(|cells|)[0..] == AllIndices(|cells|);
    AbortFrom(cells, cols, cells, 0);
  }

  /** The synchronous step: it succeeds exactly when every neighbour
      subscript is valid, and then each cell's new state is the rule applied
      to its old state and the number of its neighbours alive before the
      step; the list length and all coordinates are unchanged. */
  lemma StepCommitsRule(cells: seq<Cell>, cols: nat)
    requires cols > 0
    ensures Step(cells, cols).Success? <==> AllDefined(cells, cols)
    ensures Step(cells, cols).Success? ==>
      var r := Step(cells, cols).value;
      && |r| == |cells|
      && forall i :: 0 <= i < |cells| ==>
           && CountAlive(cells, CellNeighbours(cells, cols, i)).Success?
           && r[i].state == Rule(cells[i].state, CountAlive(cells, CellNeighbours(cells, cols, i)).value.alive)
           && r[i].state == r[i].next
           && r[i].x == cells[i].x && r[i].y == cells[i].y
  {
    var order := AllIndices(|cells|);
    forall i | 0 <= i < |cells| ensures i in order {
      assert order[i] == i;
    }
    Pass1OrderIndependent(cells, cols, order);
  }

  /** An all-dead grid steps to an all-dead grid. */
  lemma AllDeadStaysDead(cells: seq<Cell>, cols: nat)
    requires cols > 0
    requires forall i :: 0 <= i < |cells| ==> cells[i].state == Dead
    ensures Step(cells, cols).Success? ==>
      forall i :: 0 <= i < |cells| ==> Step(cells, cols).value[i].state == Dead
  {
    StepCommitsRule(cells, cols);
    if Step(cells, cols).Success? {
      var r := Step(cells, cols).value;
      forall i | 0 <= i < |cells| ensures r[i].state == Dead {
        CountAliveAllDead(cells, CellNeighbours(cells, cols, i));
      }
    }
  }

  /** The two passes of `Step` written as loops over the list, as the
      engine writes them. The year increment of the tick loop, and the
      scratch states left behind when pass 1 aborts, are modelled by
      `Lifecycle.Tick`. */
  method Generation(cells: seq<Cell>, cols: nat) returns (r: Result<seq<Cell>>)
    requires cols > 0
    ensures r == Step(cells, cols)
  {
    var order := AllIndices(|cells|);
    var cur := cells;
    var i := 0;
    while i < |cells|
      invariant 0 <= i <= |cells| && SameFrame(cur, cells)
      invariant Pass1(cells, cols, order) == Pass1(cur, cols, order[i..])
    {
      assert order[i..][0] == i && order[i..][1..] == order[i + 1..];
      var s := NextOf(cur, cols, i);
      if s.Failure? {
        return Failure(s.error);
      }
      cur := cur[i := cur[i].(next := s.value)];
      i := i + 1;
    }
    var out := cur;
    var j := 0;
    while j < |out|
      invariant 0 <= j <= |out| && |out| == |cur|
      invariant forall k :: 0 <= k < j ==> out[k] == cur[k].(state := cur[k].next)
      invariant forall k :: j <= k < |out| ==> out[k] == cur[k]
    {
      out := out[j := out[j].(state := out[j].next)];
      j := j + 1;
    }
    assert out == Pass2(cur);
    return Success(out);
  }
}
