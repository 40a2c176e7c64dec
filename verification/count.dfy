/** `countAliveCells`: how many of the listed neighbours are alive, and how
    many dead, read through Python's list subscript. */
module Count {
  import opened Errors
  import opened Grid

  /** Python accepts a list subscript in `[-len, len)`; a negative one counts from the end. */
  predicate InListRange(len: nat, i: int) {
    -(len as int) <= i < len
  }

  function Subscript(len: nat, i: int): (k: nat)
    requires InListRange(len, i)
    ensures k < len
    ensures i >= 0 ==> k == i
  {
    if i < 0 then i + len else i
  }

  datatype Tally = Tally(alive: nat, dead: nat)

  /** Walks the index list once, raising `IndexError` at the first subscript
      the list does not accept; otherwise every listed cell is tallied as
      alive or dead. */
  function CountAlive(cells: seq<Cell>, idx: seq<int>): (r: Result<Tally>)
    ensures r.Success? <==> forall k :: 0 <= k < |idx| ==> InListRange(|cells|, idx[k])
    ensures r.Success? ==> r.value.alive + r.value.dead == |idx|
    ensures r.Failure? ==> exists k :: 0 <= k < |idx| && r.error == IndexError(idx[k])
                                     && !InListRange(|cells|, idx[k])
                                     && forall k' :: 0 <= k' < k ==> InListRange(|cells|, idx[k'])
  {
    if idx == [] then Success(Tally(0, 0))
    else if !InListRange(|cells|, idx[0]) then Failure(IndexError(idx[0]))
    else
      match CountAlive(cells, idx[1..])
      case Failure(e) =>
        assert forall k :: 1 <= k < |idx| ==> idx[k] == idx[1..][k - 1];
        Failure(e)
      case Success(t) =>
        if cells[Subscript(|cells|, idx[0])].state == Alive
        then Success(Tally(t.alive + 1, t.dead))
        else Success(Tally(t.alive, t.dead + 1))
  }

  /** The states of the listed cells, in list order. */
  function Looked(cells: seq<Cell>, idx: seq<int>): (s: seq<CellState>)
    requires forall k :: 0 <= k < |idx| ==> InListRange(|cells|, idx[k])
    ensures |s| == |idx|
  {
    seq(|idx|, k requires 0 <= k < |idx| => cells[Subscript(|cells|, idx[k])].state)
  }

  /** The tally is the multiset of the listed cells' states: `alive` counts
      the live ones, `dead` the dead ones. */
  lemma {:induction false} CountAliveIsMultiset(cells: seq<Cell>, idx: seq<int>)
    requires forall k :: 0 <= k < |idx| ==> InListRange(|cells|, idx[k])
    ensures CountAlive(cells, idx)
         == Success(Tally(multiset(Looked(cells, idx))[Alive], multiset(Looked(cells, idx))[Dead]))
  {
    if idx != [] {
      CountAliveIsMultiset(cells, idx[1..]);
      LookedSplit(cells, idx);
    }
  }

  /** The first listed cell's state, then the states of the rest. */
  lemma LookedSplit(cells: seq<Cell>, idx: seq<int>)
    requires idx != []
    requires forall k :: 0 <= k < |idx| ==> InListRange(|cells|, idx[k])
    ensures multiset(Looked(cells, idx))
         == multiset{cells[Subscript(|cells|, idx[0])].state} + multiset(Looked(cells, idx[1..]))
  {
    assert Looked(cells, idx) == [cells[Subscript(|cells|, idx[0])].state] + Looked(cells, idx[1..]);
  }

  /** The tally reads only committed states: two lists that agree on them agree on every tally. */
  lemma {:induction false} CountAliveFrame(a: seq<Cell>, b: seq<Cell>, idx: seq<int>)
    requires SameFrame(a, b)
    ensures CountAlive(a, idx) == CountAlive(b, idx)
  {
    if idx != [] {
      CountAliveFrame(a, b, idx[1..]);
    }
  }

  /** Among dead cells nothing is counted alive. */
  lemma {:induction false} CountAliveAllDead(cells: seq<Cell>, idx: seq<int>)
    requires forall i :: 0 <= i < |cells| ==> cells[i].state == Dead
    ensures CountAlive(cells, idx).Success? ==> CountAlive(cells, idx).value.alive == 0
  {
    if idx != [] {
      CountAliveAllDead(cells, idx[1..]);
    }
  }
}
