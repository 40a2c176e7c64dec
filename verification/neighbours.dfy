/** Neighbour resolution: the eight Moore-neighbourhood candidates of a cell,
    the edge-clipping policy that drops some of them (there is no
    wrap-around), and the list indices of the survivors. */
module Neighbours {
  import opened Grid

  /** The eight candidate positions around `(x, y)`, in the order the engine lists them. */
  function Candidates(x: int, y: int): seq<(int, int)> {
    [ (x - 1, y - 1), (x - 1, y), (x - 1, y + 1),
      (x, y - 1),                 (x, y + 1),
      (x + 1, y - 1), (x + 1, y), (x + 1, y + 1) ]
  }

  /** The candidate list is the Moore neighbourhood: eight distinct
      positions, exactly those at most one row and one column away from
      `(x, y)`, other than `(x, y)` itself. */
  lemma CandidatesAreMoore(x: int, y: int)
    ensures |Candidates(x, y)| == 8 && Distinct(Candidates(x, y))
    ensures forall p :: p in Candidates(x, y) <==>
      p != (x, y) && x - 1 <= p.0 <= x + 1 && y - 1 <= p.1 <= y + 1
  {
  }

  /** The row test for `n` cells in `cols` columns. It is deliberately
      asymmetric: with a partial last row the row index `n / cols` still
      passes, with full rows the last valid row is `n / cols - 1`. */
  predicate RowBeyondGrid(n: nat, cols: nat, x: int)
    requires cols > 0
  {
    || (0 < n % cols && x > n / cols)
    || (0 == n % cols && x > n / cols - 1)
  }

  /** The exclusion policy for one candidate position. */
  predicate Excluded(n: nat, cols: nat, p: (int, int))
    requires cols > 0
  {
    p.0 < 0 || p.1 < 0 || RowBeyondGrid(n, cols, p.0) || p.1 > cols - 1
  }

  /** The candidates that survive the exclusion policy, in their original order. */
  function Kept(n: nat, cols: nat, cs: seq<(int, int)>): (r: seq<(int, int)>)
    requires cols > 0
    ensures |r| <= |cs|
    ensures forall p :: p in r <==> p in cs && !Excluded(n, cols, p)
  {
    if cs == [] then []
    else if Excluded(n, cols, cs[0]) then Kept(n, cols, cs[1..])
    else [cs[0]] + Kept(n, cols, cs[1..])
  }

  /** The neighbour list the engine builds for the cell at `(x, y)`. */
  function NeighbourIndices(n: nat, cols: nat, x: int, y: int): (r: seq<int>)
    requires cols > 0
    ensures |r| <= 8
    ensures forall j :: j in r <==> exists p :: p in Candidates(x, y) && !Excluded(n, cols, p) && Index(cols, p) == j
  {
    var kept := Kept(n, cols, Candidates(x, y));
    var r := IndicesOf(cols, kept);
    assert forall j :: j in r ==> exists p :: p in kept && Index(cols, p) == j;
    assert forall p :: p in kept ==> Index(cols, p) in r by {
      forall p | p in kept ensures Index(cols, p) in r {
        var k :| 0 <= k < |kept| && kept[k] == p;
        assert r[k] == Index(cols, p);
      }
    }
    r
  }

  /** The list indices of a sequence of positions. */
  function IndicesOf(cols: nat, ps: seq<(int, int)>): (r: seq<int>)
    ensures |r| == |ps|
    ensures forall k :: 0 <= k < |ps| ==> r[k] == Index(cols, ps[k])
  {
    seq(|ps|, k requires 0 <= k < |ps| => Index(cols, ps[k]))
  }

  ghost predicate Distinct<T>(s: seq<T>) {
    forall a, b :: 0 <= a < b < |s| ==> s[a] != s[b]
  }

  lemma {:induction false} KeptDistinct(n: nat, cols: nat, cs: seq<(int, int)>)
    requires cols > 0 && Distinct(cs)
    ensures Distinct(Kept(n, cols, cs))
  {
    if cs != [] {
      assert Distinct(cs[1..]);
      KeptDistinct(n, cols, cs[1..]);
      assert cs[0] !in cs[1..];
    }
  }

  /** The neighbour list of any cell has no repeated index: kept candidates
      are distinct positions inside the columns, and the index formula is
      injective there. */
  lemma NeighboursDistinct(n: nat, cols: nat, x: int, y: int)
    requires cols > 0
    ensures Distinct(NeighbourIndices(n, cols, x, y))
  {
    var kept := Kept(n, cols, Candidates(x, y));
    KeptDistinct(n, cols, Candidates(x, y));
    var r := NeighbourIndices(n, cols, x, y);
    forall a, b | 0 <= a < b < |r| ensures r[a] != r[b] {
      assert kept[a] in kept && kept[b] in kept;
      if r[a] == r[b] {
        IndexInjective(cols, kept[a], kept[b]);
      }
    }
  }

  /** A cell whose column is inside the grid is never its own neighbour. */
  lemma NeighboursExcludeSelf(n: nat, cols: nat, x: int, y: int)
    requires cols > 0 && 0 <= y < cols
    ensures Index(cols, (x, y)) !in NeighbourIndices(n, cols, x, y)
  {
    if Index(cols, (x, y)) in NeighbourIndices(n, cols, x, y) {
      var p :| p in Candidates(x, y) && !Excluded(n, cols, p) && Index(cols, p) == Index(cols, (x, y));
      IndexInjective(cols, p, (x, y));
    }
  }

  /** A position that passes the exclusion policy has a non-negative index,
      below `n` when the rows are all full. */
  lemma KeptIndexInRange(n: nat, cols: nat, p: (int, int))
    requires cols > 0 && !Excluded(n, cols, p)
    ensures 0 <= Index(cols, p)
    ensures n % cols == 0 ==> Index(cols, p) < n
  {
    assert p.0 * cols >= 0;
    if n % cols == 0 {
      var rows := n / cols;
      assert p.0 <= rows - 1;
      MulLe(p.0, rows - 1, cols);
      assert (rows - 1) * cols == n - cols;
    }
  }

  /** Every listed index is non-negative, and when the rows are all full it
      is below `n`: the subscript `self._cells[index]` is then always valid. */
  lemma NeighboursInRange(n: nat, cols: nat, x: int, y: int)
    requires cols > 0
    ensures forall j :: j in NeighbourIndices(n, cols, x, y) ==> 0 <= j
    ensures n % cols == 0 ==> forall j :: j in NeighbourIndices(n, cols, x, y) ==> j < n
  {
    forall j | j in NeighbourIndices(n, cols, x, y)
      ensures 0 <= j && (n % cols == 0 ==> j < n)
    {
      var p :| p in Candidates(x, y) && !Excluded(n, cols, p) && Index(cols, p) == j;
      KeptIndexInRange(n, cols, p);
    }
  }

  /** With a partial last row, the last cell's right-hand neighbour is kept
      although it does not exist: its index is `n`, one past the end. */
  lemma PartialRowReachesPastEnd(n: nat, cols: nat)
    requires cols > 0 && n % cols != 0
    ensures n > 0
    ensures var (x, y) := Coordinates(n - 1, cols); n in NeighbourIndices(n, cols, x, y)
  {
    DivModStep(n, cols);
    assert n / cols == (n - 1) / cols && n % cols == (n - 1) % cols + 1;
    assert 0 < n % cols <= cols - 1;
    var (x, y) := Coordinates(n - 1, cols);
    var p := (x, y + 1);
    assert p in Candidates(x, y);
    assert p == (n / cols, n % cols);
    assert !RowBeyondGrid(n, cols, p.0);
    assert !Excluded(n, cols, p);
    CoordinatesRoundTrip(n, cols);
  }
}
