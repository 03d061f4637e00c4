/**
 * The grid of the path-finding demo: a square 0/1 matrix in which 1 is a
 * wall and 0 is an open cell.  Every cell is decided by one uniform draw
 * compared with a wall probability; the start (0, 0) and the goal
 * (size - 1, size - 1) are then forced open.  The draws are a parameter
 * here: the model does not say how they are produced.
 */
module MapGenerator {

  /** A matrix position (row, column), as the program indexes `map[x, y]`; it may lie outside the grid. */
  type Cell = (int, int)

  const PATH_NOT_FOUND: string := "Path not found"
  const PATH_FOUND: string := "Found path"
  /** The "N/A" placeholder the program shows before a search and as the length of a failed one. */
  const NOT_AVAILABLE: string := "N/A"

  /** The second entry of a search result: a path length, or "N/A". */
  datatype Length = NotAvailable | Count(n: nat)

  /** The three-entry list `[status, length, path]` a search produces. */
  datatype SolvedPath = SolvedPath(status: string, length: Length, path: seq<Cell>)

  /** Why building a map fails. */
  datatype MapError =
    | ProbabilityOutOfRange  // the ValueError raised by the range check
    | BadSize                // numpy refuses a negative size; size 0 fails on the forced-open start

  datatype Result<T, E> = Success(value: T) | Failure(error: E)

  function Abs(n: int): nat { if n < 0 then -n else n }

  /** Orthogonal neighbours: Manhattan distance exactly 1. */
  predicate Adjacent(a: Cell, b: Cell) {
    Abs(a.0 - b.0) + Abs(a.1 - b.1) == 1
  }

  /** The four cells `connected_cells` considers, in the order it lists them. */
  function Candidates(cell: Cell): seq<Cell> {
    var (x, y) := cell;
    [(x, y - 1), (x + 1, y), (x, y + 1), (x - 1, y)]
  }

  /** The candidate list is exactly the set of orthogonal neighbours. */
  lemma CandidatesAreAdjacent(cell: Cell, d: Cell)
    ensures d in Candidates(cell) <==> Adjacent(cell, d)
  {
    var (x, y) := cell;
    if Adjacent(cell, d) {
      if d.0 == x {
        assert d == (x, y - 1) || d == (x, y + 1);
      } else {
        assert d.1 == y;
        assert d == (x + 1, y) || d == (x - 1, y);
      }
    }
  }

  lemma DisjointUnionCardinality(a: set<Cell>, b: set<Cell>)
    requires a !! b
    ensures |a + b| == |a| + |b|
  {
    assert a * b == {};
  }

  /**
   * The random draws have the shape and range numpy's uniform generator
   * gives them: size rows of size values, each in [0, 1).
   */
  ghost predicate DrawShape(draws: seq<seq<real>>, size: int) {
    && |draws| == size
    && (forall i :: 0 <= i < |draws| ==> |draws[i]| == size)
    && (forall i, j :: 0 <= i < |draws| && 0 <= j < |draws[i]| ==> 0.0 <= draws[i][j] < 1.0)
  }

  class Map {
    const size: int
    const probability: real
    /** The matrix: `grid[x, y] == 1` is a wall, `0` an open cell. */
    const grid: array2<int>
    /** The last search result shown by the presentation layer. */
    var solvedPath: SolvedPath

    /** What construction establishes and nothing afterwards changes. */
    ghost predicate Valid()
      reads grid
    {
      && 1 <= size
      && grid.Length0 == size && grid.Length1 == size
      && grid[0, 0] == 0 && grid[size - 1, size - 1] == 0
      && forall i, j :: 0 <= i < size && 0 <= j < size ==> grid[i, j] == 0 || grid[i, j] == 1
    }

    /**
     * Thresholds each draw against the probability (wall when the draw is
     * below it) and forces the start and the goal open.  So probability 0
     * leaves every cell open, and probability 1 walls every cell but the
     * start and the goal.  The range check on the probability is done by
     * NewMap, which calls this constructor.
     */
    constructor (size: int, probability: real, draws: seq<seq<real>>)
      requires 1 <= size && DrawShape(draws, size)
      ensures Valid() && fresh(grid)
      ensures this.size == size && this.probability == probability
      ensures forall i, j :: 0 <= i < size && 0 <= j < size && (i, j) != (0, 0) && (i, j) != (size - 1, size - 1) ==>
                (grid[i, j] == 1 <==> draws[i][j] < probability)
      ensures probability == 0.0 ==> forall i, j :: 0 <= i < size && 0 <= j < size ==> grid[i, j] == 0
      ensures probability == 1.0 ==>
                forall i, j :: 0 <= i < size && 0 <= j < size && (i, j) != (0, 0) && (i, j) != (size - 1, size - 1) ==>
                  grid[i, j] == 1
      ensures solvedPath == SolvedPath(NOT_AVAILABLE, NotAvailable, [])
    {
      var g := new int[size, size]((i, j) requires 0 <= i < size && 0 <= j < size =>
        if draws[i][j] < probability then 1 else 0);
      g[0, 0] := 0;
      g[size - 1, size - 1] := 0;
      this.size, this.probability, grid := size, probability, g;
      solvedPath := SolvedPath(NOT_AVAILABLE, NotAvailable, []);
    }

    predicate InBounds(cell: Cell) {
      0 <= cell.0 < size && 0 <= cell.1 < size
    }

    /** In bounds and not a wall. */
    predicate IsOpen(cell: Cell)
      reads grid
      requires Valid()
    {
      InBounds(cell) && grid[cell.0, cell.1] == 0
    }

    /** `open` holds exactly the open cells of the matrix. */
    ghost predicate OpenCellsAre(open: set<Cell>)
      reads grid
      requires Valid()
    {
      forall c {:trigger IsOpen(c)} :: IsOpen(c) <==> c in open
    }

    /** The open cells of the matrix, gathered into a set. */
    lemma OpenCellSet() returns (open: set<Cell>)
      requires Valid()
      ensures OpenCellsAre(open)
    {
      open := set i, j | 0 <= i < size && 0 <= j < size && grid[i, j] == 0 :: (i, j);
      forall c | IsOpen(c) ensures c in open {
        assert c == (c.0, c.1);
      }
    }

    /** The positions of the matrix; `in_bounds` accepts exactly these. */
    ghost function AllCells(): (cells: set<Cell>)
      requires 0 <= size
      ensures forall c {:trigger c in cells} :: c in cells <==> InBounds(c)
    {
      RowsMembers(size);
      Rows(size)
    }

    /** There are size * size positions, so a search pushes at most that many distinct cells. */
    lemma AllCellsCount()
      requires 0 <= size
      ensures |AllCells()| == size * size
    {
      RowsCardinality(size);
      RowsSizeIsProduct(size);
    }

    /** The positions in the first `k` rows. */
    ghost function Rows(k: nat): set<Cell> {
      if k == 0 then {} else Rows(k - 1) + RowPrefix(k - 1, size)
    }

    /** The first `k` positions of row `i`. */
    ghost function RowPrefix(i: int, k: int): set<Cell> {
      set j | 0 <= j < k :: (i, j)
    }

    lemma {:induction false} RowPrefixCardinality(i: int, k: nat)
      ensures |RowPrefix(i, k)| == k
    {
      if k > 0 {
        RowPrefixCardinality(i, k - 1);
        assert RowPrefix(i, k) == RowPrefix(i, k - 1) + {(i, k - 1)};
      }
    }

    lemma {:induction false} RowsMembers(k: nat)
      ensures forall c :: c in Rows(k) <==> 0 <= c.0 < k && 0 <= c.1 < size
    {
      if k > 0 {
        RowsMembers(k - 1);
        forall c: Cell | 0 <= c.0 < k && 0 <= c.1 < size && c.0 == k - 1 ensures c in RowPrefix(k - 1, size) {
          assert c == (k - 1, c.1);
        }
      }
    }

    lemma RowsDisjointFromNextRow(k: nat)
      ensures Rows(k) !! RowPrefix(k, size)
    {
      RowsMembers(k);
      forall c | c in RowPrefix(k, size) ensures c !in Rows(k) {
        assert c.0 == k;
      }
    }

    /** `k` rows of `size` positions each, added up one row at a time. */
    function RowsSize(k: nat): nat
      requires 0 <= size
    {
      if k == 0 then 0 else RowsSize(k - 1) + size
    }

    lemma {:induction false} RowsSizeIsProduct(k: nat)
      requires 0 <= size
      ensures RowsSize(k) == k * size
    {
      if k > 0 {
        RowsSizeIsProduct(k - 1);
      }
    }

    lemma {:induction false} RowsCardinality(k: nat)
      requires 0 <= size
      ensures |Rows(k)| == RowsSize(k)
    {
      if k > 0 {
        RowsCardinality(k - 1);
        RowPrefixCardinality(k - 1, size);
        RowsDisjointFromNextRow(k - 1);
        DisjointUnionCardinality(Rows(k - 1), RowPrefix(k - 1, size));
      }
    }

    /** What `connected_cells` returns, as a set over the candidate list. */
    ghost function OpenNeighbours(cell: Cell): set<Cell>
      reads grid
      requires Valid()
    {
      set d | d in Candidates(cell) && IsOpen(d)
    }

    /**
     * The open neighbours are exactly the open cells at Manhattan distance 1;
     * the cell itself is never among them.
     */
    lemma OpenNeighboursAreAdjacentOpenCells(cell: Cell)
      requires Valid()
      ensures forall d :: d in OpenNeighbours(cell) <==> Adjacent(cell, d) && IsOpen(d)
      ensures cell !in OpenNeighbours(cell)
    {
      forall d ensures d in OpenNeighbours(cell) <==> Adjacent(cell, d) && IsOpen(d) {
        CandidatesAreAdjacent(cell, d);
      }
    }

    /** `connected_cells`: the open, in-bounds orthogonal neighbours of a cell. */
    method ConnectedCells(cell: Cell) returns (cells: set<Cell>)
      requires Valid()
      ensures cells == OpenNeighbours(cell)
      ensures forall d :: d in cells <==> Adjacent(cell, d) && IsOpen(d)
      ensures cell !in cells && |cells| <= 4
    {
      var (x, y) := cell;
      cells := {};
      var allPossibleCells := [(x, y - 1), (x + 1, y), (x, y + 1), (x - 1, y)];
      for k := 0 to |allPossibleCells|
        invariant cells == set d | d in allPossibleCells[..k] && IsOpen(d)
        invariant |cells| <= k
      {
        var (i, j) := allPossibleCells[k];
        if InBounds((i, j)) {
          if grid[i, j] == 0 {
            cells := cells + {(i, j)};
          }
        }
        assert allPossibleCells[..k + 1] == allPossibleCells[..k] + [(i, j)];
      }
      assert allPossibleCells[..4] == Candidates(cell);
      OpenNeighboursAreAdjacentOpenCells(cell);
    }

    /** A walk: open cells, each orthogonally adjacent to the one before. */
    ghost predicate IsWalk(p: seq<Cell>)
      reads grid
      requires Valid()
    {
      && (forall i :: 0 <= i < |p| ==> IsOpen(p[i]))
      && (forall i :: 0 <= i < |p| - 1 ==> Adjacent(p[i], p[i + 1]))
    }

    /** A 4-connected open path leads from `from` to `to`. */
    ghost predicate Reachable(from: Cell, to: Cell)
      reads grid
      requires Valid()
    {
      exists p :: IsWalk(p) && 0 < |p| && p[0] == from && p[|p| - 1] == to
    }

    /** No open neighbour of a cell in the region lies outside it. */
    ghost predicate Closed(region: set<Cell>)
      reads grid
      requires Valid()
    {
      forall c :: c in region ==> OpenNeighbours(c) <= region
    }

    lemma {:induction false} WalkStaysInClosedRegion(region: set<Cell>, p: seq<Cell>, k: nat)
      requires Valid() && Closed(region) && IsWalk(p)
      requires 0 < |p| && p[0] in region && k < |p|
      ensures p[k] in region
    {
      if k > 0 {
        WalkStaysInClosedRegion(region, p, k - 1);
        OpenNeighboursAreAdjacentOpenCells(p[k - 1]);
        assert Adjacent(p[k - 1], p[k]);
      }
    }

    /** A walk cannot leave a closed region: no cell outside it is reachable from inside. */
    lemma ClosedRegionBlocksWalks(region: set<Cell>, from: Cell, to: Cell)
      requires Valid() && Closed(region) && from in region && to !in region
      ensures !Reachable(from, to)
    {
      if Reachable(from, to) {
        var p :| IsWalk(p) && 0 < |p| && p[0] == from && p[|p| - 1] == to;
        WalkStaysInClosedRegion(region, p, |p| - 1);
      }
    }

    /** A walk extended by an open neighbour of its last cell is a walk. */
    lemma WalkExtends(p: seq<Cell>, c: Cell)
      requires Valid() && IsWalk(p) && 0 < |p| && IsOpen(c) && Adjacent(p[|p| - 1], c)
      ensures IsWalk(p + [c])
    {
    }

    /**
     * With every cell open, the goal is reachable from the start: along
     * row 0, then down the last column.
     */
    lemma AllOpenIsConnected()
      requires Valid()
      requires forall i, j :: 0 <= i < size && 0 <= j < size ==> grid[i, j] == 0
      ensures Reachable((0, 0), (size - 1, size - 1))
    {
      var n := size;
      var p := seq(2 * n - 1, k requires 0 <= k < 2 * n - 1 => if k < n then (0, k) else (k - n + 1, n - 1));
      forall k | 0 <= k < |p| - 1 ensures Adjacent(p[k], p[k + 1]) {
        if k < n - 1 {
          assert p[k] == (0, k) && p[k + 1] == (0, k + 1);
        } else {
          assert p[k] == (k - n + 1, n - 1) && p[k + 1] == (k - n + 2, n - 1);
        }
      }
      assert IsWalk(p);
      assert p[|p| - 1] == (n - 1, n - 1);
    }

    /**
     * With every cell a wall except the forced-open start and goal, and the
     * two distinct, the goal is not reachable.
     */
    lemma OnlyCornersOpenIsDisconnected()
      requires Valid() && 2 <= size
      requires forall i, j :: 0 <= i < size && 0 <= j < size && (i, j) != (0, 0) && (i, j) != (size - 1, size - 1) ==> grid[i, j] == 1
      ensures !Reachable((0, 0), (size - 1, size - 1))
    {
      assert !IsOpen((0, 1)) && !IsOpen((1, 0));
      assert OpenNeighbours((0, 0)) == {};
      ClosedRegionBlocksWalks({(0, 0)}, (0, 0), (size - 1, size - 1));
    }
  }

  /**
   * `Map(size, probability)`: refuses a probability outside [0, 1] (checked
   * first) and a size below 1, and otherwise builds the thresholded grid.
   * With probability 0 the goal is always reachable; with probability 1
   * and more than one cell it never is.
   */
  method NewMap(size: int, probability: real, draws: seq<seq<real>>) returns (r: Result<Map, MapError>)
    requires 0 <= size ==> DrawShape(draws, size)
    ensures r.Failure? <==> probability > 1.0 || probability < 0.0 || size < 1
    ensures r.Failure? ==> r.error == (if probability > 1.0 || probability < 0.0 then ProbabilityOutOfRange else BadSize)
    ensures r.Success? ==> fresh(r.value) && fresh(r.value.grid) && r.value.Valid()
    ensures r.Success? ==> r.value.size == size && r.value.probability == probability
    ensures r.Success? ==> r.value.solvedPath == SolvedPath(NOT_AVAILABLE, NotAvailable, [])
    ensures r.Success? ==> forall i, j :: 0 <= i < size && 0 <= j < size && (i, j) != (0, 0) && (i, j) != (size - 1, size - 1) ==>
                             (r.value.grid[i, j] == 1 <==> draws[i][j] < probability)
    ensures r.Success? && probability == 0.0 ==> r.value.Reachable((0, 0), (size - 1, size - 1))
    ensures r.Success? && probability == 1.0 && size >= 2 ==> !r.value.Reachable((0, 0), (size - 1, size - 1))
  {
    if probability > 1.0 || probability < 0.0 {
      return Failure(ProbabilityOutOfRange);
    }
    if size < 1 {
      return Failure(BadSize);
    }
    var m := new Map(size, probability, draws);
    if probability == 0.0 {
      m.AllOpenIsConnected();
    } else if probability == 1.0 && size >= 2 {
      m.OnlyCornersOpenIsDisconnected();
    }
    return Success(m);
  }
}
