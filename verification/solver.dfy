/**
 * Depth-first search from the start (0, 0) to the goal (size - 1, size - 1)
 * over a Map, with an explicit stack, a `visited` set and a child-to-parent
 * map, and the path read back from the parent links once the goal is popped.
 * Two quirks of the program are kept: the start is not put in `visited`
 * before the loop, so it can be pushed once more, and it is then visited
 * and gets a parent entry of its own; and the path handed back holds
 * neither the start nor the goal, only the cells between them.
 */
module Solver {
  import opened MapGenerator

  /** How a search ends: with a result, or with the KeyError raised on a missing parent entry. */
  datatype Outcome = Returned(result: SolvedPath) | KeyError(key: Cell)

  /** The link out of `k` goes to (0, 0) or to a key of strictly smaller rank. */
  ghost predicate LinkDescends(parent: map<Cell, Cell>, rank: map<Cell, nat>, k: Cell) {
    && k in parent && k in rank
    && (parent[k] == (0, 0) || (parent[k] in parent && parent[k] in rank && rank[parent[k]] < rank[k]))
  }

  /**
   * A parent map whose links all lead to (0, 0): every key's link descends
   * in rank.  The ranks only witness that following links ends.  (The
   * quantifier fires only on an explicit LinkDescends term, so that a
   * parent cell does not in turn set off the same fact about its parent.)
   */
  ghost predicate Ranked(parent: map<Cell, Cell>, rank: map<Cell, nat>) {
    forall k {:trigger LinkDescends(parent, rank, k)} :: k in parent ==> LinkDescends(parent, rank, k)
  }

  /**
   * The cells strictly between (0, 0) and the key `k` on its parent chain,
   * in order from (0, 0) towards `k`.
   */
  ghost function Ancestry(parent: map<Cell, Cell>, rank: map<Cell, nat>, k: Cell): seq<Cell>
    requires Ranked(parent, rank) && k in parent
    decreases if k in rank then rank[k] else 0
  {
    assert LinkDescends(parent, rank, k);
    var p := parent[k];
    if p == (0, 0) then [] else Ancestry(parent, rank, p) + [p]
  }

  /**
   * The chain behind `k` is empty exactly when `k`'s parent is (0, 0); it
   * never holds (0, 0), ends in `k`'s parent, and its ranks strictly
   * increase and stay below `k`'s, so no cell appears twice and `k` is not
   * on it.
   */
  lemma {:induction false} AncestryShape(parent: map<Cell, Cell>, rank: map<Cell, nat>, k: Cell)
    requires Ranked(parent, rank) && k in parent
    decreases if k in rank then rank[k] else 0
    ensures k in rank
    ensures var a := Ancestry(parent, rank, k);
      && (a == [] <==> parent[k] == (0, 0))
      && (0, 0) !in a
      && (a != [] ==> a[|a| - 1] == parent[k])
      && (forall i :: 0 <= i < |a| ==> a[i] in rank && rank[a[i]] < rank[k])
      && (forall i, j :: 0 <= i < j < |a| ==> rank[a[i]] < rank[a[j]])
  {
    assert LinkDescends(parent, rank, k);
    if parent[k] != (0, 0) {
      AncestryShape(parent, rank, parent[k]);
    }
  }

  lemma LastSplit(s: seq<Cell>)
    requires s != []
    ensures s == s[..|s| - 1] + [s[|s| - 1]]
  {
  }

  lemma AppendAssociates(s: seq<Cell>, t: seq<Cell>, c: Cell)
    ensures s + t + [c] == s + (t + [c])
  {
  }

  /** Adding cells from `all` to a set leaves fewer of `all` outside it. */
  lemma GrowingSetShrinksRest(all: set<Cell>, before: set<Cell>, after: set<Cell>)
    requires before <= after <= all && before != after
    ensures |all - after| < |all - before|
  {
    assert !(after <= before);
    var x :| x in after && x !in before;
    assert all - after <= (all - before) - {x};
    SubsetCardinality(all - after, (all - before) - {x});
  }

  lemma {:induction false} SubsetCardinality(a: set<Cell>, b: set<Cell>)
    requires a <= b
    ensures |a| <= |b|
    decreases |b|
  {
    if a != {} {
      var x :| x in a;
      SubsetCardinality(a - {x}, b - {x});
    }
  }

  /** Reverses a list, as `path[::-1]` does. */
  function Reversed(s: seq<Cell>): (r: seq<Cell>)
    ensures |r| == |s|
    ensures forall i :: 0 <= i < |s| ==> r[i] == s[|s| - 1 - i]
  {
    if s == [] then [] else [s[|s| - 1]] + Reversed(s[..|s| - 1])
  }

  /** Every recorded link joins a cell of `open` to a neighbour in `open`. */
  ghost predicate LinksFollowGrid(open: set<Cell>, parent: map<Cell, Cell>) {
    forall k {:trigger k in parent} :: k in parent ==> k in open && parent[k] in open && Adjacent(parent[k], k)
  }

  /**
   * What the search knows about the cells it has found: they are open, they
   * are exactly the keys of the parent map (and of the ranks), every link
   * follows the grid and leads back to the start, and every rank is below
   * the number of cells found.
   */
  ghost predicate Discovered(open: set<Cell>, visited: set<Cell>, parent: map<Cell, Cell>, rank: map<Cell, nat>) {
    && visited <= open
    && parent.Keys == visited && rank.Keys == visited
    && Ranked(parent, rank) && LinksFollowGrid(open, parent)
    && (forall c :: c in rank ==> rank[c] < |visited|)
  }

  /**
   * Recording an open, unvisited neighbour of a found cell (or of the
   * start), with that cell as its parent and the next rank, keeps
   * Discovered.
   */
  lemma PushKeepsDiscovered(open: set<Cell>, visited: set<Cell>, parent: map<Cell, Cell>, rank: map<Cell, nat>,
                            cell: Cell, child: Cell)
    requires Discovered(open, visited, parent, rank)
    requires cell == (0, 0) || cell in visited
    requires cell in open && child in open && Adjacent(cell, child) && child !in visited
    ensures Discovered(open, visited + {child}, parent[child := cell], rank[child := |visited|])
  {
    var parent', rank' := parent[child := cell], rank[child := |visited|];
    forall k | k in parent' ensures LinkDescends(parent', rank', k) {
      if k != child {
        assert LinkDescends(parent, rank, k);
      } else if cell != (0, 0) {
        assert cell in rank;
      }
    }
  }

  /** Everything on the stack is the start or a visited cell. */
  ghost predicate OnStack(stack: seq<Cell>, visited: set<Cell>) {
    forall i :: 0 <= i < |stack| ==> stack[i] == (0, 0) || stack[i] in visited
  }

  /** Pushing cells that are now visited keeps OnStack. */
  lemma OnStackGrows(stack: seq<Cell>, added: seq<Cell>, before: set<Cell>, after: set<Cell>)
    requires OnStack(stack, before) && before <= after
    requires FreshPushes(added, before, after)
    ensures OnStack(stack + added, after)
  {
    var s := stack + added;
    forall i | 0 <= i < |s| ensures s[i] == (0, 0) || s[i] in after {
      if i >= |stack| {
        assert s[i] == added[i - |stack|];
      }
    }
  }

  /**
   * The cells one expansion pushed, against `visited` before and after it:
   * each was unvisited before and is visited after, none is pushed twice,
   * and every newly visited cell was pushed.
   */
  ghost predicate FreshPushes(added: seq<Cell>, before: set<Cell>, after: set<Cell>) {
    && (forall i :: 0 <= i < |added| ==> added[i] !in before && added[i] in after)
    && (forall i, j :: 0 <= i < j < |added| ==> added[i] != added[j])
    && (forall c {:trigger c in after} :: c in after && c !in before ==> c in added)
  }

  lemma FreshPushesExtend(added: seq<Cell>, child: Cell, before: set<Cell>, after: set<Cell>)
    requires FreshPushes(added, before, after) && before <= after && child !in after
    ensures FreshPushes(added + [child], before, after + {child})
  {
    var a := added + [child];
    forall i | 0 <= i < |a| ensures a[i] !in before && a[i] in after + {child} {
      if i < |added| {
        assert a[i] == added[i];
      }
    }
  }

  /** Entries of `before` are kept, and every entry added points to `cell`. */
  ghost predicate ParentsKept(before: map<Cell, Cell>, after: map<Cell, Cell>, cell: Cell) {
    && (forall c :: c in before ==> c in after && after[c] == before[c])
    && (forall c :: c in after && c !in before ==> after[c] == cell)
  }

  lemma ParentsKeptExtend(before: map<Cell, Cell>, after: map<Cell, Cell>, cell: Cell, child: Cell)
    requires ParentsKept(before, after, cell) && child !in before
    ensures ParentsKept(before, after[child := cell], cell)
  {
  }

  /**
   * A log of pushes that lists exactly the visited cells, none of them
   * twice: a cell is marked visited when, and only when, it is pushed.
   * (The log is as long as `visited` is large; LogCoversVisited turns that
   * into membership.)
   */
  ghost predicate PushLog(pushed: seq<Cell>, visited: set<Cell>) {
    && (forall i :: 0 <= i < |pushed| ==> pushed[i] in visited)
    && (forall i, j :: 0 <= i < j < |pushed| ==> pushed[i] != pushed[j])
    && |pushed| == |visited|
  }

  /** Every visited cell is in the push log. */
  lemma LogCoversVisited(pushed: seq<Cell>, visited: set<Cell>)
    requires PushLog(pushed, visited)
    ensures forall c :: c in visited ==> c in pushed
  {
    var logged := set c | c in pushed;
    DistinctCardinality(pushed);
    forall c | c in visited ensures c in pushed {
      if c !in pushed {
        SubsetCardinality(logged, visited - {c});
      }
    }
  }

  /**
   * Appending pushes of cells unvisited before and visited after keeps the
   * log exact and free of repeats.
   */
  lemma PushLogExtends(pushed: seq<Cell>, added: seq<Cell>, before: set<Cell>, after: set<Cell>)
    requires PushLog(pushed, before) && before <= after
    requires FreshPushes(added, before, after)
    ensures PushLog(pushed + added, after)
  {
    assert (set c | c in added) == after - before;
    DistinctCardinality(added);
    assert before + (after - before) == after;
    DisjointUnionCardinality(before, after - before);
    var log := pushed + added;
    forall i, j | 0 <= i < j < |log| ensures log[i] != log[j] {
      if i < |pushed| <= j {
        assert log[i] in before && log[j] == added[j - |pushed|];
      }
    }
  }

  lemma {:induction false} DistinctCardinality(s: seq<Cell>)
    requires forall i, j :: 0 <= i < j < |s| ==> s[i] != s[j]
    ensures |set c | c in s| == |s|
  {
    if s != [] {
      var t := s[..|s| - 1];
      DistinctCardinality(t);
      assert (set c | c in s) == (set c | c in t) + {s[|s| - 1]};
      assert s[|s| - 1] !in (set c | c in t);
    }
  }

  /**
   * A log of distinct open cells is no longer than the number of positions
   * of the map: each cell is pushed at most once, so at most size * size
   * cells are pushed.
   */
  lemma PushCountBound(m: Map, pushed: seq<Cell>)
    requires m.Valid()
    requires forall i, j :: 0 <= i < j < |pushed| ==> pushed[i] != pushed[j]
    requires forall i :: 0 <= i < |pushed| ==> m.IsOpen(pushed[i])
    ensures |pushed| <= m.size * m.size
  {
    var cells := set c | c in pushed;
    DistinctCardinality(pushed);
    SubsetCardinality(cells, m.AllCells());
    m.AllCellsCount();
  }

  /** Along links that follow the grid, (0, 0), the chain behind `k`, and `k` form a walk. */
  lemma {:induction false} AncestryIsWalk(m: Map, open: set<Cell>, parent: map<Cell, Cell>, rank: map<Cell, nat>, k: Cell)
    requires m.Valid() && m.OpenCellsAre(open) && Ranked(parent, rank) && LinksFollowGrid(open, parent) && k in parent
    decreases if k in rank then rank[k] else 0
    ensures m.IsWalk([(0, 0)] + Ancestry(parent, rank, k) + [k])
  {
    assert LinkDescends(parent, rank, k);
    var p := parent[k];
    if p == (0, 0) {
      assert [(0, 0)] + Ancestry(parent, rank, k) + [k] == [p, k];
    } else {
      AncestryIsWalk(m, open, parent, rank, p);
      var w := [(0, 0)] + Ancestry(parent, rank, p) + [p];
      m.WalkExtends(w, k);
      assert [(0, 0)] + Ancestry(parent, rank, k) + [k] == w + [k];
    }
  }

  class Solution {
    const aMap: Map
    var result: string
    const startPosition: Cell
    const endPosition: Cell

    constructor (aMap: Map)
      ensures this.aMap == aMap && result == NOT_AVAILABLE
      ensures startPosition == (0, 0) && endPosition == (aMap.size - 1, aMap.size - 1)
    {
      this.aMap := aMap;
      result := NOT_AVAILABLE;
      startPosition := (0, 0);
      endPosition := (aMap.size - 1, aMap.size - 1);
    }

    ghost predicate Valid()
      reads aMap.grid
    {
      aMap.Valid() && startPosition == (0, 0) && endPosition == (aMap.size - 1, aMap.size - 1)
    }

    /**
     * What a found path is: with the start put before it and the goal after
     * it, a walk over open cells; it holds neither endpoint and no cell twice.
     */
    ghost predicate IsSolutionPath(path: seq<Cell>)
      reads aMap.grid
      requires Valid()
    {
      && aMap.IsWalk([startPosition] + path + [endPosition])
      && startPosition !in path && endPosition !in path
      && forall i, j :: 0 <= i < j < |path| ==> path[i] != path[j]
    }

    /** A solution path, with the two corners around it, is a walk from start to goal. */
    lemma SolutionPathShowsReachable(path: seq<Cell>)
      requires Valid() && IsSolutionPath(path)
      ensures aMap.Reachable(startPosition, endPosition)
    {
      var w := [startPosition] + path + [endPosition];
      assert w[0] == startPosition && w[|w| - 1] == endPosition;
    }

    /** The chain behind the goal, in a parent map the search could have built, is a solution path. */
    lemma ChainToGoalIsSolutionPath(open: set<Cell>, parent: map<Cell, Cell>, rank: map<Cell, nat>)
      requires Valid() && aMap.OpenCellsAre(open) && Ranked(parent, rank) && LinksFollowGrid(open, parent)
      requires endPosition in parent
      ensures IsSolutionPath(Ancestry(parent, rank, endPosition))
      ensures aMap.Reachable(startPosition, endPosition)
    {
      var a := Ancestry(parent, rank, endPosition);
      AncestryIsWalk(aMap, open, parent, rank, endPosition);
      AncestryShape(parent, rank, endPosition);
      assert endPosition !in a by {
        forall i | 0 <= i < |a| ensures a[i] != endPosition {
          assert rank[a[i]] < rank[endPosition];
        }
      }
      SolutionPathShowsReachable(a);
    }

    /**
     * `build_path`: follows parent links from the goal's parent back to
     * (0, 0), collecting every cell before (0, 0), and reverses the list.
     * A goal without a parent entry raises KeyError.
     */
    method BuildPath(pathDictionary: map<Cell, Cell>, ghost rank: map<Cell, nat>) returns (r: Result<seq<Cell>, Cell>)
      requires Ranked(pathDictionary, rank)
      ensures r.Failure? <==> endPosition !in pathDictionary
      ensures r.Failure? ==> r.error == endPosition
      ensures r.Success? ==> r.value == Ancestry(pathDictionary, rank, endPosition)
      ensures r.Success? ==> (r.value == [] <==> pathDictionary[endPosition] == (0, 0))
      ensures r.Success? ==> (0, 0) !in r.value && endPosition !in r.value
    {
      if endPosition !in pathDictionary {
        return Failure(endPosition);
      }
      var path: seq<Cell> := [];
      var current := pathDictionary[endPosition];
      assert LinkDescends(pathDictionary, rank, endPosition);
      while current != (0, 0)
        invariant current == (0, 0) || current in pathDictionary
        invariant Ancestry(pathDictionary, rank, endPosition) ==
                  (if current == (0, 0) then [] else Ancestry(pathDictionary, rank, current) + [current]) + Reversed(path)
        decreases if current != (0, 0) && current in rank then rank[current] + 1 else 0
      {
        assert LinkDescends(pathDictionary, rank, current);
        assert Reversed(path + [current]) == [current] + Reversed(path);
        path := path + [current];
        current := pathDictionary[current];
      }
      AncestryShape(pathDictionary, rank, endPosition);
      return Success(Reversed(path));
    }

    /**
     * What the search knows about the cells it has expanded (popped and not
     * the goal): their open neighbours are all visited, the goal is not
     * among them, and every visited cell, and the start, is expanded or
     * still on the stack.
     */
    ghost predicate Frontier(open: set<Cell>, expanded: set<Cell>, stack: seq<Cell>, visited: set<Cell>) {
      && (forall c, d {:trigger c in expanded, Adjacent(c, d)} :: c in expanded && d in open && Adjacent(c, d) ==> d in visited)
      && (forall c {:trigger c in visited} :: c in visited ==> c in expanded || c in stack)
      && ((0, 0) in expanded || (0, 0) in stack)
      && endPosition !in expanded
    }

    /**
     * Expanding a popped cell other than the goal keeps what the search
     * knows about its stack, its push log and its expanded cells, and a
     * new visited cell leaves fewer open cells unvisited.
     */
    lemma ExpandKeepsSearch(open: set<Cell>, expanded: set<Cell>, stack0: seq<Cell>, cell: Cell, pushed: seq<Cell>,
                            added: seq<Cell>, visited0: set<Cell>, visited: set<Cell>)
      requires OnStack(stack0 + [cell], visited0) && PushLog(pushed, visited0)
      requires Frontier(open, expanded, stack0 + [cell], visited0)
      requires cell != endPosition && visited0 <= visited <= open
      requires forall d :: d in open && Adjacent(cell, d) ==> d in visited
      requires FreshPushes(added, visited0, visited)
      ensures OnStack(stack0 + added, visited) && PushLog(pushed + added, visited)
      ensures Frontier(open, expanded + {cell}, stack0 + added, visited)
      ensures visited != visited0 ==> |open - visited| < |open - visited0|
    {
      assert OnStack(stack0, visited0) by {
        forall i | 0 <= i < |stack0| ensures stack0[i] == (0, 0) || stack0[i] in visited0 {
          assert stack0[i] == (stack0 + [cell])[i];
        }
      }
      OnStackGrows(stack0, added, visited0, visited);
      PushLogExtends(pushed, added, visited0, visited);
      if visited != visited0 {
        GrowingSetShrinksRest(open, visited0, visited);
      }
      forall c | c in visited || c == (0, 0) ensures c in expanded + {cell} || c in stack0 + added {
        if c !in visited0 && c != (0, 0) {
          assert c in added;
        } else if c !in expanded && c != cell {
          assert c in stack0 + [cell];
        }
      }
    }

    /**
     * When the stack is empty, the start and the visited cells form a
     * closed region that misses the goal, so no walk reaches the goal.
     */
    lemma ExhaustedSearchIsClosed(open: set<Cell>, expanded: set<Cell>, visited: set<Cell>)
      requires Valid() && aMap.OpenCellsAre(open) && Frontier(open, expanded, [], visited)
      ensures aMap.Closed(visited + {(0, 0)}) && endPosition !in visited + {(0, 0)}
      ensures !aMap.Reachable(startPosition, endPosition)
    {
      var region := visited + {(0, 0)};
      forall c | c in region ensures aMap.OpenNeighbours(c) <= region {
        aMap.OpenNeighboursAreAdjacentOpenCells(c);
        assert c in expanded;
        forall d | d in aMap.OpenNeighbours(c) ensures d in region {
          assert aMap.IsOpen(d) && Adjacent(c, d);
        }
      }
      aMap.ClosedRegionBlocksWalks(region, startPosition, endPosition);
    }

    /**
     * The `for` loop of `dfs`: for each open neighbour of the popped cell,
     * taken from a set in no particular order, that is not yet visited,
     * records the cell as its parent, pushes it and marks it visited.
     * The pushed cells are new to `visited` and distinct, and parent
     * entries already recorded are never overwritten.
     */
    method PushUnvisitedChildren(ghost open: set<Cell>, cell: Cell, stack: seq<Cell>, visited: set<Cell>,
                                 parentCell: map<Cell, Cell>, ghost rank: map<Cell, nat>)
      returns (stack': seq<Cell>, visited': set<Cell>, parentCell': map<Cell, Cell>,
               ghost rank': map<Cell, nat>, ghost added: seq<Cell>)
      requires Valid() && aMap.OpenCellsAre(open) && Discovered(open, visited, parentCell, rank)
      requires (cell == (0, 0) || cell in visited) && cell in open
      ensures Discovered(open, visited', parentCell', rank')
      ensures visited <= visited'
      ensures forall d :: d in open && Adjacent(cell, d) ==> d in visited'
      ensures stack' == stack + added
      ensures FreshPushes(added, visited, visited')
      ensures visited' == visited ==> added == []
      ensures ParentsKept(parentCell, parentCell', cell)
    {
      stack', visited', parentCell', rank', added := stack, visited, parentCell, rank, [];
      var children := aMap.ConnectedCells(cell);
      ghost var neighbours := children;
      while children != {}
        invariant Discovered(open, visited', parentCell', rank')
        invariant children <= neighbours
        invariant neighbours - children <= visited'
        invariant visited <= visited'
        invariant stack' == stack + added
        invariant FreshPushes(added, visited, visited')
        invariant visited' == visited ==> added == []
        invariant ParentsKept(parentCell, parentCell', cell)
      {
        var child :| child in children;
        children := children - {child};
        if child !in visited' {
          PushKeepsDiscovered(open, visited', parentCell', rank', cell, child);
          FreshPushesExtend(added, child, visited, visited');
          ParentsKeptExtend(parentCell, parentCell', cell, child);
          AppendAssociates(stack, added, child);
          parentCell' := parentCell'[child := cell];
          stack' := stack' + [child];
          rank' := rank'[child := |visited'|];
          visited' := visited' + {child};
          added := added + [child];
        }
      }
      forall d | d in open && Adjacent(cell, d) ensures d in visited' {
        assert aMap.IsOpen(d) && d in neighbours;
      }
    }

    /**
     * The `while` loop of `dfs`: pops the most recent cell and, unless it is
     * the goal, pushes each open neighbour not yet visited, recording its
     * parent.  It stops when the goal is popped (`goalPopped`) or the stack
     * is empty.  When the goal is popped, it has a parent entry unless the
     * map has a single cell; when the stack runs empty, every expanded cell
     * has its open neighbours visited, the start and every visited cell are
     * expanded, and the goal is not.  `pushed` lists the pushes after the
     * first, in order: exactly the visited cells, none twice.
     */
    method Search(ghost open: set<Cell>)
      returns (goalPopped: bool, visited: set<Cell>, parentCell: map<Cell, Cell>,
               ghost rank: map<Cell, nat>, ghost expanded: set<Cell>, ghost pushed: seq<Cell>)
      requires Valid() && aMap.OpenCellsAre(open)
      ensures Discovered(open, visited, parentCell, rank)
      ensures PushLog(pushed, visited)
      ensures goalPopped ==> (endPosition in parentCell <==> aMap.size != 1)
      ensures !goalPopped ==> Frontier(open, expanded, [], visited) && aMap.size != 1
    {
      assert aMap.IsOpen(startPosition);
      var stack := [startPosition];
      visited, parentCell, rank, expanded, pushed := {}, map[], map[], {}, [];

      while stack != []
        invariant Discovered(open, visited, parentCell, rank)
        invariant OnStack(stack, visited)
        invariant PushLog(pushed, visited)
        invariant Frontier(open, expanded, stack, visited)
        invariant endPosition == (0, 0) ==> stack == [(0, 0)] && visited == {}
        decreases |open - visited|, |stack|
      {
        ghost var popped := stack;
        var cell := stack[|stack| - 1];
        stack := stack[..|stack| - 1];
        LastSplit(popped);
        if cell == endPosition {
          if aMap.size == 1 {
            assert parentCell.Keys == {};
          } else {
            assert cell in visited;
          }
          return true, visited, parentCell, rank, expanded, pushed;
        }
        ghost var stack0, visited0 := stack, visited;
        ghost var added: seq<Cell>;
        stack, visited, parentCell, rank, added := PushUnvisitedChildren(open, cell, stack, visited, parentCell, rank);
        ExpandKeepsSearch(open, expanded, stack0, cell, pushed, added, visited0, visited);
        pushed := pushed + added;
        expanded := expanded + {cell};
      }
      goalPopped := false;
    }

    /**
     * `dfs`: runs the search; on the goal, builds the path from the parent
     * links.  The status is PATH_FOUND exactly when an open path joins the
     * start to the goal; a one-cell map ends in the KeyError of
     * `build_path`.  `pushed` lists the pushes after the first, in order:
     * no cell twice, every one an open cell, so at most size * size of
     * them; a found path and the goal were all pushed.
     */
    method Dfs() returns (r: Outcome, ghost pushed: seq<Cell>)
      requires Valid()
      ensures r.KeyError? <==> aMap.size == 1
      ensures r.KeyError? ==> r.key == endPosition
      ensures r.Returned? ==> (r.result.status == PATH_FOUND <==> aMap.Reachable(startPosition, endPosition))
      ensures r.Returned? && r.result.status == PATH_FOUND ==>
                r.result.length == Count(|r.result.path|) && IsSolutionPath(r.result.path)
      ensures r.Returned? && r.result.status != PATH_FOUND ==>
                r.result == SolvedPath(PATH_NOT_FOUND, NotAvailable, [])
      ensures forall i, j :: 0 <= i < j < |pushed| ==> pushed[i] != pushed[j]
      ensures forall i :: 0 <= i < |pushed| ==> aMap.IsOpen(pushed[i])
      ensures |pushed| <= aMap.size * aMap.size
      ensures r.Returned? && r.result.status == PATH_FOUND ==>
                endPosition in pushed && forall c :: c in r.result.path ==> c in pushed
    {
      ghost var open := aMap.OpenCellSet();
      var goalPopped, visited, parentCell;
      ghost var rank, expanded;
      goalPopped, visited, parentCell, rank, expanded, pushed := Search(open);
      PushCountBound(aMap, pushed);
      LogCoversVisited(pushed, visited);
      if goalPopped {
        var path := BuildPath(parentCell, rank);
        if path.Failure? {
          return KeyError(path.error), pushed;
        }
        ChainToGoalIsSolutionPath(open, parentCell, rank);
        AncestryShape(parentCell, rank, endPosition);
        return Returned(SolvedPath(PATH_FOUND, Count(|path.value|), path.value)), pushed;
      }
      ExhaustedSearchIsClosed(open, expanded, visited);
      return Returned(SolvedPath(PATH_NOT_FOUND, NotAvailable, [])), pushed;
    }
  }
}
