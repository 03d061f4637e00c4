# Grid path finding: map generation and depth-first search

This project models the core of `MapGenerator.py`, a small grid
path-finding demo, and proves properties of that model.

`Map` is a square matrix of 0 (open) and 1 (wall).
- Each cell becomes a wall when its uniform draw is below the wall
  probability.
- The start (0, 0) and the goal (size - 1, size - 1) are then forced open.
- A probability outside [0, 1] is refused with a ValueError.
- `in_bounds` checks a cell against the matrix.
- `connected_cells` collects the open, in-bounds orthogonal neighbours of a
  cell into a set.

`Solution` runs a depth-first search from the start to the goal.
- The search keeps an explicit stack, a `visited` set and a child-to-parent
  map `parentCell`.
- When the goal is popped, `build_path` follows the parent links back to
  (0, 0) and reverses what it collected.
- A run ends as `[PATH_FOUND, len(path), path]` or as
  `[PATH_NOT_FOUND, "N/A", []]`.

The model is split into two modules:
- `map_generator.dfy` (module `MapGenerator`) holds the grid. The random
  draws are a parameter: a `size` by `size` matrix of reals. It also defines
  walks over open cells and reachability, which the search results are
  stated against.
- `solver.dfy` (module `Solver`) holds the search. `Dfs` uses the `while`
  loop in `Search` and the inner `for` loop in `PushUnvisitedChildren`.
  - `connected_cells` returns a Python set, so its iteration order is
    unknown. `PushUnvisitedChildren` therefore takes the neighbours in an
    arbitrary order (`:|`), and every property proved holds for every
    order.
  - Termination is proved as well. The search loop shrinks the number of
    unvisited open cells, or else the stack. The parent links descend
    along a ghost rank, so following them ends at (0, 0).

The model keeps two behaviours exactly as the code has them:
- **The start is not put in `visited` before the loop**
  (`MapGenerator.py:128-129`). It can be pushed once more, and it is then
  visited and gets a parent entry of its own.
- **The path holds neither endpoint.** `build_path` starts from the goal's
  parent and stops before appending (0, 0). The path returned holds only
  the cells strictly between start and goal.

Three facts about the code shape the model:
- The path leaves out the goal as well as the start. `build_path` begins
  at the goal's parent (`MapGenerator.py:117-121`).
- On a one-cell map, start and goal coincide and `parentCell` is empty, so
  `build_path` raises KeyError at `MapGenerator.py:117`. `Dfs` returns the
  `KeyError` outcome exactly when the size is 1.
- `connected_cells` collects the neighbours in a set
  (`MapGenerator.py:52`), so the search visits them in no fixed order.

`Dfs` has no `modifies` clause, so it changes neither the map nor the
solution. Its status is PATH_FOUND exactly when the goal is reachable. Two
runs on the same map therefore report the same status.

## Model

| member | source | states |
|---|---|---|
| MapGenerator.CandidatesAreAdjacent | MapGenerator.py:53 | a cell is one of the four candidates listed by `connected_cells` exactly when it is at Manhattan distance 1 |
| MapGenerator.Map.constructor | MapGenerator.py:22-42 | every cell other than the two corners is a wall exactly when its draw is below the probability; both corners are open; every cell is 0 or 1; with draws in [0, 1), probability 0 leaves every cell open and probability 1 walls every cell but the corners; `solved_path` starts as `["N/A", "N/A", []]` |
| MapGenerator.NewMap | MapGenerator.py:22-42 | construction fails exactly when the probability is above 1 or below 0 (ValueError, checked first) or the size is below 1; otherwise the map is freshly built, with the constructor's thresholding and forced-open corners; with probability 0 the goal is reachable, and with probability 1 and size >= 2 it is not |
| MapGenerator.Map.InBounds | MapGenerator.py:60-68 | `in_bounds`: true exactly when both coordinates lie in [0, size); AllCells and AllCellsCount state what it accepts as a whole |
| MapGenerator.Map.AllCells | MapGenerator.py:60-68 | the set of positions `in_bounds` accepts: a cell is in it exactly when InBounds holds |
| MapGenerator.Map.AllCellsCount | MapGenerator.py:60-68 | `in_bounds` accepts exactly size * size positions; PushCountBound uses this to bound the pushes of a search |
| MapGenerator.Map.OpenNeighboursAreAdjacentOpenCells | MapGenerator.py:44-58 | the cells `connected_cells` keeps are exactly the open cells at Manhattan distance 1, and never the cell itself |
| MapGenerator.Map.ConnectedCells | MapGenerator.py:44-58 | the loop over the four candidates returns exactly the in-bounds open orthogonal neighbours: never the cell itself, at most 4 of them |
| MapGenerator.Map.ClosedRegionBlocksWalks | MapGenerator.py:132-144 | if a set of cells holds every open neighbour of each of its cells, no walk leads from inside it to outside it; this is what a NOT_FOUND result means |
| MapGenerator.Map.AllOpenIsConnected | MapGenerator.py:36-39 | when no cell is a wall, the goal is reachable from the start, along row 0 and then the last column; NewMap applies it to probability 0 |
| MapGenerator.Map.OnlyCornersOpenIsDisconnected | MapGenerator.py:36-39 | when every cell but the two forced-open corners is a wall and size >= 2, the goal is not reachable; NewMap applies it to probability 1 |
| Solver.Reversed | MapGenerator.py:121 | `path[::-1]`: same length, element i is element length-1-i of the input |
| Solver.AncestryShape | MapGenerator.py:116-121 | the chain of parents behind a key, from (0, 0) on, is empty exactly when the key's parent is (0, 0); it never holds (0, 0), ends in the key's parent, and has no repeated cell and does not contain the key |
| Solver.PushKeepsDiscovered | MapGenerator.py:138-142 | recording an unvisited open neighbour with the popped cell as its parent keeps the search state sound: visited cells are open, they are exactly the parent map's keys, every link joins adjacent open cells, and every chain leads back to (0, 0) |
| Solver.OnStackGrows | MapGenerator.py:141-142 | pushing cells that are then marked visited keeps every stack entry the start or a visited cell |
| Solver.FreshPushesExtend | MapGenerator.py:139-142 | pushing a child that is not yet visited keeps the record of one expansion: the pushed cells were unvisited before, are visited after, are distinct, and account for every newly visited cell |
| Solver.ParentsKeptExtend | MapGenerator.py:139-140 | writing the parent of a child without an entry keeps every earlier entry and points each new one at the popped cell |
| Solver.PushLogExtends | MapGenerator.py:139-142 | because of the `visited` check, appending one expansion's pushes keeps the log of all pushes free of repeats and equal, as a set, to the visited cells |
| Solver.LogCoversVisited | MapGenerator.py:139-142 | every visited cell appears in the log of pushes, since cells are marked visited only as they are pushed |
| Solver.PushCountBound | MapGenerator.py:138-142 | a log of distinct open cells has at most size * size entries: each cell is pushed at most once |
| Solver.GrowingSetShrinksRest | MapGenerator.py:132-142 | marking a new cell visited leaves strictly fewer open cells unvisited, which bounds the loop |
| Solver.AncestryIsWalk | MapGenerator.py:117-121 | along links that join adjacent open cells, (0, 0), then a key's chain of parents, then the key itself form a walk over open cells |
| Solver.Solution.constructor | MapGenerator.py:103-108 | the solution keeps the map, its result starts as "N/A", the start is (0, 0) and the goal is (size - 1, size - 1) |
| Solver.Solution.SolutionPathShowsReachable | MapGenerator.py:134-136 | a found path, with the start before it and the goal after it, is a walk from start to goal |
| Solver.Solution.ChainToGoalIsSolutionPath | MapGenerator.py:117-121 | the goal's chain of parents in a map the search builds is a walk between the corners with no repeated cell and neither endpoint, so the goal is reachable |
| Solver.Solution.BuildPath | MapGenerator.py:110-121 | raises KeyError, with the goal as key, exactly when the goal has no parent entry; otherwise returns the goal's chain of parents in start-to-goal order. That chain holds neither (0, 0) nor the goal, and is empty exactly when the goal's parent is (0, 0) |
| Solver.Solution.ExpandKeepsSearch | MapGenerator.py:132-142 | expanding a popped cell other than the goal keeps the stack, the push log and the expanded cells consistent with `visited`, and a new visited cell strictly shrinks the unvisited open cells |
| Solver.Solution.ExhaustedSearchIsClosed | MapGenerator.py:132-144 | once the stack is empty, the start and the visited cells form a closed region without the goal, so the goal is unreachable |
| Solver.Solution.PushUnvisitedChildren | MapGenerator.py:138-142 | every open neighbour of the popped cell is visited afterwards; the cells pushed were unvisited before, are distinct and are exactly the newly visited cells; existing parent entries are kept, new ones point to the popped cell; the search state stays sound |
| Solver.Solution.Search | MapGenerator.py:128-142 | the loop ends. If the goal was popped, it has a parent entry exactly when size != 1. If the stack ran empty, every expanded cell's open neighbours are visited, the start and all visited cells are expanded, the goal is not, and size != 1. The pushes after the first are exactly the visited cells, none of them twice. |
| Solver.Solution.Dfs | MapGenerator.py:123-144 | KeyError, with the goal as key, exactly when size == 1. Otherwise the status is PATH_FOUND exactly when an open 4-connected path joins start to goal. A found result carries its path's length and a path that, framed by start and goal, is a walk with no repeated cell. A failed result is `[PATH_NOT_FOUND, "N/A", []]`. Every cell pushed after the first is open, none is pushed twice, and there are at most size * size of them. The goal and every cell of a found path were pushed. |

## Left out

- Random generation: `numpy.random.uniform` (`MapGenerator.py:34`) becomes the `draws` parameter. The model requires only numpy's output range [0, 1) and says nothing about the distribution. It omits the docstring's claim about how many cells end up open (`MapGenerator.py:24`).
- The user interface is not part of this model. This covers `print_map`, `draw_map`, the `simplegui` frame, its handlers, the global `current_map` and the text parsing of size and probability. It is I/O and calls into a GUI library.
- The cell-width float arithmetic in `draw_map` and the unused `time` field of `Solution` are not modelled.
- The probability is a `real`. The model does not cover floating-point rounding or NaN.
- MapGenerator.Map.constructor: requires a size of at least 1 and draws of the right shape. `NewMap` covers the failing cases. For size 0 it reports `BadSize`, where the program raises IndexError at `MapGenerator.py:39`. For a negative size numpy raises ValueError.
- Solver.Solution.BuildPath: requires a parent map whose links all lead back to (0, 0), which is the only kind the search builds. On other maps the program may raise KeyError inside the loop or loop forever.
- The `pushed` log of `Dfs` and the ranks of the parent links are ghost bookkeeping. They state properties of the run and are not part of the result.
- The `while` loop of `dfs` is the separate method `Search`, and `Dfs` builds the result after it stops. The program returns from inside the loop. The steps and the state are the same.
