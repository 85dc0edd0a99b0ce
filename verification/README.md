# Sliding-tile puzzle solver by iterative deepening, in Dafny

This project models the search engine of `search.py`, a solver for the
sliding-tile puzzle (the 15-puzzle and its N-by-N versions).

- **Board** (`puzzle.dfy`, module `Puzzle`). A board is the row-major list of
  tile symbols, with `"0"` as the blank. Its side is the integer square root of
  the tile count. `Execute` is `Board.execute_action`: it slides the blank one
  cell left, right, up or down, and a move that would leave the grid is absorbed
  (the same tiles come back). `Replay` applies a move list.
- **Search tree** (`tree.dfy`, module `SearchTree`). A `Node` is a root or a
  child with its parent and the action that produced it. The module has:
  - `__eq__`, as tile equality;
  - `get_children`;
  - `find_path`, `is_cycle` and `depth`, as loops over the parent links, each
    tied to a recursive reference definition.
- **Depth-limited search** (`dls.dfy`, module `DepthLimited`). `run_dls` works
  over a first-in first-out frontier. Its result is characterised without the
  queue. A node is *reached* when every node between the root and it was
  expanded, that is, it was not a goal, was below the bound, and was not a
  cycle. The search:
  - solves exactly when a reached node is a goal;
  - cuts off exactly when no reached node is a goal but one sits at the bound;
  - fails otherwise.

  The expansion count is four per expanded node. `goal_test` compares with the
  fixed 4-by-4 solved list.
- **Iterative deepening** (`deepening.dfy`, module `Deepening`). `run_ids`
  runs bounds 0, 1, 2, … and returns the first result that is not a cutoff.
  From a root:
  - the solution returned is a shortest one;
  - a solution is found exactly when one fits under the bounds tried;
  - a failure means that no move list solves the board.
- **Documented cases** (`cases.dfy`, module `DocumentedCases`). The five
  boards listed at the end of `search.py` reach the goal under their listed
  move strings.

## Model

| member | source | states |
|---|---|---|
| `Puzzle.ISqrtIsFloorRoot` | search.py:13 | the board size is the floor of the square root of the tile count: `s*s <= n < (s+1)*(s+1)` |
| `Puzzle.ISqrtOfSquare` | search.py:13 | on a board of `k*k` tiles the size is exactly `k` |
| `Puzzle.BlankIndex` | search.py:19 | the index found holds the blank and lies inside the list |
| `Puzzle.FirstBlankAt` | search.py:19 | `list.index('0')` semantics: a blank at `e` with no blank before it is the index returned |
| `Puzzle.Execute` | search.py:17-34 | the model of `execute_action`; its own contract says only that the board it returns is again valid, square and holding a blank. The swap and no-op laws are stated by `Puzzle.MoveLaw` |
| `Puzzle.MoveLaw` | search.py:17-34 | a legal move puts the blank at the neighbour, puts the neighbour's tile at the old blank cell and leaves every other cell alone; an illegal move returns the same tiles; either way the length, the side and the multiset of tiles are kept |
| `Puzzle.GuardIsOnGrid` | search.py:20-33 | each of the four guards holds exactly when the blank's row and column, shifted one step in that direction, stay on the N-by-N grid |
| `Puzzle.MoveIsOneCell` | search.py:20-33 | a legal move's target cell is one row or one column away from the blank, in the direction named |
| `Puzzle.BlankFollowsMove` | search.py:17-34 | on a board with a single blank, after a legal move the single blank sits at the target cell |
| `Puzzle.MoveInverse` | search.py:17-34 | with a single blank, the opposite move is legal after a legal move and restores the original tiles |
| `Puzzle.ReplayValid` | search.py:17-34 | moves keep a board square and holding a blank, so every board reached is one `execute_action` accepts |
| `Puzzle.ReplayPermutes` | search.py:17-34 | any sequence of moves only rearranges the tiles (same multiset) |
| `Puzzle.ReplayAppend` | search.py:17-34 | replaying two move lists one after the other is replaying their concatenation |
| `SearchTree.SameStateIsEquivalence` | search.py:49-50 | node equality is reflexive, symmetric and transitive, and ignores parent and action |
| `SearchTree.ComputeDepth` | search.py:94-100 | the loop counts exactly the parent links up to the root; the count is 0 exactly for a root |
| `SearchTree.FindPath` | search.py:75-81 | the collected and reversed actions have one entry per parent link; entry `i` is the action that produced the ancestor at depth `i+1`, and the list equals the root-to-node path |
| `SearchTree.PathListsAncestorActions` | search.py:75-81 | the root-to-node path has length `depth(n)` and lists, in order, the actions of the ancestors at depths 1, 2, … |
| `SearchTree.IsCycle` | search.py:84-91 | the loop answers true exactly when some strict ancestor has the same tiles as the node; a root is never a cycle |
| `SearchTree.Children` | search.py:65-72 | exactly four children in the order L, R, U, D; each has the node as parent, its action, the board `execute_action` gives, depth one more and the path extended by its action |
| `SearchTree.ChildrenWellBuilt` | search.py:65-72 | children of a node built by expansion are themselves built by expansion |
| `SearchTree.PathRebuildsNode` | search.py:65-81 | for any node built by expansion, following `find_path` from its root rebuilds the very same node |
| `SearchTree.ExtendReplays` | search.py:65-72 | expanding along a move list reaches the board that replaying the list gives |
| `SearchTree.CycleOnExtension` | search.py:84-91 | below a root, a node is a cycle exactly when some proper prefix of its path already replays to its board |
| `DepthLimited.GoalIsFourByFour` | search.py:138-139 | a board passing the goal test is a valid 4-by-4 board whose only blank is the last cell |
| `DepthLimited.OnlyFourByFourIsGoal` | search.py:138-139 | no board of another side passes the goal test |
| `DepthLimited.DepthLimitedSearch` | search.py:112-135 | solved exactly when a reached node is a goal, with a path that extends the root's path by at most `bound` actions and replays from the root to the goal; cutoff exactly when no reached node is a goal but one sits at the bound; failure otherwise; the count is four per expanded node, every expanded node being reached and expandable; a goal root gives its own path with count 0 |
| `DepthLimited.GoalDequeued` | search.py:121-126 | a goal dequeued with the invariant in force is the solved outcome the characterisation demands |
| `DepthLimited.InvExhausted` | search.py:128-135 | when the frontier empties, the recorded cutoff-or-failure is the outcome the characterisation demands |
| `DepthLimited.ExpansionWeighsLess` | search.py:128-133 | replacing a node below the bound by its four children shrinks the frontier's measure, so the search terminates |
| `Deepening.IterativeDeepening` | search.py:103-109 | every bound before the last one tried cut off; the returned result characterises the last bound; from a root, a solution is shortest, a solution is found exactly when one fits under `maxBound`, and failure means no move list solves the board; the count of a solved result is four per node expanded by the last depth-limited search, each of those nodes reached and expandable under the last bound; a goal root gives its own path with count 0 |
| `Deepening.DeepeningIsOptimal` | search.py:103-109 | when all smaller bounds cut off, a solved result is a shortest solution, and solved holds exactly when some solution fits under `maxBound` |
| `Deepening.FailureMeansUnsolvable` | search.py:112-135 | from a root, a depth-limited failure means that no move list at all reaches the goal |
| `Deepening.ShortestPrefixExpandable` | search.py:127-133 | every proper prefix of a shortest solution ends at a node that the search expands: not a goal, below the bound, not a cycle |
| `Deepening.ExistsShortest` | search.py:103-109 | a solvable board has a shortest solution no longer than any given one |
| `DocumentedCases.Slide` | search.py:17-34 | on a 4-by-4 board a move that stays on the grid swaps the blank with the cell `4*drow + dcol` away |
| `DocumentedCases.Case1` | search.py:159 | `1 0 3 4 5 2 6 8 9 10 7 11 13 14 15 12` replayed with `D R D R D` passes the goal test |
| `DocumentedCases.Case2` | search.py:161 | `1 2 3 4 5 6 8 0 9 11 7 12 13 10 14 15` replayed with `L D L D R R` passes the goal test |
| `DocumentedCases.Case3` | search.py:163 | `1 0 2 4 5 7 3 8 9 6 11 12 13 10 14 15` replayed with `R D L D D R R` passes the goal test |
| `DocumentedCases.Case4` | search.py:165 | `1 2 0 4 6 7 3 8 5 9 10 12 13 14 11 15` replayed with `D L L D R R D R` passes the goal test |
| `DocumentedCases.Case5` | search.py:167 | `1 3 4 8 5 2 0 6 9 10 7 11 13 14 15 12` replayed with `R U L L D R D R D` passes the goal test |

## Left out

- Timing and memory probes in `run_dls` (search.py:113, 116, 120, 125). They
  measure wall-clock time and object sizes and have no logical content, so the
  solved outcome carries only the path and the expansion count.
- `generate_puzzle` (search.py:59-62) is left out because it draws from a
  random shuffle.
- `solve` (search.py:141-150) and the `__main__` block are left out. They
  split the input line and print results.
- `__repr__` and `__hash__` (search.py:45-53) are Python runtime glue.
- The `psutil` and `os` imports are unused.
- Boards whose tile count is not a perfect square, or that lack a `'0'`, are
  excluded by the precondition `Valid`. The code does not check either case;
  the caller is expected to supply a well-formed square board.
  - A board without a `'0'` always makes `index` raise `ValueError`.
  - A board whose tile count is not a perfect square is played on the grid
    whose side is the floor square root of the count (search.py:13). The
    guards for `L`, `U` and `D` (search.py:21, 27, 31) keep those moves inside
    the list. For example, `["1","2","3","4","0"]` with `U` gives
    `["1","2","0","4","3"]`. `R` raises `IndexError` (search.py:24-25)
    exactly when the blank is in the last cell and `(len-1) % side < side-1`.
    So it never raises on a board of side 1, and with 6 tiles (side 2) and
    the blank at index 5 it does nothing. The model does not cover these
    moves.
  - `Replay` leaves a board outside `Valid` unchanged. From a valid board this
    branch is never taken (`ReplayValid`).
- Action symbols other than `L`, `R`, `U`, `D` cannot occur, because actions
  are a four-valued datatype. The source would return an unchanged copy for
  them.
- `Deepening.IterativeDeepening`: `run_ids` loops without bound. The model
  stops at a caller-given `maxBound` and then returns the last cutoff. For
  every result other than that final cutoff, it returns what `run_ids`
  returns. The final cutoff is the only place where the two can differ.
- `DepthLimited.DepthLimitedSearch`: the expansion count is tied to the
  expanded nodes through a ghost set. Its contract states that each of these
  nodes is reached and expandable, and that the count is four per node. It
  does not state which of the reached nodes come before the goal in the
  first-in first-out order. The contract accepts the path of any reached
  goal, while `run_dls` returns the first goal dequeued: fewest moves first,
  ties broken in `L`, `R`, `U`, `D` order. That choice decides which of
  several equally short solutions `run_ids` prints.
- `Deepening.DeepeningIsOptimal`: shortest-solution and completeness facts
  are stated for searches started from a root node. The search itself
  accepts any node.

## Notes

- Unsolvable boards do not make `run_ids` loop forever in principle. The
  cycle test only looks along the current path, so once the bound exceeds the
  longest cycle-free path, depth-limited search reports `failure` and
  `run_ids` returns it. `FailureMeansUnsolvable` shows that such a failure is
  correct. For the 15-puzzle that bound is astronomically large, so in
  practice the search does not end.
- `nodes_expanded` counts children generated, four per expanded node,
  including the duplicates that illegal moves produce. It is reset at the
  start of every depth-limited search (search.py:117), so the count `run_ids`
  returns belongs to the final depth-limited search only, not a total across
  bounds.
