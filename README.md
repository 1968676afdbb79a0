# 15-puzzle IDA* solver: a verified model

This project models the search engine of a solver for the 4×4 sliding-tile puzzle (the 15-puzzle). The solver uses Iterative Deepening A* (IDA*) with the Manhattan-distance heuristic. The model covers:

- the board: 16 cells and a cached blank position;
- the static legality tables for the four blank moves;
- the in-place move and its inverse;
- the full and the incremental heuristic;
- the bounded depth-first step (`ida`);
- the threshold-raising control loop (`IDA_control_loop`).

Three modules:

- `Board` (board.dfy): the board as a `seq<int>` of 16 tiles, with value 0 as the blank. It holds the direction ids `Left`/`Right`/`Up`/`Down` = 0..3 and the sentinels -1 and -2. It also holds the four legality tables, the tables' geometric meaning, the neighbour a move swaps with, the direction inverse, the move as a function on boards (`Moved`), and walks of moves (`Reaches`). A walk is a sequence of legal moves that never undoes the move before it.
- `Heuristic` (heuristic.dfy): `Manhattan` is the specification of the full sum. `ComputeManhattan` is the accumulator loop, proved against it. `HeuristicIncrement` is the O(1) delta, with its lemmas.
- `Search` (search.dfy): class `Puzzle` holds the one search node (`state`, `g`, `f`) together with the process-wide globals `blank_pos`, `generated` and `expanded`. `Apply` swaps cells of the `state` array in place. `Ida`, `TryMove`, `Generate` and `Visit` do the backtracking search; they mutate the node and restore it. `ControlLoop` is the outer loop. The module also defines what a failed pass means, independently of the code: `NodeExhausted`/`Exhausted` (every node the pass may reach was accounted for) and `Frontier`/`FrontierWalk` (a walk to a node the pass cuts off).

Modelling decisions:

- **Goal.** The solver's `manhattan` measures tile `t` against index `t`, so the goal is the identity layout with the blank at index 0.
- **Row and column.** `Row` and `Col` use C's truncating `/` and `%`. This agrees with Dafny's operators for the tile values 0..15 that a valid board holds.
- **Legality.** `applicable(op)` reads the global `blank_pos`. `Board.Applicable` takes the blank position as a parameter and performs the same table lookup.
- **Loop body.** The body of the `for` loop in `ida` (puzzle.c:181-233) is the method `TryMove`. It saves `g` and `f`, calls `Generate` (puzzle.c:186-200: apply the move, count it as generated, update `g` and `f` incrementally), calls `Visit` (puzzle.c:202-223: prune, stop at a goal, or count the node as expanded and recurse into `Ida`), and finally undoes the move. `Ida`, `TryMove` and `Visit` are mutually recursive. The branches, their order and the early returns are those of the source.
- **Next threshold.** `*newThreshold` is an in-parameter that `Ida` returns, updated, as `bound`. Its initial value `INT_MAX` is `Search.IntMax`. A ghost out-parameter `cutoff` returns the walk to the cut-off node whose `f` became the bound.
- **Incremental heuristic.** `heuristic_increment` is called on the post-move board, with the new blank position and the old one. The model proves that this call equals the difference of the full sums (`IncrementMatchesManhattan`), so that indexing is correct.

## Model

| member | source | states |
|---|---|---|
| `Board.Applicable` | puzzle.c:119-122 | The definition of `applicable`: the table entry for the direction at the blank's position is non-zero. Its geometric meaning is `Board.ApplicableIff`. |
| `Board.ApplicableIff` | puzzle.c:72-76 | The legality tables say a move is legal exactly when the blank has a neighbour that way: LEFT iff column ≠ 0, RIGHT iff column ≠ 3, UP iff position ≥ 4, DOWN iff position < 12. |
| `Board.Neighbour` | puzzle.c:130-131 | For a legal move, the cell at blank position + {-1, +1, -4, +4} is on the board and differs from the blank's cell. |
| `Board.NeighbourAdjacent` | puzzle.c:131 | That cell is a grid neighbour: same row and adjacent column, or same column and adjacent row. |
| `Board.Opposite` | puzzle.c:142-147 | The definition of `opposite_op`, with -2 for anything that is not a direction. Its properties are `Board.OppositeInvolution`. |
| `Board.OppositeInvolution` | puzzle.c:142-147 | `opposite_op` maps each direction to a different direction and is its own inverse. It maps every non-direction (such as the -1 sentinel) to a non-direction. |
| `Board.Moved` | puzzle.c:126-139 | The definition of `apply` on boards: the neighbour's tile moves to the blank's cell and the neighbour's cell becomes the blank. Its properties are `Board.MovePreservesBoard` and `Board.MoveUndo`. |
| `Board.MovePreservesBoard` | puzzle.c:126-139 | A legal move keeps the board a permutation of 0..15. The blank lands on the swapped cell, the moved tile lands on the old blank cell, and every other cell is unchanged. |
| `Board.MoveUndo` | puzzle.c:230 | After a move, the opposite move is legal and leads back to the old blank position. Applying it restores the exact previous board. |
| `Board.ExistsEligibleMove` | puzzle.c:178-181 | At every blank position, some legal direction differs from the inverse of the previous move, so every call of `ida` tries at least one child. |
| `Board.WalkNeverUndoes` | puzzle.c:181 | Along a walk, no move is the opposite of the move before it, and the first is not the opposite of `prev`. |
| `Board.WalkKeepsBoard` | puzzle.c:134-138 | A walk from a valid board ends on a valid board whose cached blank position holds the blank. |
| `Heuristic.TileDistance` | puzzle.c:110-112 | The definition of one tile's term of the sum: 0 for the blank, otherwise row distance plus column distance between its cell and its goal cell. |
| `Heuristic.Manhattan` | puzzle.c:103-115 | The definition of the full sum over the 16 cells, as a recursive prefix sum. Its properties are `Heuristic.ComputeManhattan`, `Heuristic.ManhattanBounds`, `Heuristic.ManhattanZeroIff` and `Heuristic.ManhattanZeroIsGoal`. |
| `Heuristic.ComputeManhattan` | puzzle.c:103-115 | The accumulator loop returns the full Manhattan sum, which is `Manhattan` of the board. |
| `Heuristic.ManhattanBounds` | puzzle.c:103-115 | On a valid board the sum lies in 0..16·6. |
| `Heuristic.ManhattanZeroIff` | puzzle.c:108-113 | The sum is 0 exactly when every non-blank tile `t` sits at index `t`. |
| `Heuristic.ManhattanZeroIsGoal` | puzzle.c:209-214 | On a valid board the sum is 0 exactly at the goal layout, so the `heuristic == 0` test recognises the goal and nothing else. |
| `Heuristic.HeuristicIncrement` | puzzle.c:150-156 | The definition of `heuristic_increment`. Its properties are `Heuristic.IncrementIsTileChange`, `Heuristic.IncrementMatchesManhattan` and `Heuristic.IncrementIsUnit`. |
| `Heuristic.IncrementIsTileChange` | puzzle.c:150-156 | `heuristic_increment` is the moved tile's distance at its new cell minus its distance at its old cell. |
| `Heuristic.IncrementMatchesManhattan` | puzzle.c:186-197 | Take the post-move board, the new blank position and the old one (`swapped_tile`). The increment computed from these equals Manhattan(after) − Manhattan(before). |
| `Heuristic.IncrementIsUnit` | puzzle.c:150-156 | Every legal move changes the heuristic by exactly +1 or −1. |
| `Search.ChildStep` | puzzle.c:184-200 | A child of a settled node is a valid board. Its `f`, computed incrementally from the parent's `f − g`, equals its `g + Manhattan`, and the opposite move restores the parent. |
| `Search.NodeExhaustedMonotone` | puzzle.c:205-207 | Lowering the next threshold keeps every node already accounted for accounted for, so children tried earlier in the loop stay covered after a later child lowers `*newThreshold`. |
| `Search.ExhaustedBelowStep` | puzzle.c:178-181 | One step of the loop over directions: the children of the directions tried so far stay exhausted under the lowered bound, the current direction's child is added if it is eligible, and after DOWN the whole node is exhausted. |
| `Search.NodeBoundsFrontier` | puzzle.c:203-208 | If the pass failed at a node with bound B, then B ≤ f for every cut-off node below it. |
| `Search.ExhaustedBoundsFrontier` | puzzle.c:203-208 | A failed pass's bound is at most the `f` of every node the pass cuts off. With the `cutoff` walk that `Ida` returns, this makes the bound the smallest such `f`. |
| `Search.ExhaustedBounded` | puzzle.c:178-208 | A failed pass below a node within the threshold yields a bound of at most `threshold + 1 + 96`, because some node below is always cut off. |
| `Search.ExhaustedNoGoal` | puzzle.c:209-214 | After a failed pass, no non-undoing walk whose nodes all have `f ≤ threshold` ends at a board with heuristic 0, that is, at the goal. |
| `Search.Puzzle.constructor` | puzzle.c:318-347 | Builds the node from a validated configuration, a permutation whose `blank` index holds 0, with `g = f = 0` and zero counters. |
| `Search.Puzzle.Apply` | puzzle.c:126-139 | The array becomes `Moved(old board, old blank, op)` and `blankPos` becomes the neighbour. Only `state` and `blankPos` change. |
| `Search.Puzzle.Ida` | puzzle.c:160-236 | See the notes below the table. |
| `Search.Puzzle.TryMove` | puzzle.c:181-233 | For one eligible move: at least one node is generated. On success the node is at a goal reached by a walk that starts with that move. On failure the node is restored, the child is exhausted (`NodeExhausted`), and a lowered bound comes with a `cutoff` walk through that move. |
| `Search.Puzzle.Generate` | puzzle.c:186-200 | The board becomes `Moved` of the old one, `g` grows by 1, exactly one node is counted as generated, and the incrementally computed heuristic equals `Manhattan` of the new board, so `f = g + h` holds again. |
| `Search.Puzzle.Visit` | puzzle.c:202-223 | A generated node with `f > threshold` is not searched, and the bound becomes `min(f, *newThreshold)`. A node within the threshold with heuristic 0 is returned as found. Only a pruned node and a goal leave both counters unchanged. Otherwise the node is counted as expanded and the pass below it runs; on failure the node is unchanged and `NodeExhausted` holds, with a `Frontier` walk for a lowered bound. |
| `Search.EscalatingSnoc` | puzzle.c:278-281 | Appending a next threshold that is larger (or stuck at INT_MAX), and at most 1 + 96 above the last, keeps the threshold sequence escalating. |
| `Search.PassLogSnoc` | puzzle.c:270-281 | Appending the result of a failed pass from the root keeps the log in which each threshold is what the failed pass at the previous one yields. |
| `Search.Puzzle.ControlLoop` | puzzle.c:239-291 | See the notes below the table. |

`Search.Puzzle.Ida` states four things:

- It keeps the board valid, and no more nodes are expanded than generated.
- The next-threshold value is only ever lowered, and only to a value above `threshold`. On failure it is at most `threshold + 1 + 96`.
- On success, the node sits at `Manhattan = 0` with `f ≤ threshold` and `g = old g + |path|`. `path` is a walk from the entry board to the current one that never undoes a move.
- On failure, `state`, `blankPos`, `g` and `f` equal their values on entry, and the pass was exhaustive: `Exhausted` holds for the entry node. If the bound was lowered, `cutoff` is a `FrontierWalk` to a cut-off node whose `f` is the bound. With `Search.ExhaustedBoundsFrontier`, the bound is the smallest `f` among all cut-off nodes. With `Search.ExhaustedNoGoal`, no goal lies within the threshold.

`Search.Puzzle.ControlLoop` states four things:

- The counters start from zero: they are still 0 when no pass runs, either because the initial sum is 0 or because `maxPasses` is 0. `generated ≥ expanded` holds throughout. The first threshold is the initial Manhattan sum.
- Each failed pass replaces the threshold with a strictly larger value (unless it is already INT_MAX), at most 1 + 96 above the old one. If the initial sum is 0, it returns 0 with no node generated and the board untouched.
- Each threshold after the first is what the failed pass at the previous one yields (`PassLog`): that pass was exhaustive from the initial board, and the new threshold is INT_MAX or the `f` of a node it cut off.
- A returned solution `g ≥ 0` leaves the board at the goal with `f` within the last threshold. A walk of exactly `g` moves leads there from the initial board. A result of -1 leaves the initial board, its blank and `g = 0` in place, with `f = g + Manhattan`.

## Left out

- `main`'s input handling is not modelled: argument check, `fopen`/`fgets`/`strtok`/`atoi`, and the token count. Its result is the precondition of `Puzzle`'s constructor and of `ControlLoop`: a 16-cell permutation of 0..15 whose blank index holds 0.
- The console output is not modelled: `print_state`, `printf_comma` and the `printf` calls in `IDA_control_loop`.
- The timing is not modelled: `compute_current_time`, `getrusage`, and the floating-point expanded-per-second figures.
- The append to `report.dat` (file persistence) is not modelled.
- The `malloc`/`free` of `newThreshold` is not modelled. The value is passed and returned as an integer.
- Search.Puzzle.ControlLoop: runs at most `maxPasses` passes and returns -1 when they are used up, because the source's `while (r == NULL)` loop never ends for an unsolvable (odd-parity) configuration. Only partial correctness is proved. The source's unreachable `return -1` is the same value.
- Search.Puzzle.ControlLoop: after one or more passes, the counters are specified only as `expanded ≤ generated`, not as exact node counts, because the number of nodes a pass generates would need a count of the search tree that the model does not define.
- Search.Puzzle.ControlLoop: does not prove that the returned length is optimal, that is, the shortest path to the goal. That needs admissibility and graph-distance reasoning beyond the local properties proved here. The model proves that the length is that of a real walk to the goal.
- Integer widths are not modelled. `g`, `f` and the thresholds are C `int`, and the counters are `unsigned long`. The model uses unbounded integers, so an overflow of `f` near `INT_MAX` and a counter wrap-around are not captured. `INT_MAX` is kept only as the initial next threshold.
