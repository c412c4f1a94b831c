# Knight distance on an n-by-n board

This project models the solver of `knight-chess`. The solver counts the knight
moves needed to go from the top-left corner (0, 0) of an n-by-n board to the
bottom-right corner (n - 1, n - 1). The model covers four pieces:

- **Move generation.** The four canonical deltas (1, 2), (2, 1), (2, -1) and
  (1, -2) are each applied forward and then negated. A square is kept only when
  both coordinates pass `bounds_check`. This is `moves.dfy`.
- **Breadth-first search** (`knight_steps_bfs`). A FIFO queue holds
  (square, steps) entries. An already-visited square is skipped when it is
  dequeued, not when it is pushed. The answer is the step count of the first
  goal entry dequeued, or 0 when the queue runs empty. This is `bfs.dfy`.
- **Best-first search** (`knight_steps_astar`). A priority queue holds
  (square, steps, weight) candidates. The weight is steps plus
  `min(|x - (n-1)|, |y - (n-1)|)`, and the lightest candidate is popped first.
  Otherwise the loop is the same as breadth-first. This is `astar.dfy`.
- **The entry point** (`knight_steps`) and the parallel stub
  (`knight_steps_parallel`). This is `dispatch.dfy`.

The reference the searches are judged against is in `board.dfy`: legal moves,
walks, `ReachableIn(n, p, k)` ("p is reached from the start in exactly k legal
moves") and `KnightDistance(n, k)` (the least such k for the goal). Known
distances are proved for boards of size 1, 2, 3 and 8.

Both searches are `method`s with a `while` loop, as in the source. The frontier
is a `seq` that the loop reassigns. The visited set is a `set` the loop grows.
Each inner `for` loop over the deltas is a `method` proved equal to a
specification function, `Successors`, whose meaning is proved as lemmas. Each
search also returns a real `reached` flag and a ghost `expanded` list. The flag
tells apart the two ways the source can answer 0: the goal found at distance 0,
or the queue running empty.

What is proved:

- **Breadth-first search** answers exactly the knight distance when the goal is
  reachable, and 0 otherwise. It finds the goal exactly when the goal is
  reachable.
- **Best-first search** answers the length of a real route to the goal, so never
  less than the knight distance. It finds the goal exactly when the goal is
  reachable.
- **Best-first search is not proved optimal.** Its estimate can exceed the true
  remaining distance (`HeuristicOverestimates`).
- **Both searches terminate.** Each expands every square at most once, expands
  only squares on the board (or the start), and expands at most n·n squares (1 when n = 0).

## Model

| member | source | states |
|---|---|---|
| KnightBoard.ReachedSquare | src/knight.cpp:84-90 | a square reached with no moves is the start; one reached with one or more moves passed the bounds check on both coordinates |
| KnightBoard.ExtendReach | src/knight.cpp:84-90 | a legal move from a square reached in k moves reaches the target in k + 1 moves, the step count a pushed entry carries |
| KnightBoard.ReachableInIffWalk | src/knight.cpp:79-91 | the move-by-move reachability the searches explore is equivalent to the existence of a walk of exactly k legal moves from (0, 0) |
| KnightBoard.ReachParityAndSpan | src/knight.cpp:51-52 | after k knight moves from (0, 0), x + y has the parity of k and is at most 3k |
| KnightBoard.OffsetSum | src/knight.cpp:51-52 | a knight move changes row + column by -3, -1, 1 or 3 |
| KnightBoard.GoalLowerBound | src/knight.cpp:46-47 | any route to (n - 1, n - 1) has an even number k of moves with 2(n - 1) <= 3k |
| KnightBoard.KnightDistanceIsMinimum | src/knight.cpp:74-75 | the knight distance is at most the length of every route to the goal, and it is unique |
| KnightBoard.OneSquareBoard | src/knight.cpp:74-75 | on a 1-by-1 board the start is the goal and the distance is 0 |
| KnightBoard.NoMoveOnTwoByTwo | src/knight.cpp:84-90 | on a 2-by-2 board no knight move passes the bounds check |
| KnightBoard.TwoByTwoUnreachable | src/knight.cpp:94 | on a 2-by-2 board the goal is unreachable, so the searches fall through to 0 |
| KnightBoard.ThreeByThreeDistance | src/knight.cpp:42-95 | the knight distance on a 3-by-3 board is 4 |
| KnightBoard.EightByEightDistance | src/knight.cpp:42-95 | the knight distance on an 8-by-8 board is 6 |
| KnightBoard.DistinctSquaresBound | src/knight.cpp:67-71 | distinct squares on the board or equal to the start number at most n·n (1 when n = 0), which bounds the expansions of either search |
| KnightMoves.BoundsCheck | src/knight.cpp:54-56 | a coordinate passes exactly when 0 <= x < n: a passing coordinate lies in [0, n), and a failing one is below 0 or at least n (the best-first search repeats the same check at lines 126-128) |
| KnightMoves.Forward | src/knight.cpp:84-87 | the forward push for one delta adds at most one square, and only a square on the board |
| KnightMoves.Back | src/knight.cpp:88-91 | the back push for one delta adds at most one square, and only a square on the board |
| KnightMoves.PushedFor | src/knight.cpp:79-91 | the first k deltas push at most 2k squares, all on the board |
| KnightMoves.Successors | src/knight.cpp:79-91 | expanding a square pushes at most eight squares, all on the board |
| KnightMoves.SuccessorsUnfolded | src/knight.cpp:79-91 | the squares pushed for a square are those of delta (1, 2), then (2, 1), then (2, -1), then (1, -2), each forward before back |
| KnightMoves.MovesAlongMembers | src/knight.cpp:80-91 | one delta pushes p + delta and p - delta, each exactly when it is on the board, and nothing else |
| KnightMoves.SuccessorsAreKnightMoves | src/knight.cpp:79-91 | q is pushed when p is expanded if and only if q is on the board and a knight's move from p; at most 8 squares are pushed |
| KnightMoves.SuccessorsAreLegalMoves | src/knight.cpp:79-91 | from a square on the board the pushed squares are exactly its legal moves |
| KnightMoves.SuccessorsNeedBoard | src/knight.cpp:54-56 | a pushed square is on the board, so the board is non-empty and contains the start |
| KnightBfs.PushStep | src/knight.cpp:79-91 | handling one delta appends its forward entry, then its back entry, to what the earlier deltas pushed |
| KnightBfs.PushMoves | src/knight.cpp:79-92 | the inner loop appends to the queue exactly the successors in push order, each with the given step count |
| KnightBfs.BfsInit | src/knight.cpp:45-49 | the initial state (queue holding the start with 0 steps, nothing visited) satisfies the loop invariant |
| KnightBfs.LayeredBounds | src/knight.cpp:58-61 | in the FIFO queue the front entry has the fewest steps and every entry has at least those of the last dequeued one |
| KnightBfs.VisitedStep | src/knight.cpp:67-71 | along a legal move between two expanded squares the expansion level rises by at most 1 |
| KnightBfs.FrontSquare | src/knight.cpp:60-62 | the square of the front entry is on the board or is the start |
| KnightBfs.BfsSkip | src/knight.cpp:67-68 | dropping a dequeued entry whose square was visited keeps the invariant |
| KnightBfs.PushedSound | src/knight.cpp:84-90 | every pushed entry is reachable in the step count it carries, which is the dequeued count + 1 |
| KnightBfs.PushedComplete | src/knight.cpp:79-91 | every legal move out of the expanded square is pushed with the dequeued count + 1 |
| KnightBfs.ExpandLayered | src/knight.cpp:86-90 | appending entries with s + 1 steps after dequeuing one with s steps keeps the queue sorted and within two consecutive levels |
| KnightBfs.ExpandSound | src/knight.cpp:79-91 | after an expansion every queued entry still records the length of a real route |
| KnightBfs.ExpandClosed | src/knight.cpp:69-91 | after an expansion every legal move out of an expanded square lands on an expanded square at most one level up or on a queued entry with at most level + 1 steps |
| KnightBfs.BfsExpand | src/knight.cpp:69-92 | marking the dequeued square visited and pushing its successors keeps the invariant |
| KnightBfs.BfsStep | src/knight.cpp:58-92 | each loop round keeps the invariant in the skip and expand cases and, when it dequeues the goal, its step count is the knight distance |
| KnightBfs.Frontier | src/knight.cpp:58-93 | a square reachable in m moves is either expanded at a level of at most m, or the queue holds some entry, not necessarily for that square, with at most m steps |
| KnightBfs.BfsGoalFound | src/knight.cpp:74-75 | the first goal entry dequeued carries the knight distance |
| KnightBfs.BfsExhausted | src/knight.cpp:94 | when the queue runs empty the goal is unreachable |
| KnightBfs.KnightStepsBfs | src/knight.cpp:42-95 | finds the goal iff it is reachable, then answers the knight distance, else 0; expands distinct squares on the board (or the start), at most n·n of them (1 when n = 0), the goal last |
| KnightAstar.CalcWeight | src/knight.cpp:115-119 | the weight is never below the moves taken; `CalcWeightIsStepsPlusSmallerGap` states exactly what it adds |
| KnightAstar.CalcWeightIsStepsPlusSmallerGap | src/knight.cpp:115-119 | a weight is the step count plus the smaller of the two coordinate gaps to (n - 1, n - 1); it equals the step count exactly on the last row or column |
| KnightAstar.HeuristicOverestimates | src/knight.cpp:115-119 | on every board of size 4 or more, the estimate from (n - 4, n - 4) is 3 while the goal is two legal moves away, so the estimate is not a lower bound |
| KnightAstar.QueueSort | src/knight.cpp:106-108 | a candidate ranks below another only when it is strictly heavier, so candidates of equal weight are unordered |
| KnightAstar.QueueSortIsStrictWeakOrder | src/knight.cpp:106-108 | the comparator is irreflexive, asymmetric and transitive, with transitive incomparability |
| KnightAstar.TopExists | src/knight.cpp:110-112 | a non-empty priority queue has a candidate that no other candidate outranks |
| KnightAstar.Pop | src/knight.cpp:132-133 | top then pop removes one copy of a candidate of least weight and leaves the rest; ties are broken in any order |
| KnightAstar.PopMembers | src/knight.cpp:132-133 | after a pop every remaining candidate was in the queue, and every other candidate is still there |
| KnightAstar.WeightedForward | src/knight.cpp:156-161 | the conditional forward push appends the forward candidate, weighted, exactly when it is on the board |
| KnightAstar.WeightedBack | src/knight.cpp:162-167 | the conditional back push appends the back candidate, weighted, exactly when it is on the board |
| KnightAstar.PushStep | src/knight.cpp:151-168 | handling one delta appends its forward candidate, then its back candidate, to what the earlier deltas pushed |
| KnightAstar.PushCandidates | src/knight.cpp:151-168 | the inner loop appends exactly the successors in push order, each with the given step count and the weight computed for it |
| KnightAstar.PushedSound | src/knight.cpp:156-167 | every pushed candidate is reachable in its step count, which is the popped count + 1, and carries the weight calc_weight gives it |
| KnightAstar.PushedComplete | src/knight.cpp:151-168 | every legal move out of the expanded square gets a pushed candidate |
| KnightAstar.AStarInit | src/knight.cpp:120-121 | the initial state (the start with 0 steps and its weight, nothing visited) satisfies the loop invariant |
| KnightAstar.AStarSkip | src/knight.cpp:139-140 | dropping a popped candidate whose square was visited keeps the invariant |
| KnightAstar.ExpandSound | src/knight.cpp:150-168 | after an expansion every queued candidate records the length of a real route and its correct weight |
| KnightAstar.ExpandCovered | src/knight.cpp:141-168 | after an expansion every legal move out of an expanded square lands on an expanded square or on a queued candidate |
| KnightAstar.AStarExpand | src/knight.cpp:141-168 | marking the popped square visited and pushing its successors keeps the invariant |
| KnightAstar.AStarStep | src/knight.cpp:130-169 | each popped candidate is a real route to its square, and each loop round keeps the invariant |
| KnightAstar.AllReachedExpanded | src/knight.cpp:130-169 | when the queue is empty every square reachable from the start has been expanded |
| KnightAstar.AStarExhausted | src/knight.cpp:170 | when the queue runs empty the goal is unreachable |
| KnightAstar.AStarGoalFound | src/knight.cpp:146-147 | a goal candidate's step count is a route length, so never below the knight distance |
| KnightAstar.KnightStepsAStar | src/knight.cpp:100-171 | finds the goal iff it is reachable, then answers the length of a real route (never below the knight distance), else 0; expands distinct squares on the board (or the start), at most n·n of them (1 when n = 0), the goal last |
| KnightSolver.KnightStepsParallel | src/knight.cpp:252-254 | the parallel variant answers 0 on every board |
| KnightSolver.KnightSteps | src/knight.cpp:20-28 | the level defaults to 0; level 0 answers the knight distance (0 if unreachable); level 1 a real route length, never below it (0 if unreachable); level 2 answers 0; any other level leaves the answer unset |
| KnightSolver.CompareSearches | src/knight.cpp:74-75 | on the same board best-first (whose goal test is lines 146-147) never answers less than breadth-first, and one answers 0 exactly when the other does |
| KnightSolver.ZeroDistance | src/knight.cpp:46-47 | the knight distance is 0 exactly when a route of 0 moves reaches the goal |

## Left out

- Integer widths are not modelled. The source mixes `size_t`, `int` and an
  `int8_t` level, and converts between them. The model uses unbounded `int`/`nat`
  throughout, so the wrap-around of `int n = board_size` for sizes above
  2^31 - 1 is not captured. Neither is the truncation of weights and steps to
  `int`.
- `print_pos`, `print_all` and the commented-out tracing calls are console
  output only.
- `knight_steps_async` duplicates the best-first search line for line and is
  not modelled separately.
- The command-line entry point `src/main.cpp` (argument parsing with `atoi`, a
  discarded result) is not part of this model.
- The containers are modelled by their contents and behaviour, not their
  internals. `std::queue` is a `seq` read from the front and appended at the
  back. `std::priority_queue` is a `seq` from which any least-weight candidate
  is removed. `std::unordered_set` is a `set`. Hashing and the heap layout are
  not modelled.
- KnightAstar.Pop: the model does not say which of several equal-weight
  candidates is removed. The heap's tie order is left unspecified, so results
  that depend on it are not claimed.
- KnightAstar.KnightStepsAStar: it does not claim the answer is the knight
  distance, only that it is a real route and never below it. The estimate
  `min(|x - (n-1)|, |y - (n-1)|)` can exceed the remaining distance (see
  `HeuristicOverestimates`), so optimality cannot follow from the estimate.
  Whether the search happens to return the distance anyway is not decided here.
- KnightSolver.KnightSteps: a level other than 0, 1 or 2 leaves the local
  `solution` unassigned in the source, and reading it is undefined behaviour.
  The model returns the value `Uninitialised`. The parallel level returns 0,
  which is what the code does. A design that rejects these cases with explicit
  errors is not what the code does, so it is not modelled.
- On a board of size 0 the start (0, 0) is never bounds-checked, so both
  searches still expand it once. This is why the expansion bound is 1 rather
  than 0 when n = 0.
