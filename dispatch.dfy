/** The entry point: a board size and an optimisation level select one of the
    searches. Level 0 is breadth-first search, level 1 best-first search,
    level 2 a parallel variant that is only a stub; any other level falls
    through the selection and leaves the answer unset. */
module KnightSolver {
  import opened KnightBoard
  import KnightBfs
  import KnightAstar

  /** What the entry point hands back: a step count, or nothing at all when
      no level matched and the answer was never assigned. */
  datatype Solution = Steps(value: nat) | Uninitialised

  /** The parallel variant: a placeholder that answers 0 for every board,
      whatever the knight distance. */
  function KnightStepsParallel(boardSize: nat): (r: nat)
    ensures r == 0
  {
    0
  }

  /** Select a search by level and run it on an n-by-n board; the level
      defaults to 0, breadth-first search. */
  method KnightSteps(boardSize: nat, optLevel: int := 0) returns (r: Solution)
    ensures optLevel == 0 ==>
              && r.Steps?
              && (GoalReachable(boardSize) ==> KnightDistance(boardSize, r.value))
              && (!GoalReachable(boardSize) ==> r.value == 0)
    ensures optLevel == 1 ==>
              && r.Steps?
              && (GoalReachable(boardSize) ==> ReachableIn(boardSize, Goal(boardSize), r.value))
              && (GoalReachable(boardSize) ==> forall k: nat :: KnightDistance(boardSize, k) ==> k <= r.value)
              && (!GoalReachable(boardSize) ==> r.value == 0)
    ensures optLevel == 2 ==> r == Steps(0)
    ensures optLevel != 0 && optLevel != 1 && optLevel != 2 ==> r == Uninitialised
  {
    if optLevel == 0 {
      var steps, _, _ := KnightBfs.KnightStepsBfs(boardSize);
      r := Steps(steps);
    } else if optLevel == 1 {
      var steps, _, _ := KnightAstar.KnightStepsAStar(boardSize);
      r := Steps(steps);
    } else if optLevel == 2 {
      r := Steps(KnightStepsParallel(boardSize));
    } else {
      r := Uninitialised;
    }
  }

  /** The two real searches side by side on the same board: best-first never
      answers less than breadth-first, and one answers 0 exactly when the
      other does (the goal is unreachable, or the board has a single square). */
  method CompareSearches(boardSize: nat) returns (bfsSteps: nat, astarSteps: nat)
    ensures bfsSteps <= astarSteps
    ensures bfsSteps == 0 <==> astarSteps == 0
  {
    var b, bReached, _ := KnightBfs.KnightStepsBfs(boardSize);
    var a, _, _ := KnightAstar.KnightStepsAStar(boardSize);
    bfsSteps, astarSteps := b, a;
    if bReached {
      KnightDistanceIsMinimum(boardSize, bfsSteps, astarSteps);
      ZeroDistance(boardSize, bfsSteps, astarSteps);
    }
  }

  /** A route of 0 moves ends on the start square, so the goal is reached in
      0 moves exactly when it is the start; hence a distance of 0 and a route
      of 0 moves go together. */
  lemma ZeroDistance(n: int, k: nat, m: nat)
    requires KnightDistance(n, k)
    requires ReachableIn(n, Goal(n), m)
    ensures k == 0 <==> m == 0
  {
    if m == 0 {
      assert k <= m by {
        KnightDistanceIsMinimum(n, k, m);
      }
    } else if k == 0 {
      // Goal(n) is the start, so n is 1, and a one-square board has no moves.
      assert false;
    }
  }
}
