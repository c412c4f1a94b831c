/** The implicit graph that the knight-distance solver searches: the squares of
    an n-by-n board as nodes and the knight moves between them as unit-weight
    edges. This module holds the reference definitions against which the two
    searches are proved: walks, "reachable in exactly k moves" and the knight
    distance from the start corner to the goal corner. */
module KnightBoard {

  /** A square as (row, column). Coordinates are unbounded; OnBoard decides
      whether a square exists on a given board. */
  type Pos = (int, int)

  /** Both searches start in the top-left corner. */
  const Start: Pos := (0, 0)

  /** ... and look for the bottom-right corner. */
  function Goal(n: int): Pos
  {
    (n - 1, n - 1)
  }

  predicate OnBoard(n: int, p: Pos)
  {
    0 <= p.0 < n && 0 <= p.1 < n
  }

  function Abs(x: int): nat
  {
    if x < 0 then -x else x
  }

  /** (dx, dy) is one of the eight L-shaped knight displacements. */
  predicate IsKnightOffset(dx: int, dy: int)
  {
    (Abs(dx) == 1 && Abs(dy) == 2) || (Abs(dx) == 2 && Abs(dy) == 1)
  }

  /** A knight move from a to b that stays on the board. */
  predicate LegalMove(n: int, a: Pos, b: Pos)
  {
    OnBoard(n, a) && OnBoard(n, b) && IsKnightOffset(b.0 - a.0, b.1 - a.1)
  }

  /** Every hop of the walk is a legal knight move. */
  predicate IsWalk(n: int, path: seq<Pos>)
  {
    forall i :: 0 <= i < |path| - 1 ==> LegalMove(n, path[i], path[i + 1])
  }

  /** p is reached from Start with exactly k legal knight moves: defined one
      move at a time, the last move coming from some square reached with k - 1
      moves. */
  ghost predicate ReachableIn(n: int, p: Pos, k: nat)
    decreases k
  {
    if k == 0 then p == Start
    else exists r :: LegalMove(n, r, p) && ReachableIn(n, r, k - 1)
  }

  /** The same notion stated with an explicit walk of k moves from Start. */
  ghost predicate WalkReaches(n: int, p: Pos, k: nat)
  {
    exists path :: IsWalk(n, path) && |path| == k + 1 && path[0] == Start && path[k] == p
  }

  ghost predicate GoalReachable(n: int)
  {
    exists k: nat :: ReachableIn(n, Goal(n), k)
  }

  /** k is the minimum number of knight moves from Start to Goal(n). */
  ghost predicate KnightDistance(n: int, k: nat)
  {
    ReachableIn(n, Goal(n), k) && forall m: nat :: m < k ==> !ReachableIn(n, Goal(n), m)
  }

  /** The largest number of distinct squares a search can expand: the n*n
      squares of the board, or the start square alone when the board is
      empty (the start is never bounds-checked). */
  function Cap(n: nat): nat
  {
    if n == 0 then 1 else n * n
  }

  // ---------------------------------------------------------------------------
  // Walks
  // ---------------------------------------------------------------------------

  /** A square reached without moving is Start; one reached with at least one
      move is on the board. */
  lemma ReachedSquare(n: int, p: Pos, k: nat)
    requires ReachableIn(n, p, k)
    ensures k == 0 ==> p == Start
    ensures k > 0 ==> OnBoard(n, p)
  {
  }

  /** One more legal move extends a walk of k moves to a walk of k + 1. */
  lemma ExtendReach(n: int, p: Pos, k: nat, q: Pos)
    requires ReachableIn(n, p, k)
    requires LegalMove(n, p, q)
    ensures ReachableIn(n, q, k + 1)
  {
  }

  /** The move-by-move definition agrees with the explicit-walk one: p is
      reachable in k moves exactly when some walk of k moves leads from Start
      to p. */
  lemma {:induction false} ReachableInIffWalk(n: int, p: Pos, k: nat)
    ensures ReachableIn(n, p, k) <==> WalkReaches(n, p, k)
    decreases k
  {
    if k == 0 {
      if p == Start {
        assert IsWalk(n, [Start]);
      }
    } else {
      if ReachableIn(n, p, k) {
        var r :| LegalMove(n, r, p) && ReachableIn(n, r, k - 1);
        ReachableInIffWalk(n, r, k - 1);
        var path :| IsWalk(n, path) && |path| == k && path[0] == Start && path[k - 1] == r;
        var longer := path + [p];
        forall i | 0 <= i < |longer| - 1
          ensures LegalMove(n, longer[i], longer[i + 1])
        {
          if i < k - 1 {
            assert longer[i] == path[i] && longer[i + 1] == path[i + 1];
          }
        }
        assert IsWalk(n, longer) && longer[0] == Start && longer[k] == p;
      }
      if WalkReaches(n, p, k) {
        var path :| IsWalk(n, path) && |path| == k + 1 && path[0] == Start && path[k] == p;
        var shorter := path[..k];
        assert IsWalk(n, shorter) && shorter[0] == Start && shorter[k - 1] == path[k - 1];
        ReachableInIffWalk(n, path[k - 1], k - 1);
        assert LegalMove(n, path[k - 1], p);
      }
    }
  }

  /** Each move changes row + column by an odd amount of at most 3: a square
      reached in k moves has a coordinate sum with the parity of k and at
      most 3k. */
  lemma {:induction false} ReachParityAndSpan(n: int, p: Pos, k: nat)
    ensures ReachableIn(n, p, k) ==> (p.0 + p.1 - k) % 2 == 0 && p.0 + p.1 <= 3 * k
    decreases k
  {
    if k > 0 && ReachableIn(n, p, k) {
      var r :| LegalMove(n, r, p) && ReachableIn(n, r, k - 1);
      ReachParityAndSpan(n, r, k - 1);
      OffsetSum(p.0 - r.0, p.1 - r.1);
    }
  }

  /** A knight move changes row + column by -3, -1, 1 or 3. */
  lemma OffsetSum(dx: int, dy: int)
    requires IsKnightOffset(dx, dy)
    ensures dx + dy in {-3, -1, 1, 3}
  {
  }

  /** The knight distance to the far corner is even and at least 2(n-1)/3:
      a walk of k moves to Goal(n) has k even and 2(n - 1) <= 3k. */
  lemma GoalLowerBound(n: int, k: nat)
    ensures ReachableIn(n, Goal(n), k) ==> k % 2 == 0 && 2 * (n - 1) <= 3 * k
  {
    ReachParityAndSpan(n, Goal(n), k);
  }

  /** Shortest is shortest: a knight distance never exceeds the length of any
      walk to the goal, and it is unique. */
  lemma KnightDistanceIsMinimum(n: int, k: nat, m: nat)
    requires KnightDistance(n, k)
    requires ReachableIn(n, Goal(n), m)
    ensures k <= m
    ensures KnightDistance(n, m) ==> k == m
  {
  }

  // ---------------------------------------------------------------------------
  // Known values on small and standard boards
  // ---------------------------------------------------------------------------

  /** On a one-square board the start is the goal: the distance is 0. */
  lemma OneSquareBoard()
    ensures KnightDistance(1, 0)
  {
  }

  lemma NoMoveOnTwoByTwo()
    ensures forall a, b :: !LegalMove(2, a, b)
  {
  }

  /** On a 2-by-2 board no knight move stays on the board, so the far corner
      cannot be reached at all. */
  lemma TwoByTwoUnreachable()
    ensures !GoalReachable(2)
  {
    NoMoveOnTwoByTwo();
    forall k: nat
      ensures !ReachableIn(2, Goal(2), k)
    {
    }
  }

  /** On a 3-by-3 board the two squares a knight reaches from (0, 0) are not
      a knight move away from (2, 2). */
  lemma NoTwoMoveRouteOnThreeByThree()
    ensures !ReachableIn(3, Goal(3), 2)
  {
    forall r | LegalMove(3, r, Goal(3))
      ensures !ReachableIn(3, r, 1)
    {
      assert !LegalMove(3, Start, r);
    }
  }

  /** A route of 4 moves to the far corner of a 3-by-3 board. */
  lemma ThreeByThreeRoute()
    ensures ReachableIn(3, Goal(3), 4)
  {
    ExtendReach(3, Start, 0, (1, 2));
    ExtendReach(3, (1, 2), 1, (2, 0));
    ExtendReach(3, (2, 0), 2, (0, 1));
    ExtendReach(3, (0, 1), 3, (2, 2));
  }

  /** No route of fewer than 4 moves reaches the far corner of a 3-by-3 board. */
  lemma ThreeByThreeNoShorter(m: nat)
    requires m < 4
    ensures !ReachableIn(3, Goal(3), m)
  {
    GoalLowerBound(3, m);
    if m == 2 {
      NoTwoMoveRouteOnThreeByThree();
    }
  }

  /** On a 3-by-3 board the far corner is 4 moves away. */
  lemma ThreeByThreeDistance()
    ensures KnightDistance(3, 4)
  {
    ThreeByThreeRoute();
    forall m: nat | m < 4
      ensures !ReachableIn(3, Goal(3), m)
    {
      ThreeByThreeNoShorter(m);
    }
  }

  /** A route of 6 moves to the far corner of the 8-by-8 chessboard. */
  lemma EightByEightRoute()
    ensures ReachableIn(8, Goal(8), 6)
  {
    ExtendReach(8, Start, 0, (1, 2));
    ExtendReach(8, (1, 2), 1, (2, 4));
    ExtendReach(8, (2, 4), 2, (3, 6));
    ExtendReach(8, (3, 6), 3, (5, 7));
    ExtendReach(8, (5, 7), 4, (6, 5));
    ExtendReach(8, (6, 5), 5, (7, 7));
  }

  /** No route of fewer than 6 moves reaches the far corner of an 8-by-8 board. */
  lemma EightByEightNoShorter(m: nat)
    requires m < 6
    ensures !ReachableIn(8, Goal(8), m)
  {
    GoalLowerBound(8, m);
  }

  /** On the standard 8-by-8 chessboard the far corner is 6 moves away. */
  lemma EightByEightDistance()
    ensures KnightDistance(8, 6)
  {
    EightByEightRoute();
    forall m: nat | m < 6
      ensures !ReachableIn(8, Goal(8), m)
    {
      EightByEightNoShorter(m);
    }
  }

  // ---------------------------------------------------------------------------
  // Counting squares
  // ---------------------------------------------------------------------------

  lemma {:induction false} RowBound(row: set<Pos>, x: int, k: nat)
    requires forall p :: p in row ==> p.0 == x && 0 <= p.1 < k
    ensures |row| <= k
  {
    if k > 0 {
      var shorter := row - {(x, k - 1)};
      RowBound(shorter, x, k - 1);
    }
  }

  lemma {:induction false} BlockBound(squares: set<Pos>, rows: nat, n: nat)
    requires forall p :: p in squares ==> 0 <= p.0 < rows && 0 <= p.1 < n
    ensures |squares| <= rows * n
  {
    if rows > 0 {
      var last := set p | p in squares && p.0 == rows - 1;
      var rest := squares - last;
      RowBound(last, rows - 1, n);
      BlockBound(rest, rows - 1, n);
      assert squares == rest + last;
      assert (rows - 1) * n + n == rows * n;
    }
  }

  /** A sequence without repeated elements has as many elements as the set of
      its elements. */
  lemma {:induction false} DistinctCard(squares: seq<Pos>)
    requires forall i, j :: 0 <= i < j < |squares| ==> squares[i] != squares[j]
    ensures |set p | p in squares| == |squares|
  {
    if squares != [] {
      var last := squares[|squares| - 1];
      var front := squares[..|squares| - 1];
      DistinctCard(front);
      assert (set p | p in squares) == (set p | p in front) + {last};
      assert last !in front;
    }
  }

  /** A list of distinct squares, each on the board or the start square, has
      at most Cap(n) elements. */
  lemma DistinctSquaresBound(n: nat, squares: seq<Pos>)
    requires forall i, j :: 0 <= i < j < |squares| ==> squares[i] != squares[j]
    requires forall p :: p in squares ==> OnBoard(n, p) || p == Start
    ensures |squares| <= Cap(n)
  {
    DistinctCard(squares);
    SquaresBound(n, set p | p in squares);
  }

  /** A set of squares on the board, plus possibly the start square, has at
      most Cap(n) elements. */
  lemma SquaresBound(n: nat, squares: set<Pos>)
    requires forall p :: p in squares ==> OnBoard(n, p) || p == Start
    ensures |squares| <= Cap(n)
  {
    if n == 0 {
      RowBound(squares, 0, 1);
    } else {
      BlockBound(squares, n, n);
    }
  }
}
