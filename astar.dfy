/** Best-first search over the knight graph. The frontier is a priority queue
    of (square, steps, weight) candidates, where the weight is the step count
    plus an estimate of the remaining distance; the lightest candidate is
    dequeued first, ties in any order. As in the breadth-first search,
    duplicates are removed lazily when dequeued. The search answers the step
    count of the first dequeued goal candidate, or 0 when the queue runs
    empty. The estimate can exceed the remaining distance, so the answer is
    the length of a real route but not necessarily the shortest one. */
module KnightAstar {
  import opened KnightBoard
  import opened KnightMoves

  /** A queue candidate: a square, the moves taken to reach it, and its weight. */
  datatype Candidate = Candidate(pos: Pos, steps: nat, weight: int)

  // ---------------------------------------------------------------------------
  // Weights and the queue order
  // ---------------------------------------------------------------------------

  /** The weight of reaching p after `steps` moves: the moves taken plus the
      smaller of the two coordinate gaps to the goal corner (n - 1, n - 1). */
  function CalcWeight(n: int, p: Pos, steps: nat): (w: nat)
    ensures w >= steps
  {
    var gapX := Abs(p.0 - (n - 1));
    var gapY := Abs(p.1 - (n - 1));
    var future := if gapY < gapX then gapY else gapX;
    future + steps
  }

  /** The weight is the moves taken plus the smaller coordinate gap to the
      goal corner; it equals the moves taken exactly on the last row and the
      last column. */
  lemma CalcWeightIsStepsPlusSmallerGap(n: int, p: Pos, steps: nat)
    ensures CalcWeight(n, p, steps) >= steps
    ensures var future := CalcWeight(n, p, steps) - steps;
            && future <= Abs(p.0 - (n - 1)) && future <= Abs(p.1 - (n - 1))
            && (future == Abs(p.0 - (n - 1)) || future == Abs(p.1 - (n - 1)))
    ensures CalcWeight(n, p, steps) == steps <==> p.0 == n - 1 || p.1 == n - 1
  {
  }

  /** The estimate is not a lower bound on the moves still needed: from
      (n - 4, n - 4) it is 3, yet the goal is two legal moves away through
      (n - 3, n - 2). This is why the search is not claimed to be optimal. */
  lemma HeuristicOverestimates(n: int)
    requires n >= 4
    ensures CalcWeight(n, (n - 4, n - 4), 0) == 3
    ensures LegalMove(n, (n - 4, n - 4), (n - 3, n - 2)) && LegalMove(n, (n - 3, n - 2), Goal(n))
  {
  }

  /** The priority queue's comparator: a ranks below b when a is heavier, so
      the lightest candidate is on top. */
  function QueueSort(a: Candidate, b: Candidate): (below: bool)
    ensures a.weight == b.weight ==> !below
    ensures below ==> b.weight < a.weight
  {
    a.weight > b.weight
  }

  /** The comparator is a strict weak order, as a priority queue requires:
      irreflexive, transitive, and with transitive incomparability. */
  lemma QueueSortIsStrictWeakOrder(a: Candidate, b: Candidate, c: Candidate)
    ensures !QueueSort(a, a)
    ensures QueueSort(a, b) ==> !QueueSort(b, a)
    ensures QueueSort(a, b) && QueueSort(b, c) ==> QueueSort(a, c)
    ensures (!QueueSort(a, b) && !QueueSort(b, a) && !QueueSort(b, c) && !QueueSort(c, b))
              ==> (!QueueSort(a, c) && !QueueSort(c, a))
  {
  }

  /** queue[i] is outranked by no candidate: it may be returned by top(). */
  predicate IsTop(queue: seq<Candidate>, i: int)
  {
    0 <= i < |queue| && forall j :: 0 <= j < |queue| ==> !QueueSort(queue[i], queue[j])
  }

  /** A non-empty queue has a top candidate. */
  lemma {:induction false} TopExists(queue: seq<Candidate>)
    requires queue != []
    ensures exists i :: IsTop(queue, i)
    decreases |queue|
  {
    if |queue| > 1 {
      var front := queue[..|queue| - 1];
      TopExists(front);
      var i :| IsTop(front, i);
      var last := |queue| - 1;
      if QueueSort(queue[i], queue[last]) {
        forall j | 0 <= j < |queue|
          ensures !QueueSort(queue[last], queue[j])
        {
          if j < last {
            assert !QueueSort(front[i], front[j]);
          }
        }
        assert IsTop(queue, last);
      } else {
        forall j | 0 <= j < |queue|
          ensures !QueueSort(queue[i], queue[j])
        {
          if j < last {
            assert !QueueSort(front[i], front[j]);
          }
        }
        assert IsTop(queue, i);
      }
    } else {
      assert IsTop(queue, 0);
    }
  }

  /** top() followed by pop(): remove a candidate of least weight. Which one
      is removed among several of equal weight is left open. */
  method Pop(queue: seq<Candidate>) returns (top: Candidate, rest: seq<Candidate>)
    requires queue != []
    ensures top in queue
    ensures forall e :: e in queue ==> top.weight <= e.weight
    ensures multiset(rest) + multiset{top} == multiset(queue)
    ensures |rest| == |queue| - 1
  {
    TopExists(queue);
    var i :| IsTop(queue, i);
    top := queue[i];
    rest := queue[..i] + queue[i + 1..];
    assert queue == queue[..i] + [top] + queue[i + 1..];
    forall e | e in queue
      ensures top.weight <= e.weight
    {
      var j :| 0 <= j < |queue| && queue[j] == e;
      assert !QueueSort(queue[i], queue[j]);
    }
  }

  /** After a pop, the rest is the queue less one copy of the removed candidate. */
  lemma PopMembers(queue: seq<Candidate>, top: Candidate, rest: seq<Candidate>)
    requires multiset(rest) + multiset{top} == multiset(queue)
    ensures forall e :: e in rest ==> e in queue
    ensures forall e :: e in queue && e != top ==> e in rest
  {
    forall e | e in rest
      ensures e in queue
    {
      assert multiset(queue)[e] == multiset(rest)[e] + multiset{top}[e];
    }
    forall e | e in queue && e != top
      ensures e in rest
    {
      assert e in multiset(queue);
    }
  }

  // ---------------------------------------------------------------------------
  // Pushing candidates
  // ---------------------------------------------------------------------------

  /** The candidates pushed for the given squares, all with the same step
      count and each weighted by CalcWeight. */
  function Weighted(n: int, squares: seq<Pos>, steps: nat): seq<Candidate>
  {
    seq(|squares|, i requires 0 <= i < |squares| => Candidate(squares[i], steps, CalcWeight(n, squares[i], steps)))
  }

  lemma WeightedConcat(n: int, a: seq<Pos>, b: seq<Pos>, steps: nat)
    ensures Weighted(n, a + b, steps) == Weighted(n, a, steps) + Weighted(n, b, steps)
  {
  }

  /** The queue after the conditional push of p + delta. */
  lemma WeightedForward(n: int, p: Pos, delta: Pos, steps: nat, before: seq<Candidate>, after: seq<Candidate>)
    requires var q := (p.0 + delta.0, p.1 + delta.1);
             if BoundsCheck(n, q.0) && BoundsCheck(n, q.1)
             then after == before + [Candidate(q, steps, CalcWeight(n, q, steps))]
             else after == before
    ensures after == before + Weighted(n, Forward(n, p, delta), steps)
  {
  }

  /** The queue after the conditional push of p - delta. */
  lemma WeightedBack(n: int, p: Pos, delta: Pos, steps: nat, before: seq<Candidate>, after: seq<Candidate>)
    requires var q := (p.0 - delta.0, p.1 - delta.1);
             if BoundsCheck(n, q.0) && BoundsCheck(n, q.1)
             then after == before + [Candidate(q, steps, CalcWeight(n, q, steps))]
             else after == before
    ensures after == before + Weighted(n, Back(n, p, delta), steps)
  {
  }

  /** Handling delta i appends the weighted candidates for p + Deltas[i] and
      p - Deltas[i] that pass the bounds check, in that order. */
  lemma PushStep(queue: seq<Candidate>, before: seq<Candidate>, n: int, p: Pos, i: nat, steps: nat)
    requires i < |Deltas|
    requires before == queue + Weighted(n, PushedFor(n, p, i), steps)
    ensures queue + Weighted(n, PushedFor(n, p, i + 1), steps)
         == before + Weighted(n, Forward(n, p, Deltas[i]), steps) + Weighted(n, Back(n, p, Deltas[i]), steps)
  {
    WeightedConcat(n, PushedFor(n, p, i), MovesAlong(n, p, Deltas[i]), steps);
    WeightedConcat(n, Forward(n, p, Deltas[i]), Back(n, p, Deltas[i]), steps);
  }

  /** The candidates pushed when c is expanded are sound, correctly weighted
      and carry c's steps + 1. */
  lemma PushedSound(n: int, c: Candidate)
    requires ReachableIn(n, c.pos, c.steps)
    ensures forall e :: e in Weighted(n, Successors(n, c.pos), c.steps + 1) ==>
              && ReachableIn(n, e.pos, e.steps)
              && e.weight == CalcWeight(n, e.pos, e.steps)
              && e.steps == c.steps + 1
  {
    var pushed := Weighted(n, Successors(n, c.pos), c.steps + 1);
    ReachedSquare(n, c.pos, c.steps);
    forall e | e in pushed
      ensures ReachableIn(n, e.pos, e.steps) && e.weight == CalcWeight(n, e.pos, e.steps)
    {
      var i :| 0 <= i < |pushed| && pushed[i] == e;
      var q := Successors(n, c.pos)[i];
      SuccessorsNeedBoard(n, c.pos, q);
      SuccessorsAreKnightMoves(n, c.pos, q);
      ExtendReach(n, c.pos, c.steps, q);
    }
  }

  /** Every legal move out of c's square has a candidate among those pushed. */
  lemma PushedComplete(n: int, c: Candidate, q: Pos)
    requires LegalMove(n, c.pos, q)
    ensures exists e :: e in Weighted(n, Successors(n, c.pos), c.steps + 1) && e.pos == q
  {
    SuccessorsAreLegalMoves(n, c.pos, q);
    var i :| 0 <= i < |Successors(n, c.pos)| && Successors(n, c.pos)[i] == q;
    assert Weighted(n, Successors(n, c.pos), c.steps + 1)[i].pos == q;
  }

  // ---------------------------------------------------------------------------
  // The loop invariant
  // ---------------------------------------------------------------------------

  /** Every candidate records the length of a real walk to its square and the
      weight CalcWeight gives it. */
  ghost predicate CandidatesSound(n: int, queue: seq<Candidate>)
  {
    forall e :: e in queue ==> ReachableIn(n, e.pos, e.steps) && e.weight == CalcWeight(n, e.pos, e.steps)
  }

  /** Every legal move out of an expanded square lands on an expanded square
      or on a square with a candidate still in the queue. */
  ghost predicate Covered(n: int, queue: seq<Candidate>, visited: set<Pos>)
  {
    forall p, q {:trigger p in visited, LegalMove(n, p, q)} :: p in visited && LegalMove(n, p, q) ==>
      q in visited || exists e :: e in queue && e.pos == q
  }

  /** The state at the head of the search loop. */
  ghost predicate AStarInvariant(n: int, queue: seq<Candidate>, visited: set<Pos>)
  {
    && Goal(n) !in visited
    && (forall p :: p in visited ==> OnBoard(n, p) || p == Start)
    && (Start in visited || exists e :: e in queue && e.pos == Start)
    && CandidatesSound(n, queue)
    && Covered(n, queue, visited)
  }

  // ---------------------------------------------------------------------------
  // The invariant through one iteration
  // ---------------------------------------------------------------------------

  /** The initial queue holds only the start, with 0 steps and its weight. */
  lemma AStarInit(n: int)
    ensures AStarInvariant(n, [Candidate(Start, 0, CalcWeight(n, Start, 0))], {})
  {
    assert Candidate(Start, 0, CalcWeight(n, Start, 0)) in [Candidate(Start, 0, CalcWeight(n, Start, 0))];
  }

  /** Dropping a popped candidate whose square is already expanded keeps the
      invariant. */
  lemma AStarSkip(n: int, queue: seq<Candidate>, visited: set<Pos>, top: Candidate, rest: seq<Candidate>)
    requires AStarInvariant(n, queue, visited)
    requires forall e :: e in rest ==> e in queue
    requires forall e :: e in queue && e != top ==> e in rest
    requires top.pos in visited
    ensures AStarInvariant(n, rest, visited)
  {
    forall p, q | p in visited && LegalMove(n, p, q) && q !in visited
      ensures exists e :: e in rest && e.pos == q
    {
      var e :| e in queue && e.pos == q;
    }
    if Start !in visited {
      var e :| e in queue && e.pos == Start;
    }
  }

  /** Expanding a popped candidate keeps every candidate sound. */
  lemma ExpandSound(n: int, queue: seq<Candidate>, top: Candidate, rest: seq<Candidate>)
    requires CandidatesSound(n, queue)
    requires top in queue
    requires forall e :: e in rest ==> e in queue
    ensures CandidatesSound(n, rest + Weighted(n, Successors(n, top.pos), top.steps + 1))
  {
    var pushed := Weighted(n, Successors(n, top.pos), top.steps + 1);
    PushedSound(n, top);
    forall e | e in rest + pushed
      ensures ReachableIn(n, e.pos, e.steps) && e.weight == CalcWeight(n, e.pos, e.steps)
    {
      if e !in pushed {
        assert e in rest;
      }
    }
  }

  /** Expanding a popped candidate keeps every move out of an expanded square
      covered: the moves out of the new square are all pushed. */
  lemma ExpandCovered(n: int, queue: seq<Candidate>, visited: set<Pos>, top: Candidate, rest: seq<Candidate>)
    requires Covered(n, queue, visited)
    requires forall e :: e in queue && e != top ==> e in rest
    ensures Covered(n, rest + Weighted(n, Successors(n, top.pos), top.steps + 1), visited + {top.pos})
  {
    var pushed := Weighted(n, Successors(n, top.pos), top.steps + 1);
    var visited' := visited + {top.pos};
    forall p, q | p in visited' && LegalMove(n, p, q) && q !in visited'
      ensures exists e :: e in rest + pushed && e.pos == q
    {
      if p == top.pos {
        PushedComplete(n, top, q);
        var e :| e in pushed && e.pos == q;
        assert e in rest + pushed;
      } else {
        var e :| e in queue && e.pos == q;
        assert e in rest + pushed;
      }
    }
  }

  /** Expanding a popped, unexpanded, non-goal candidate: mark its square
      expanded and push its weighted successors. */
  lemma AStarExpand(n: int, queue: seq<Candidate>, visited: set<Pos>, top: Candidate, rest: seq<Candidate>)
    requires AStarInvariant(n, queue, visited)
    requires top in queue
    requires forall e :: e in rest ==> e in queue
    requires forall e :: e in queue && e != top ==> e in rest
    requires top.pos !in visited && top.pos != Goal(n)
    ensures AStarInvariant(n, rest + Weighted(n, Successors(n, top.pos), top.steps + 1), visited + {top.pos})
  {
    assert ReachableIn(n, top.pos, top.steps);
    ReachedSquare(n, top.pos, top.steps);
    ExpandSound(n, queue, top, rest);
    ExpandCovered(n, queue, visited, top, rest);
    if Start !in visited + {top.pos} {
      var e :| e in queue && e.pos == Start;
      assert e in rest + Weighted(n, Successors(n, top.pos), top.steps + 1);
    }
  }

  /** One round of the loop: the popped candidate is a real route to its
      square, and skipping or expanding it keeps the invariant. */
  lemma AStarStep(n: int, queue: seq<Candidate>, visited: set<Pos>, top: Candidate, rest: seq<Candidate>)
    requires AStarInvariant(n, queue, visited)
    requires top in queue
    requires multiset(rest) + multiset{top} == multiset(queue)
    ensures ReachableIn(n, top.pos, top.steps)
    ensures OnBoard(n, top.pos) || top.pos == Start
    ensures top.pos in visited ==> AStarInvariant(n, rest, visited)
    ensures top.pos !in visited && top.pos != Goal(n) ==>
              AStarInvariant(n, rest + Weighted(n, Successors(n, top.pos), top.steps + 1), visited + {top.pos})
  {
    assert ReachableIn(n, top.pos, top.steps);
    ReachedSquare(n, top.pos, top.steps);
    PopMembers(queue, top, rest);
    if top.pos in visited {
      AStarSkip(n, queue, visited, top, rest);
    } else if top.pos != Goal(n) {
      AStarExpand(n, queue, visited, top, rest);
    }
  }

  // ---------------------------------------------------------------------------
  // What the invariant says about walks
  // ---------------------------------------------------------------------------

  /** With the queue empty, every square reachable from the start has been
      expanded, by induction on the number of moves. */
  lemma {:induction false} AllReachedExpanded(n: int, visited: set<Pos>, q: Pos, k: nat)
    requires AStarInvariant(n, [], visited)
    ensures ReachableIn(n, q, k) ==> q in visited
    decreases k
  {
    if k > 0 && ReachableIn(n, q, k) {
      var r :| LegalMove(n, r, q) && ReachableIn(n, r, k - 1);
      AllReachedExpanded(n, visited, r, k - 1);
    }
  }

  /** A queue that runs empty means the goal cannot be reached at all. */
  lemma AStarExhausted(n: int, visited: set<Pos>)
    requires AStarInvariant(n, [], visited)
    ensures !GoalReachable(n)
  {
    forall k: nat
      ensures !ReachableIn(n, Goal(n), k)
    {
      AllReachedExpanded(n, visited, Goal(n), k);
    }
  }

  /** A route to the goal of s moves is never shorter than the knight distance. */
  lemma AStarGoalFound(n: int, s: nat)
    requires ReachableIn(n, Goal(n), s)
    ensures GoalReachable(n)
    ensures forall k: nat :: KnightDistance(n, k) ==> k <= s
  {
    forall k: nat | KnightDistance(n, k)
      ensures k <= s
    {
      KnightDistanceIsMinimum(n, k, s);
    }
  }

  // ---------------------------------------------------------------------------
  // The search
  // ---------------------------------------------------------------------------

  /** The inner loop of an expansion: for each delta, push p + delta and then
      p - delta, weighted for the given step count, when both coordinates pass
      the bounds check. */
  method PushCandidates(n: int, p: Pos, steps: nat, queue: seq<Candidate>) returns (queue': seq<Candidate>)
    ensures queue' == queue + Weighted(n, Successors(n, p), steps)
  {
    queue' := queue;
    for i := 0 to |Deltas|
      invariant queue' == queue + Weighted(n, PushedFor(n, p, i), steps)
    {
      var delta := Deltas[i];
      var forwardX, forwardY := p.0 + delta.0, p.1 + delta.1;
      var backX, backY := p.0 - delta.0, p.1 - delta.1;
      ghost var before := queue';
      PushStep(queue, before, n, p, i, steps);
      if BoundsCheck(n, forwardX) && BoundsCheck(n, forwardY) {
        var forwardMove := (forwardX, forwardY);
        queue' := queue' + [Candidate(forwardMove, steps, CalcWeight(n, forwardMove, steps))];
      }
      WeightedForward(n, p, delta, steps, before, queue');
      ghost var middle := queue';
      if BoundsCheck(n, backX) && BoundsCheck(n, backY) {
        var backMove := (backX, backY);
        queue' := queue' + [Candidate(backMove, steps, CalcWeight(n, backMove, steps))];
      }
      WeightedBack(n, p, delta, steps, middle, queue');
    }
  }

  /** Best-first search from (0, 0) to (n - 1, n - 1). `steps` is the value
      the search answers and `reached` tells whether it came from popping the
      goal. The answer is the length of a real route, hence never below the
      knight distance; whether the goal is found at all agrees exactly with
      whether it is reachable. `expanded` lists the squares in the order they
      were expanded. */
  method KnightStepsAStar(n: nat) returns (steps: nat, reached: bool, ghost expanded: seq<Pos>)
    ensures reached <==> GoalReachable(n)
    ensures reached ==> ReachableIn(n, Goal(n), steps)
    ensures reached ==> forall k: nat :: KnightDistance(n, k) ==> k <= steps
    ensures !reached ==> steps == 0
    ensures forall i, j :: 0 <= i < j < |expanded| ==> expanded[i] != expanded[j]
    ensures forall p :: p in expanded ==> OnBoard(n, p) || p == Start
    ensures |expanded| <= Cap(n)
    ensures reached ==> |expanded| > 0 && expanded[|expanded| - 1] == Goal(n)
  {
    var goal := Goal(n);
    var start := Start;
    var options := [Candidate(start, 0, CalcWeight(n, start, 0))];
    var visited: set<Pos> := {};
    expanded := [];
    AStarInit(n);
    while options != []
      invariant AStarInvariant(n, options, visited)
      invariant forall p :: p in expanded <==> p in visited
      invariant forall i, j :: 0 <= i < j < |expanded| ==> expanded[i] != expanded[j]
      invariant |expanded| <= Cap(n)
      decreases Cap(n) - |expanded|, |options|
    {
      var current, rest := Pop(options);
      AStarStep(n, options, visited, current, rest);
      options := rest;
      var currentPos, currentSteps := current.pos, current.steps;
      if currentPos in visited {
        continue;
      }
      visited := visited + {currentPos};
      expanded := expanded + [currentPos];
      DistinctSquaresBound(n, expanded);
      if currentPos == goal {
        AStarGoalFound(n, currentSteps);
        steps, reached := currentSteps, true;
        return;
      }
      options := PushCandidates(n, currentPos, currentSteps + 1, options);
    }
    AStarExhausted(n, visited);
    steps, reached := 0, false;
  }
}
