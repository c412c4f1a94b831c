/** Breadth-first search over the knight graph. The frontier is a FIFO queue of
    (square, steps) entries; duplicates are removed lazily, when an entry is
    dequeued and its square is already visited, not when it is enqueued. The
    search answers the step count of the first dequeued goal entry, or 0 when
    the queue runs empty. */
module KnightBfs {
  import opened KnightBoard
  import opened KnightMoves

  /** A queue entry: a square and the number of moves taken to reach it. */
  datatype Entry = Entry(pos: Pos, steps: nat)

  /** The entries pushed for the given squares, all with the same step count. */
  function Tagged(squares: seq<Pos>, steps: nat): seq<Entry>
  {
    seq(|squares|, i requires 0 <= i < |squares| => Entry(squares[i], steps))
  }

  lemma TaggedConcat(a: seq<Pos>, b: seq<Pos>, steps: nat)
    ensures Tagged(a + b, steps) == Tagged(a, steps) + Tagged(b, steps)
  {
  }

  /** Handling delta i appends to the queue the entries for p + Deltas[i] and
      p - Deltas[i] that pass the bounds check, in that order. */
  lemma PushStep(queue: seq<Entry>, before: seq<Entry>, n: int, p: Pos, i: nat, steps: nat)
    requires i < |Deltas|
    requires before == queue + Tagged(PushedFor(n, p, i), steps)
    ensures queue + Tagged(PushedFor(n, p, i + 1), steps)
         == before + Tagged(Forward(n, p, Deltas[i]), steps) + Tagged(Back(n, p, Deltas[i]), steps)
  {
    TaggedConcat(PushedFor(n, p, i), MovesAlong(n, p, Deltas[i]), steps);
    TaggedConcat(Forward(n, p, Deltas[i]), Back(n, p, Deltas[i]), steps);
  }

  /** The queue after the conditional push of p + delta. */
  lemma TaggedForward(n: int, p: Pos, delta: Pos, steps: nat, before: seq<Entry>, after: seq<Entry>)
    requires var q := (p.0 + delta.0, p.1 + delta.1);
             if BoundsCheck(n, q.0) && BoundsCheck(n, q.1) then after == before + [Entry(q, steps)] else after == before
    ensures after == before + Tagged(Forward(n, p, delta), steps)
  {
  }

  /** The queue after the conditional push of p - delta. */
  lemma TaggedBack(n: int, p: Pos, delta: Pos, steps: nat, before: seq<Entry>, after: seq<Entry>)
    requires var q := (p.0 - delta.0, p.1 - delta.1);
             if BoundsCheck(n, q.0) && BoundsCheck(n, q.1) then after == before + [Entry(q, steps)] else after == before
    ensures after == before + Tagged(Back(n, p, delta), steps)
  {
  }

  // ---------------------------------------------------------------------------
  // The loop invariant
  // ---------------------------------------------------------------------------

  /** Every entry records the length of a real walk from the start to its square. */
  ghost predicate EntriesSound(n: int, queue: seq<Entry>)
  {
    forall e :: e in queue ==> ReachableIn(n, e.pos, e.steps)
  }

  /** Step counts never decrease from front to back and lie in [d, d + 1]. */
  predicate Layered(queue: seq<Entry>, d: nat)
  {
    && (forall i :: 0 <= i < |queue| ==> d <= queue[i].steps <= d + 1)
    && (forall i, j :: 0 <= i < j < |queue| ==> queue[i].steps <= queue[j].steps)
  }

  /** Every legal move out of an expanded square p lands on an expanded square
      at most one level below p, or on a square still waiting in the queue with
      at most level(p) + 1 steps. `level` maps each expanded square to the step
      count it was expanded with. */
  ghost predicate Closed(n: int, queue: seq<Entry>, level: map<Pos, nat>)
  {
    forall p, q {:trigger p in level, LegalMove(n, p, q)} :: p in level && LegalMove(n, p, q) ==>
      (q in level && level[q] <= level[p] + 1) ||
      (exists e :: e in queue && e.pos == q && e.steps <= level[p] + 1)
  }

  /** The state at the head of the BFS loop, where d is the step count of the
      last dequeued entry. */
  ghost predicate BfsInvariant(n: int, queue: seq<Entry>, visited: set<Pos>, level: map<Pos, nat>, d: nat)
  {
    && visited == level.Keys
    && Goal(n) !in visited
    && (forall p :: p in visited ==> OnBoard(n, p) || p == Start)
    && (forall p :: p in level ==> level[p] <= d)
    && ((Start in level && level[Start] == 0) || Entry(Start, 0) in queue)
    && EntriesSound(n, queue)
    && Layered(queue, d)
    && Closed(n, queue, level)
  }

  // ---------------------------------------------------------------------------
  // The invariant through one iteration
  // ---------------------------------------------------------------------------

  /** The initial queue holds only the start with 0 steps. */
  lemma BfsInit(n: int)
    ensures BfsInvariant(n, [Entry(Start, 0)], {}, map[], 0)
  {
  }

  /** In a layered queue every entry has at least d steps, and the front entry
      has the fewest. */
  lemma LayeredBounds(queue: seq<Entry>, d: nat)
    requires Layered(queue, d)
    ensures forall e :: e in queue ==> d <= e.steps
    ensures queue != [] ==> forall e :: e in queue ==> queue[0].steps <= e.steps
  {
    forall e | e in queue
      ensures d <= e.steps && queue[0].steps <= e.steps
    {
      var i :| 0 <= i < |queue| && queue[i] == e;
    }
  }

  /** An entry of the queue other than the front one is in the rest of it. */
  lemma InTail(queue: seq<Entry>, e: Entry)
    requires queue != [] && e in queue && e != queue[0]
    ensures e in queue[1..]
  {
    var i :| 0 <= i < |queue| && queue[i] == e;
    assert queue[1..][i - 1] == e;
  }

  /** Between two expanded squares a legal move raises the level by at most 1. */
  lemma VisitedStep(n: int, queue: seq<Entry>, visited: set<Pos>, level: map<Pos, nat>, d: nat, p: Pos, q: Pos)
    requires BfsInvariant(n, queue, visited, level, d)
    requires p in visited && q in visited && LegalMove(n, p, q)
    ensures level[q] <= level[p] + 1
  {
    LayeredBounds(queue, d);
  }

  /** The square of the front entry is on the board or is the start. */
  lemma FrontSquare(n: int, queue: seq<Entry>, visited: set<Pos>, level: map<Pos, nat>, d: nat)
    requires BfsInvariant(n, queue, visited, level, d)
    requires queue != []
    ensures OnBoard(n, queue[0].pos) || queue[0].pos == Start
  {
    assert ReachableIn(n, queue[0].pos, queue[0].steps);
    ReachedSquare(n, queue[0].pos, queue[0].steps);
  }

  /** Dropping a dequeued entry whose square is already visited keeps the
      invariant, with the dequeued step count as the new level. */
  lemma BfsSkip(n: int, queue: seq<Entry>, visited: set<Pos>, level: map<Pos, nat>, d: nat)
    requires BfsInvariant(n, queue, visited, level, d)
    requires queue != [] && queue[0].pos in visited
    ensures BfsInvariant(n, queue[1..], visited, level, queue[0].steps)
  {
    var c := queue[0];
    var s := c.steps;
    var rest := queue[1..];
    LayeredBounds(queue, d);
    forall i | 0 <= i < |rest|
      ensures s <= rest[i].steps <= s + 1
    {
      assert rest[i] == queue[i + 1];
    }
    forall p, q | p in level && LegalMove(n, p, q)
      ensures (q in level && level[q] <= level[p] + 1)
           || (exists e :: e in rest && e.pos == q && e.steps <= level[p] + 1)
    {
      if q == c.pos {
        VisitedStep(n, queue, visited, level, d, p, q);
      } else if exists e :: e in queue && e.pos == q && e.steps <= level[p] + 1 {
        var e :| e in queue && e.pos == q && e.steps <= level[p] + 1;
        InTail(queue, e);
      }
    }
    if Entry(Start, 0) != c && Entry(Start, 0) in queue {
      InTail(queue, Entry(Start, 0));
    }
  }

  /** The entries pushed when c is expanded are sound and carry c's steps + 1. */
  lemma PushedSound(n: int, c: Entry)
    requires ReachableIn(n, c.pos, c.steps)
    ensures forall e :: e in Tagged(Successors(n, c.pos), c.steps + 1) ==>
              ReachableIn(n, e.pos, e.steps) && e.steps == c.steps + 1
  {
    var pushed := Tagged(Successors(n, c.pos), c.steps + 1);
    ReachedSquare(n, c.pos, c.steps);
    forall e | e in pushed
      ensures ReachableIn(n, e.pos, e.steps) && e.steps == c.steps + 1
    {
      var i :| 0 <= i < |pushed| && pushed[i] == e;
      var q := Successors(n, c.pos)[i];
      SuccessorsNeedBoard(n, c.pos, q);
      SuccessorsAreKnightMoves(n, c.pos, q);
      ExtendReach(n, c.pos, c.steps, q);
    }
  }

  /** Every legal move out of c's square has an entry among those pushed. */
  lemma PushedComplete(n: int, c: Entry, q: Pos)
    requires LegalMove(n, c.pos, q)
    ensures Entry(q, c.steps + 1) in Tagged(Successors(n, c.pos), c.steps + 1)
  {
    SuccessorsAreLegalMoves(n, c.pos, q);
    var i :| 0 <= i < |Successors(n, c.pos)| && Successors(n, c.pos)[i] == q;
    assert Tagged(Successors(n, c.pos), c.steps + 1)[i] == Entry(q, c.steps + 1);
  }

  /** Appending entries with s + 1 steps to the tail of a queue layered at d
      after its front, with s steps, has been removed keeps it layered at s. */
  lemma ExpandLayered(queue: seq<Entry>, d: nat, pushed: seq<Entry>)
    requires queue != [] && Layered(queue, d)
    requires forall e :: e in pushed ==> e.steps == queue[0].steps + 1
    ensures Layered(queue[1..] + pushed, queue[0].steps)
  {
    var s := queue[0].steps;
    var rest := queue[1..];
    var queue': seq<Entry> := rest + pushed;
    forall i | 0 <= i < |queue'|
      ensures s <= queue'[i].steps <= s + 1
    {
      if i < |rest| {
        assert queue'[i] == queue[i + 1];
      } else {
        assert queue'[i] == pushed[i - |rest|];
      }
    }
    forall i, j | 0 <= i < j < |queue'|
      ensures queue'[i].steps <= queue'[j].steps
    {
      if j < |rest| {
        assert queue'[i] == queue[i + 1] && queue'[j] == queue[j + 1];
      } else if i >= |rest| {
        assert queue'[i] == pushed[i - |rest|] && queue'[j] == pushed[j - |rest|];
      } else {
        assert queue'[i] == queue[i + 1];
        assert queue'[j] == pushed[j - |rest|];
      }
    }
  }

  /** Expanding the front entry keeps every entry sound: the entries left
      behind were sound, and each pushed entry is one legal move further. */
  lemma ExpandSound(n: int, queue: seq<Entry>)
    requires EntriesSound(n, queue)
    requires queue != []
    ensures EntriesSound(n, queue[1..] + Tagged(Successors(n, queue[0].pos), queue[0].steps + 1))
  {
    var rest := queue[1..];
    var pushed := Tagged(Successors(n, queue[0].pos), queue[0].steps + 1);
    assert ReachableIn(n, queue[0].pos, queue[0].steps);
    PushedSound(n, queue[0]);
    forall e: Entry | e in rest + pushed
      ensures ReachableIn(n, e.pos, e.steps)
    {
      if e !in pushed {
        assert e in rest;
      }
    }
  }

  /** Expanding the front entry keeps the closure property: the moves out of
      the newly expanded square are all among the pushed entries, and a move
      into it comes from a square whose level is at least the new level - 1. */
  lemma ExpandClosed(n: int, queue: seq<Entry>, level: map<Pos, nat>)
    requires Closed(n, queue, level)
    requires queue != [] && queue[0].pos !in level
    requires forall p :: p in level ==> level[p] <= queue[0].steps
    ensures Closed(n, queue[1..] + Tagged(Successors(n, queue[0].pos), queue[0].steps + 1),
                   level[queue[0].pos := queue[0].steps])
  {
    var c := queue[0];
    var s := c.steps;
    var queue' := queue[1..] + Tagged(Successors(n, c.pos), s + 1);
    var level' := level[c.pos := s];
    forall p, q | p in level' && LegalMove(n, p, q)
      ensures (q in level' && level'[q] <= level'[p] + 1)
           || (exists e :: e in queue' && e.pos == q && e.steps <= level'[p] + 1)
    {
      if p == c.pos {
        PushedComplete(n, c, q);
        assert Entry(q, s + 1) in queue';
      } else if q == c.pos {
        assert level'[q] == s;
      } else if exists e :: e in queue && e.pos == q && e.steps <= level[p] + 1 {
        var e :| e in queue && e.pos == q && e.steps <= level[p] + 1;
        InTail(queue, e);
        assert e in queue';
      }
    }
  }

  /** Expanding a dequeued, unvisited, non-goal entry: mark its square visited
      at the dequeued level and append its successors with one more step. */
  lemma BfsExpand(n: int, queue: seq<Entry>, visited: set<Pos>, level: map<Pos, nat>, d: nat)
    requires BfsInvariant(n, queue, visited, level, d)
    requires queue != [] && queue[0].pos !in visited && queue[0].pos != Goal(n)
    ensures BfsInvariant(n, queue[1..] + Tagged(Successors(n, queue[0].pos), queue[0].steps + 1),
                         visited + {queue[0].pos}, level[queue[0].pos := queue[0].steps], queue[0].steps)
  {
    var c := queue[0];
    LayeredBounds(queue, d);
    FrontSquare(n, queue, visited, level, d);
    ExpandSound(n, queue);
    ExpandClosed(n, queue, level);
    PushedSound(n, c);
    ExpandLayered(queue, d, Tagged(Successors(n, c.pos), c.steps + 1));
  }

  /** One round of the loop: dequeuing the front entry either skips an
      expanded square, finds the goal at the knight distance, or expands a new
      square; in each case the invariant holds of the resulting state. */
  lemma BfsStep(n: int, queue: seq<Entry>, visited: set<Pos>, level: map<Pos, nat>, d: nat)
    requires BfsInvariant(n, queue, visited, level, d)
    requires queue != []
    ensures OnBoard(n, queue[0].pos) || queue[0].pos == Start
    ensures queue[0].pos in visited ==> BfsInvariant(n, queue[1..], visited, level, queue[0].steps)
    ensures queue[0].pos == Goal(n) ==> KnightDistance(n, queue[0].steps)
    ensures queue[0].pos !in visited && queue[0].pos != Goal(n) ==>
              BfsInvariant(n, queue[1..] + Tagged(Successors(n, queue[0].pos), queue[0].steps + 1),
                           visited + {queue[0].pos}, level[queue[0].pos := queue[0].steps], queue[0].steps)
  {
    FrontSquare(n, queue, visited, level, d);
    if queue[0].pos in visited {
      BfsSkip(n, queue, visited, level, d);
    } else if queue[0].pos == Goal(n) {
      BfsGoalFound(n, queue, visited, level, d);
    } else {
      BfsExpand(n, queue, visited, level, d);
    }
  }

  // ---------------------------------------------------------------------------
  // What the invariant says about walks
  // ---------------------------------------------------------------------------

  /** The frontier argument, by induction on m: a square reachable in m moves
      is either expanded at a level of at most m, or the queue holds an entry
      with at most m steps. */
  lemma {:induction false} Frontier(n: int, queue: seq<Entry>, visited: set<Pos>, level: map<Pos, nat>,
                                    d: nat, q: Pos, m: nat)
    requires BfsInvariant(n, queue, visited, level, d)
    ensures ReachableIn(n, q, m) ==>
              (q in visited ==> level[q] <= m) &&
              (q !in visited ==> exists e :: e in queue && e.steps <= m)
    decreases m
  {
    LayeredBounds(queue, d);
    if m > 0 && ReachableIn(n, q, m) {
      var r :| LegalMove(n, r, q) && ReachableIn(n, r, m - 1);
      Frontier(n, queue, visited, level, d, r, m - 1);
      if r in visited && q in visited {
        VisitedStep(n, queue, visited, level, d, r, q);
      }
    }
  }

  /** The first dequeued goal entry carries the knight distance. */
  lemma BfsGoalFound(n: int, queue: seq<Entry>, visited: set<Pos>, level: map<Pos, nat>, d: nat)
    requires BfsInvariant(n, queue, visited, level, d)
    requires queue != [] && queue[0].pos == Goal(n)
    ensures KnightDistance(n, queue[0].steps)
  {
    var s := queue[0].steps;
    assert ReachableIn(n, Goal(n), s);
    LayeredBounds(queue, d);
    forall m: nat | m < s
      ensures !ReachableIn(n, Goal(n), m)
    {
      Frontier(n, queue, visited, level, d, Goal(n), m);
    }
  }

  /** A queue that runs empty means the goal cannot be reached at all. */
  lemma BfsExhausted(n: int, visited: set<Pos>, level: map<Pos, nat>, d: nat)
    requires BfsInvariant(n, [], visited, level, d)
    ensures !GoalReachable(n)
  {
    forall k: nat
      ensures !ReachableIn(n, Goal(n), k)
    {
      Frontier(n, [], visited, level, d, Goal(n), k);
    }
  }

  // ---------------------------------------------------------------------------
  // The search
  // ---------------------------------------------------------------------------

  /** The inner loop of an expansion: for each delta, push p + delta and then
      p - delta, with the given step count, when both coordinates pass the
      bounds check. */
  method PushMoves(n: int, p: Pos, steps: nat, queue: seq<Entry>) returns (queue': seq<Entry>)
    ensures queue' == queue + Tagged(Successors(n, p), steps)
  {
    queue' := queue;
    for i := 0 to |Deltas|
      invariant queue' == queue + Tagged(PushedFor(n, p, i), steps)
    {
      var delta := Deltas[i];
      var forwardX, forwardY := p.0 + delta.0, p.1 + delta.1;
      var backX, backY := p.0 - delta.0, p.1 - delta.1;
      ghost var before := queue';
      PushStep(queue, before, n, p, i, steps);
      if BoundsCheck(n, forwardX) && BoundsCheck(n, forwardY) {
        queue' := queue' + [Entry((forwardX, forwardY), steps)];
      }
      TaggedForward(n, p, delta, steps, before, queue');
      ghost var middle := queue';
      if BoundsCheck(n, backX) && BoundsCheck(n, backY) {
        queue' := queue' + [Entry((backX, backY), steps)];
      }
      TaggedBack(n, p, delta, steps, middle, queue');
    }
  }

  /** Breadth-first search from (0, 0) to (n - 1, n - 1). `steps` is the value
      the search answers; `reached` tells whether it came from dequeuing the
      goal (true) or from the queue running empty (false), the two cases the
      answer 0 does not distinguish. `expanded` lists the squares in the order
      they were expanded. */
  method KnightStepsBfs(n: nat) returns (steps: nat, reached: bool, ghost expanded: seq<Pos>)
    ensures reached <==> GoalReachable(n)
    ensures reached ==> KnightDistance(n, steps)
    ensures !reached ==> steps == 0
    ensures forall i, j :: 0 <= i < j < |expanded| ==> expanded[i] != expanded[j]
    ensures forall p :: p in expanded ==> OnBoard(n, p) || p == Start
    ensures |expanded| <= Cap(n)
    ensures reached ==> |expanded| > 0 && expanded[|expanded| - 1] == Goal(n)
  {
    var goal := Goal(n);
    var start := Start;
    var options := [Entry(start, 0)];
    var visited: set<Pos> := {};
    ghost var level: map<Pos, nat> := map[];
    ghost var d: nat := 0;
    expanded := [];
    BfsInit(n);

    while options != []
      invariant BfsInvariant(n, options, visited, level, d)
      invariant forall p :: p in expanded <==> p in visited
      invariant forall i, j :: 0 <= i < j < |expanded| ==> expanded[i] != expanded[j]
      invariant |expanded| <= Cap(n)
      decreases Cap(n) - |expanded|, |options|
    {
      BfsStep(n, options, visited, level, d);
      var current := options[0];
      options := options[1..];
      var currentPos, currentSteps := current.pos, current.steps;

      if currentPos in visited {
        d := currentSteps;
        continue;
      }
      visited := visited + {currentPos};
      expanded := expanded + [currentPos];
      DistinctSquaresBound(n, expanded);

      if currentPos == goal {
        steps, reached := currentSteps, true;
        return;
      }
      options := PushMoves(n, currentPos, currentSteps + 1, options);
      level := level[currentPos := currentSteps];
      d := currentSteps;
    }
    BfsExhausted(n, visited, level, d);
    steps, reached := 0, false;
  }
}
