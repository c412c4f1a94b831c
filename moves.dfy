/** Move generation shared by both searches: the four canonical knight deltas,
    each applied forward and negated, kept only when both coordinates pass the
    bounds check. The order of the generated squares is the order in which the
    searches push them onto their frontiers. */
module KnightMoves {
  import opened KnightBoard

  /** The four canonical deltas; the other four knight moves are their negations. */
  const Deltas: seq<Pos> := [(1, 2), (2, 1), (2, -1), (1, -2)]

  /** A single coordinate lies on an n-wide board: it passes exactly when it
      is a valid index 0 .. n - 1, so nothing passes on an empty board. */
  function BoundsCheck(n: int, x: int): (ok: bool)
    ensures ok ==> 0 <= x < n
    ensures !ok ==> x < 0 || n <= x
  {
    x >= 0 && x < n
  }

  /** The squares pushed for one delta: first p + delta, then p - delta, each
      only when both of its coordinates pass the bounds check. */
  function MovesAlong(n: int, p: Pos, delta: Pos): seq<Pos>
  {
    Forward(n, p, delta) + Back(n, p, delta)
  }

  /** p + delta, when it passes the bounds check. */
  function Forward(n: int, p: Pos, delta: Pos): (s: seq<Pos>)
    ensures |s| <= 1 && forall q :: q in s ==> OnBoard(n, q)
  {
    var forward := (p.0 + delta.0, p.1 + delta.1);
    if BoundsCheck(n, forward.0) && BoundsCheck(n, forward.1) then [forward] else []
  }

  /** p - delta, when it passes the bounds check. */
  function Back(n: int, p: Pos, delta: Pos): (s: seq<Pos>)
    ensures |s| <= 1 && forall q :: q in s ==> OnBoard(n, q)
  {
    var back := (p.0 - delta.0, p.1 - delta.1);
    if BoundsCheck(n, back.0) && BoundsCheck(n, back.1) then [back] else []
  }

  /** The squares pushed for the first k deltas, in push order. */
  function PushedFor(n: int, p: Pos, k: nat): (s: seq<Pos>)
    requires k <= |Deltas|
    ensures |s| <= 2 * k
    ensures forall q :: q in s ==> OnBoard(n, q)
  {
    if k == 0 then [] else PushedFor(n, p, k - 1) + MovesAlong(n, p, Deltas[k - 1])
  }

  /** Everything pushed when p is expanded, in push order: at most eight
      squares, all on the board. */
  function Successors(n: int, p: Pos): (s: seq<Pos>)
    ensures |s| <= 8
    ensures forall q :: q in s ==> OnBoard(n, q)
  {
    PushedFor(n, p, |Deltas|)
  }

  lemma SuccessorsUnfolded(n: int, p: Pos)
    ensures Successors(n, p)
         == MovesAlong(n, p, (1, 2)) + MovesAlong(n, p, (2, 1))
          + MovesAlong(n, p, (2, -1)) + MovesAlong(n, p, (1, -2))
  {
    assert PushedFor(n, p, 1) == MovesAlong(n, p, (1, 2));
    assert PushedFor(n, p, 2) == PushedFor(n, p, 1) + MovesAlong(n, p, (2, 1));
    assert PushedFor(n, p, 3) == PushedFor(n, p, 2) + MovesAlong(n, p, (2, -1));
    assert PushedFor(n, p, 4) == PushedFor(n, p, 3) + MovesAlong(n, p, (1, -2));
  }

  /** The generator is exact: q is pushed when p is expanded if and only if q
      is on the board and a knight's move away from p. At most eight squares
      are pushed. */
  lemma SuccessorsAreKnightMoves(n: int, p: Pos, q: Pos)
    ensures q in Successors(n, p) <==> OnBoard(n, q) && IsKnightOffset(q.0 - p.0, q.1 - p.1)
    ensures |Successors(n, p)| <= 8
  {
    SuccessorsUnfolded(n, p);
    MovesAlongMembers(n, p, (1, 2), q);
    MovesAlongMembers(n, p, (2, 1), q);
    MovesAlongMembers(n, p, (2, -1), q);
    MovesAlongMembers(n, p, (1, -2), q);
  }

  /** One delta contributes at most its two squares, each exactly when it is on the board. */
  lemma MovesAlongMembers(n: int, p: Pos, delta: Pos, q: Pos)
    ensures q in MovesAlong(n, p, delta)
        <==> OnBoard(n, q) && (q == (p.0 + delta.0, p.1 + delta.1) || q == (p.0 - delta.0, p.1 - delta.1))
    ensures |MovesAlong(n, p, delta)| <= 2
  {
  }

  /** Expanding a square of the board pushes exactly its legal moves. */
  lemma SuccessorsAreLegalMoves(n: int, p: Pos, q: Pos)
    requires OnBoard(n, p)
    ensures q in Successors(n, p) <==> LegalMove(n, p, q)
  {
    SuccessorsAreKnightMoves(n, p, q);
  }

  /** Expanding a square whose successors are non-empty implies the board is
      non-empty, so the start corner is on it. */
  lemma SuccessorsNeedBoard(n: int, p: Pos, q: Pos)
    requires q in Successors(n, p)
    ensures OnBoard(n, q) && OnBoard(n, Start)
  {
    SuccessorsAreKnightMoves(n, p, q);
  }
}
