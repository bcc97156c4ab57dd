/** The integer distance heuristics between two positions. */
module Metrics {

  import opened Grid

  function Abs(n: int): nat {
    if n < 0 then -n else n
  }

  function Max(a: nat, b: nat): nat {
    if a < b then b else a
  }

  /** King-move distance: the larger of the two coordinate differences. */
  function Chebyshev(p: Pos, q: Pos): (d: nat)
    ensures d == 0 <==> p == q
    ensures Abs(p.row - q.row) <= d && Abs(p.col - q.col) <= d
    ensures d == Abs(p.row - q.row) || d == Abs(p.col - q.col)
  {
    Max(Abs(p.row - q.row), Abs(p.col - q.col))
  }

  /** City-block distance: the sum of the two coordinate differences. It is
      never below the Chebyshev distance and never above twice it. */
  function Manhattan(p: Pos, q: Pos): (d: nat)
    ensures d == 0 <==> p == q
    ensures Chebyshev(p, q) <= d <= 2 * Chebyshev(p, q)
  {
    Abs(p.row - q.row) + Abs(p.col - q.col)
  }

  /** Both distances are symmetric in their arguments. */
  lemma Symmetric(p: Pos, q: Pos)
    ensures Chebyshev(p, q) == Chebyshev(q, p)
    ensures Manhattan(p, q) == Manhattan(q, p)
  {
  }

  /** Chebyshev distance obeys the triangle inequality. */
  lemma Triangle(p: Pos, q: Pos, r: Pos)
    ensures Chebyshev(p, r) <= Chebyshev(p, q) + Chebyshev(q, r)
  {
  }

  /** Two distinct cells that touch, orthogonally or diagonally. */
  predicate Adjacent(p: Pos, q: Pos) {
    Chebyshev(p, q) == 1
  }

}
