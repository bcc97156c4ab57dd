/** The move graph that the path search explores, and what a shortest
    distance in it means. */
module Walks {

  import opened Options
  import opened Grid
  import opened Tiles
  import opened Metrics
  import opened Moves

  /** One search step: from an in-bounds cell to an adjacent cell that the
      reference move rule admits under the search's settings (stairs
      passable, diagonals allowed). */
  predicate Edge(g: TileMap, u: Pos, v: Pos) {
    && Rectangular(g) && InBounds(g, u)
    && Direction(u, v).Some? && Legal(g, u, Direction(u, v).value, false)
  }

  /** The search steps out of a cell are exactly the moves the generator
      lists for it. */
  lemma EdgeIsMove(g: TileMap, u: Pos, v: Pos)
    requires Rectangular(g) && InBounds(g, u)
    ensures Edge(g, u, v) <==> v in ValidMoves(g, u, false, true)
  {
    var moves := ValidMoves(g, u, false, true);
    if v in moves {
      var h := Direction(u, v).value;
      ValidMovesExactly(g, u, false, true, h);
    }
    if Edge(g, u, v) {
      ValidMovesExactly(g, u, false, true, Direction(u, v).value);
    }
  }

  /** Consecutive cells of `w` are joined by search steps. */
  ghost predicate IsWalk(g: TileMap, w: seq<Pos>) {
    forall i, j :: 0 <= i && j == i + 1 && j < |w| ==> Edge(g, w[i], w[j])
  }

  /** `w` is a walk from `s` to `t`; it has |w| - 1 steps. */
  ghost predicate WalkFromTo(g: TileMap, w: seq<Pos>, s: Pos, t: Pos) {
    |w| >= 1 && w[0] == s && w[|w| - 1] == t && IsWalk(g, w)
  }

  /** `r` is the hop count of a shortest walk from `s` to `t`, or None when
      no walk reaches `t`. */
  ghost predicate IsShortestDistance(g: TileMap, s: Pos, t: Pos, r: Option<nat>) {
    match r
    case None => forall w :: !WalkFromTo(g, w, s, t)
    case Some(d) =>
      && (exists w :: WalkFromTo(g, w, s, t) && |w| == d + 1)
      && (forall w :: WalkFromTo(g, w, s, t) ==> |w| >= d + 1)
  }

  /** Some walk of exactly `n` steps leads from `s` to `t`. */
  ghost predicate ReachIn(g: TileMap, s: Pos, t: Pos, n: nat) {
    exists w :: WalkFromTo(g, w, s, t) && |w| == n + 1
  }

  /** A walk extended by one more step is a walk. */
  lemma WalkExtend(g: TileMap, w: seq<Pos>, s: Pos, u: Pos, v: Pos)
    requires WalkFromTo(g, w, s, u) && Edge(g, u, v)
    ensures WalkFromTo(g, w + [v], s, v)
  {
    var w' := w + [v];
    forall i | 0 <= i < |w'| - 1
      ensures Edge(g, w'[i], w'[i + 1])
    {
      if i < |w| - 1 {
        assert w'[i] == w[i] && w'[i + 1] == w[i + 1];
      }
    }
  }

  /** A cell reached in `n` steps has each of its moves reached in `n + 1`. */
  lemma ReachStep(g: TileMap, s: Pos, u: Pos, v: Pos, n: nat)
    requires ReachIn(g, s, u, n) && Edge(g, u, v)
    ensures ReachIn(g, s, v, n + 1)
  {
    var w :| WalkFromTo(g, w, s, u) && |w| == n + 1;
    WalkExtend(g, w, s, u, v);
  }

  /** Dropping the last cell of a walk of two or more cells leaves a walk. */
  lemma WalkPrefix(g: TileMap, w: seq<Pos>, s: Pos)
    requires |w| >= 2 && WalkFromTo(g, w, s, w[|w| - 1])
    ensures WalkFromTo(g, w[..|w| - 1], s, w[|w| - 2])
    ensures Edge(g, w[|w| - 2], w[|w| - 1])
  {
    var p := w[..|w| - 1];
    forall i | 0 <= i < |p| - 1
      ensures Edge(g, p[i], p[i + 1])
    {
      assert p[i] == w[i] && p[i + 1] == w[i + 1];
    }
  }

  /** The searched cells after an exhausted search: every step out of a cell
      of `closed` lands in `closed`. */
  ghost predicate ClosedUnderSteps(g: TileMap, closed: set<Pos>) {
    forall u, v :: u in closed && Edge(g, u, v) ==> v in closed
  }

  /** A walk that starts in a step-closed set never leaves it. */
  lemma {:induction false} WalkStaysInClosed(g: TileMap, closed: set<Pos>, w: seq<Pos>, s: Pos, t: Pos)
    requires ClosedUnderSteps(g, closed) && s in closed
    requires WalkFromTo(g, w, s, t)
    ensures t in closed
    decreases |w|
  {
    if |w| > 1 {
      WalkPrefix(g, w, s);
      WalkStaysInClosed(g, closed, w[..|w| - 1], s, w[|w| - 2]);
    }
  }

  /** No walk of k steps covers a Chebyshev distance larger than k. */
  lemma {:induction false} WalkAtLeastChebyshev(g: TileMap, w: seq<Pos>, s: Pos, t: Pos)
    requires WalkFromTo(g, w, s, t)
    ensures |w| - 1 >= Chebyshev(s, t)
    decreases |w|
  {
    if |w| > 1 {
      var u := w[|w| - 2];
      WalkPrefix(g, w, s);
      WalkAtLeastChebyshev(g, w[..|w| - 1], s, u);
      Triangle(s, u, t);
    }
  }

  /** A found distance is never below the Chebyshev distance of its ends. */
  lemma ShortestAtLeastChebyshev(g: TileMap, s: Pos, t: Pos, d: nat)
    requires IsShortestDistance(g, s, t, Some(d))
    ensures d >= Chebyshev(s, t)
  {
    var w :| WalkFromTo(g, w, s, t) && |w| == d + 1;
    WalkAtLeastChebyshev(g, w, s, t);
  }

  /** The shortest distance between two cells is unique: any two results
      that both meet the definition are equal. */
  lemma ShortestDistanceUnique(g: TileMap, s: Pos, t: Pos, r1: Option<nat>, r2: Option<nat>)
    requires IsShortestDistance(g, s, t, r1) && IsShortestDistance(g, s, t, r2)
    ensures r1 == r2
  {
    if r1.Some? && r2.Some? {
      var w1 :| WalkFromTo(g, w1, s, t) && |w1| == r1.value + 1;
      var w2 :| WalkFromTo(g, w2, s, t) && |w2| == r2.value + 1;
      assert |w1| >= r2.value + 1 && |w2| >= r1.value + 1;
    }
  }

  /** A cell is at distance 0 from itself. */
  lemma ShortestToSelf(g: TileMap, s: Pos)
    ensures IsShortestDistance(g, s, s, Some(0))
  {
    assert WalkFromTo(g, [s], s, s);
  }

  /** Steps never decrease a coordinate down to 0, so a walk that starts
      with a positive column keeps a positive column, and likewise for rows. */
  lemma {:induction false} WalkKeepsPositive(g: TileMap, w: seq<Pos>, s: Pos, t: Pos)
    requires WalkFromTo(g, w, s, t)
    ensures s.col > 0 ==> t.col > 0
    ensures s.row > 0 ==> t.row > 0
    decreases |w|
  {
    if |w| > 1 {
      var u := w[|w| - 2];
      WalkPrefix(g, w, s);
      WalkKeepsPositive(g, w[..|w| - 1], s, u);
    }
  }

  /** A walk never moves from a positive row or column onto index 0, so a
      goal there cannot be reached from a start that is not. */
  lemma NoWalkToIndexZero(g: TileMap, s: Pos, t: Pos)
    requires (s.col > 0 && t.col == 0) || (s.row > 0 && t.row == 0)
    ensures IsShortestDistance(g, s, t, None)
  {
    forall w | WalkFromTo(g, w, s, t)
      ensures false
    {
      WalkKeepsPositive(g, w, s, t);
    }
  }

  /** Whatever the map, the shortest distance to a goal in row or column 0
      from a start outside it is "no path". */
  lemma IndexZeroUnreachable(g: TileMap, s: Pos, t: Pos, r: Option<nat>)
    requires IsShortestDistance(g, s, t, r)
    requires (s.col > 0 && t.col == 0) || (s.row > 0 && t.row == 0)
    ensures r == None
  {
    NoWalkToIndexZero(g, s, t);
    ShortestDistanceUnique(g, s, t, r, None);
  }

  /** A one-row, two-column floor map. */
  const FloorPair: TileMap := [[Floor as int, Floor as int]]

  /** On the floor pair a step leads from the first cell to the second. */
  lemma FloorPairStep()
    ensures Edge(FloorPair, Pos(0, 0), Pos(0, 1))
  {
    var g, s, t := FloorPair, Pos(0, 0), Pos(0, 1);
    assert Rectangular(g) && InBounds(g, s);
    assert Direction(s, t) == Some(South);
    assert Legal(g, s, South, false);
  }

  /** On the floor pair the second cell is one step from the first. */
  lemma FloorPairForward()
    ensures IsShortestDistance(FloorPair, Pos(0, 0), Pos(0, 1), Some(1))
  {
    var s, t := Pos(0, 0), Pos(0, 1);
    FloorPairStep();
    WalkExtend(FloorPair, [s], s, s, t);
  }

  /** Distance is not symmetric: on the floor pair the second cell is one
      step from the first, but the first cannot be reached from the
      second. */
  lemma DistanceNotSymmetric()
    ensures IsShortestDistance(FloorPair, Pos(0, 0), Pos(0, 1), Some(1))
    ensures IsShortestDistance(FloorPair, Pos(0, 1), Pos(0, 0), None)
  {
    FloorPairForward();
    NoWalkToIndexZero(FloorPair, Pos(0, 1), Pos(0, 0));
  }
}
