/** The move generator: which neighbouring cells a single step may reach. */
module Moves {

  import opened Options
  import opened Grid
  import opened Tiles
  import opened Metrics

  /** The eight step headings, named as the move generator names them. In
      this generator North and South change the second coordinate (`col`),
      East and West the first (`row`). */
  datatype Heading = North | East | South | West | NorthEast | NorthWest | SouthEast | SouthWest

  predicate IsCardinal(h: Heading) {
    h.North? || h.East? || h.South? || h.West?
  }

  /** Position in the fixed output order: N, E, S, W, NE, NW, SE, SW. */
  function Rank(h: Heading): nat {
    match h
    case North => 0
    case East => 1
    case South => 2
    case West => 3
    case NorthEast => 4
    case NorthWest => 5
    case SouthEast => 6
    case SouthWest => 7
  }

  /** The cell one step from `p` in heading `h`. */
  function Target(p: Pos, h: Heading): (q: Pos)
    ensures Adjacent(p, q)
    ensures IsCardinal(h) <==> (q.row == p.row || q.col == p.col)
  {
    match h
    case North => Pos(p.row, p.col - 1)
    case East => Pos(p.row + 1, p.col)
    case South => Pos(p.row, p.col + 1)
    case West => Pos(p.row - 1, p.col)
    case NorthEast => Pos(p.row + 1, p.col - 1)
    case NorthWest => Pos(p.row - 1, p.col - 1)
    case SouthEast => Pos(p.row + 1, p.col + 1)
    case SouthWest => Pos(p.row - 1, p.col + 1)
  }

  /** The heading that leads from `p` to `q`, if `q` is a neighbour of `p`. */
  function Direction(p: Pos, q: Pos): (h: Option<Heading>)
    ensures h.Some? <==> Adjacent(p, q)
    ensures h.Some? ==> Target(p, h.value) == q
  {
    var dr, dc := q.row - p.row, q.col - p.col;
    if dr == 0 && dc == -1 then Some(North)
    else if dr == 1 && dc == 0 then Some(East)
    else if dr == 0 && dc == 1 then Some(South)
    else if dr == -1 && dc == 0 then Some(West)
    else if dr == 1 && dc == -1 then Some(NorthEast)
    else if dr == -1 && dc == -1 then Some(NorthWest)
    else if dr == 1 && dc == 1 then Some(SouthEast)
    else if dr == -1 && dc == 1 then Some(SouthWest)
    else None
  }

  /** Stepping in a heading and reading the heading back gives the same heading. */
  lemma DirectionOfTarget(p: Pos, h: Heading)
    ensures Direction(p, Target(p, h)) == Some(h)
  {
  }

  /** Rank of the heading from `p` to `q`; 8 for a cell that is not a neighbour. */
  function RankOf(p: Pos, q: Pos): nat {
    match Direction(p, q)
    case Some(h) => Rank(h)
    case None => 8
  }

  /** The generator's own test for one heading, guard by guard: a bound
      check (`> 0` for a decreasing coordinate, so index 0 is never entered
      that way; `< limit` for an increasing one), the target is no wall, a
      diagonal also needs both flanking orthogonal cells to be no wall, and
      with `avoidStairs` the target is not the stairs. */
  predicate Admits(g: TileMap, p: Pos, h: Heading, avoidStairs: bool)
    requires Rectangular(g) && InBounds(g, p)
  {
    var x, y := p.row, p.col;
    match h
    case North =>
      && y - 1 > 0 && !IsWall(g[x][y - 1])
      && !(avoidStairs && g[x][y - 1] == Stairs)
    case East =>
      && x + 1 < Rows(g) && !IsWall(g[x + 1][y])
      && !(avoidStairs && g[x + 1][y] == Stairs)
    case South =>
      && y + 1 < Cols(g) && !IsWall(g[x][y + 1])
      && !(avoidStairs && g[x][y + 1] == Stairs)
    case West =>
      && x - 1 > 0 && !IsWall(g[x - 1][y])
      && !(avoidStairs && g[x - 1][y] == Stairs)
    case NorthEast =>
      && y - 1 > 0 && x + 1 < Rows(g)
      && !IsWall(g[x + 1][y - 1]) && !IsWall(g[x][y - 1]) && !IsWall(g[x + 1][y])
      && !(avoidStairs && g[x + 1][y - 1] == Stairs)
    case NorthWest =>
      && y - 1 > 0 && x - 1 > 0
      && !IsWall(g[x - 1][y - 1]) && !IsWall(g[x][y - 1]) && !IsWall(g[x - 1][y])
      && !(avoidStairs && g[x - 1][y - 1] == Stairs)
    case SouthEast =>
      && y + 1 < Cols(g) && x + 1 < Rows(g)
      && !IsWall(g[x + 1][y + 1]) && !IsWall(g[x][y + 1]) && !IsWall(g[x + 1][y])
      && !(avoidStairs && g[x + 1][y + 1] == Stairs)
    case SouthWest =>
      && y + 1 < Cols(g) && x - 1 > 0
      && !IsWall(g[x - 1][y + 1]) && !IsWall(g[x][y + 1]) && !IsWall(g[x - 1][y])
      && !(avoidStairs && g[x - 1][y + 1] == Stairs)
  }

  /** Reference rule for a legal step, stated once for every heading: a
      coordinate that decreases stays above 0, one that increases stays
      below the map's extent, the target is no wall, a diagonal step has
      both flanking orthogonal cells free of walls, and the stairs are
      avoided when asked. */
  predicate Legal(g: TileMap, p: Pos, h: Heading, avoidStairs: bool)
    requires Rectangular(g) && InBounds(g, p)
  {
    var q := Target(p, h);
    && (q.row < p.row ==> q.row > 0)
    && (q.col < p.col ==> q.col > 0)
    && q.row < Rows(g) && q.col < Cols(g)
    && !IsWall(At(g, q))
    && (!IsCardinal(h) ==> !IsWall(g[q.row][p.col]) && !IsWall(g[p.row][q.col]))
    && !(avoidStairs && At(g, q) == Stairs)
  }

  /** The generator's per-heading guards are exactly the reference rule. */
  lemma AdmitsIsLegal(g: TileMap, p: Pos, h: Heading, avoidStairs: bool)
    requires Rectangular(g) && InBounds(g, p)
    ensures Admits(g, p, h, avoidStairs) <==> Legal(g, p, h, avoidStairs)
  {
  }

  /** Headings listed in strictly increasing output order. */
  predicate Ordered(hs: seq<Heading>) {
    forall i, j :: 0 <= i < j < |hs| ==> Rank(hs[i]) < Rank(hs[j])
  }

  /** Headings the generator tries, in the order it tries them. */
  function Order(allowDiagonals: bool): (hs: seq<Heading>)
    ensures Ordered(hs)
    ensures forall h :: h in hs <==> (allowDiagonals || IsCardinal(h))
  {
    var hs := if allowDiagonals then [North, East, South, West, NorthEast, NorthWest, SouthEast, SouthWest]
              else [North, East, South, West];
    assert forall i :: 0 <= i < |hs| ==> Rank(hs[i]) == i;
    assert forall h :: IsCardinal(h) || allowDiagonals ==> Rank(h) < |hs| && hs[Rank(h)] == h;
    hs
  }


  /** Appends the target of every admitted heading of `hs`, in the order of `hs`. */
  function Collect(g: TileMap, p: Pos, avoidStairs: bool, hs: seq<Heading>): (moves: seq<Pos>)
    requires Rectangular(g) && InBounds(g, p)
    ensures |moves| <= |hs|
    ensures forall q :: q in moves ==>
              Direction(p, q).Some? && Direction(p, q).value in hs && Admits(g, p, Direction(p, q).value, avoidStairs)
    ensures forall h :: h in hs && Admits(g, p, h, avoidStairs) ==> Target(p, h) in moves
    ensures Ordered(hs) ==> forall i, j :: 0 <= i < j < |moves| ==> RankOf(p, moves[i]) < RankOf(p, moves[j])
  {
    if |hs| == 0 then []
    else
      var rest := Collect(g, p, avoidStairs, hs[1..]);
      DirectionOfTarget(p, hs[0]);
      if Admits(g, p, hs[0], avoidStairs) then [Target(p, hs[0])] + rest else rest
  }

  /** The legal single-step moves from `p`: every target lies on the map and
      is no wall, is a neighbour of `p`, never enters index 0 by decreasing
      a coordinate, never cuts a wall corner, avoids the stairs when asked,
      and is one of at most four orthogonal moves when diagonals are off.
      Targets come in the fixed heading order, so none repeats. */
  function ValidMoves(g: TileMap, p: Pos, avoidStairs: bool, allowDiagonals: bool): (moves: seq<Pos>)
    requires Rectangular(g) && InBounds(g, p)
    ensures forall q :: q in moves ==> InBounds(g, q) && !IsWall(At(g, q)) && Adjacent(p, q)
    ensures forall q :: q in moves ==> (q.row < p.row ==> q.row > 0) && (q.col < p.col ==> q.col > 0)
    ensures forall q :: q in moves && InBounds(g, q) && q.row != p.row && q.col != p.col ==>
              !IsWall(g[q.row][p.col]) && !IsWall(g[p.row][q.col])
    ensures avoidStairs ==> forall q :: q in moves && InBounds(g, q) ==> At(g, q) != Stairs
    ensures !allowDiagonals ==> |moves| <= 4 && forall q :: q in moves ==> q.row == p.row || q.col == p.col
    ensures forall i, j :: 0 <= i < j < |moves| ==> RankOf(p, moves[i]) < RankOf(p, moves[j])
    ensures forall i, j :: 0 <= i < j < |moves| ==> moves[i] != moves[j]
  {
    var moves := Collect(g, p, avoidStairs, Order(allowDiagonals));
    forall q | q in moves
      ensures Legal(g, p, Direction(p, q).value, avoidStairs)
    {
      AdmitsIsLegal(g, p, Direction(p, q).value, avoidStairs);
    }
    moves
  }

  /** A cell is among the moves exactly when some tried heading leads to it
      under the reference rule. */
  lemma ValidMovesExactly(g: TileMap, p: Pos, avoidStairs: bool, allowDiagonals: bool, h: Heading)
    requires Rectangular(g) && InBounds(g, p)
    ensures Target(p, h) in ValidMoves(g, p, avoidStairs, allowDiagonals) <==>
              (allowDiagonals || IsCardinal(h)) && Legal(g, p, h, avoidStairs)
  {
    AdmitsIsLegal(g, p, h, avoidStairs);
    DirectionOfTarget(p, h);
  }


  /** A three-by-three map of floor. */
  const FloorSquare: TileMap := [[Floor as int, Floor as int, Floor as int],
                                 [Floor as int, Floor as int, Floor as int],
                                 [Floor as int, Floor as int, Floor as int]]

  /** From the centre of an open three-by-three floor, the generator lists
      East, South and South-East but refuses North, West and North-West:
      every step that would lower a coordinate to 0 is refused, although
      those cells are floor. */
  lemma CentreOfFloorSquare()
    ensures var moves := ValidMoves(FloorSquare, Pos(1, 1), false, true);
      && Pos(2, 1) in moves && Pos(1, 2) in moves && Pos(2, 2) in moves
      && Pos(1, 0) !in moves && Pos(0, 1) !in moves && Pos(0, 0) !in moves
  {
    var g, p := FloorSquare, Pos(1, 1);
    assert Rectangular(g);
    assert !IsWall(Floor as int);
    ValidMovesExactly(g, p, false, true, East);
    ValidMovesExactly(g, p, false, true, South);
    ValidMovesExactly(g, p, false, true, SouthEast);
  }

}
