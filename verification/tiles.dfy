/** Tile classification and the landmark scans over a map. */
module Tiles {

  import opened Options
  import opened Grid

  /** The obstacle symbols: vertical wall, horizontal wall, closed door. */
  const Obstacles: string := "|-}"

  const Stairs: int := '>' as int
  const Player: int := '@' as int
  const Floor: char := '.'

  /** A tile blocks movement when its code is one of the obstacle symbols. */
  function IsWall(code: int): (wall: bool)
    ensures wall <==> code == 124 || code == 45 || code == 125
  {
    assert '|' in Obstacles && '-' in Obstacles && '}' in Obstacles;
    exists c | c in Obstacles :: c as int == code
  }

  /** Floor test on a map given as text lines, indexed (column, line); any
      position outside the text is not floor. */
  function IsFloorTile(lines: seq<string>, x: int, y: int): (floor: bool)
    ensures floor ==> 0 <= y < |lines| && 0 <= x < |lines[y]|
    ensures (0 <= y < |lines| && 0 <= x < |lines[y]|) ==> (floor <==> lines[y][x] == Floor)
  {
    if 0 <= y < |lines| && 0 <= x < |lines[y]| then lines[y][x] == Floor else false
  }

  /** Row-major order: an earlier row first, then an earlier column. */
  predicate Before(p: Pos, q: Pos) {
    p.row < q.row || (p.row == q.row && p.col < q.col)
  }

  /** Some cell of the map holds `code`. */
  predicate Occurs(g: TileMap, code: int) {
    exists i, j :: 0 <= i < |g| && 0 <= j < |g[i]| && g[i][j] == code
  }

  /** First column at or after `c` of one row that holds `code`. */
  function FindInRow(row: seq<int>, code: int, c: nat): (found: Option<nat>)
    requires c <= |row|
    ensures found.None? <==> forall j :: c <= j < |row| ==> row[j] != code
    ensures found.Some? ==>
              && c <= found.value < |row|
              && row[found.value] == code
              && forall j :: c <= j < found.value ==> row[j] != code
    decreases |row| - c
  {
    if c == |row| then None
    else if row[c] == code then Some(c)
    else FindInRow(row, code, c + 1)
  }

  /** First cell, in row-major order from row `r` on, that holds `code`. */
  function FindFrom(g: TileMap, code: int, r: nat): (found: Option<Pos>)
    requires r <= |g|
    ensures found.None? <==>
              forall i, j :: r <= i < |g| && 0 <= j < |g[i]| ==> g[i][j] != code
    ensures found.Some? ==>
              && r <= found.value.row < |g|
              && 0 <= found.value.col < |g[found.value.row]|
              && g[found.value.row][found.value.col] == code
              && forall i, j :: r <= i < |g| && 0 <= j < |g[i]| && Before(Pos(i, j), found.value) ==> g[i][j] != code
    decreases |g| - r
  {
    if r == |g| then None
    else match FindInRow(g[r], code, 0)
      case Some(c) => Some(Pos(r, c))
      case None => FindFrom(g, code, r + 1)
  }

  /** Location of the stairs: the first row-major cell holding `>`, or None
      when the map has no stairs. */
  function StairsLocation(g: TileMap): (loc: Option<Pos>)
    ensures loc.None? <==> !Occurs(g, Stairs)
    ensures loc.Some? ==>
              && 0 <= loc.value.row < |g| && 0 <= loc.value.col < |g[loc.value.row]|
              && g[loc.value.row][loc.value.col] == Stairs
              && forall i, j :: 0 <= i < |g| && 0 <= j < |g[i]| && Before(Pos(i, j), loc.value) ==> g[i][j] != Stairs
  {
    FindFrom(g, Stairs, 0)
  }

  /** Location of the player: the first row-major cell holding `@`. The map
      must contain one. */
  function PlayerLocation(g: TileMap): (loc: Pos)
    requires Occurs(g, Player)
    ensures 0 <= loc.row < |g| && 0 <= loc.col < |g[loc.row]|
    ensures g[loc.row][loc.col] == Player
    ensures forall i, j :: 0 <= i < |g| && 0 <= j < |g[i]| && Before(Pos(i, j), loc) ==> g[i][j] != Player
  {
    FindFrom(g, Player, 0).value
  }

}
