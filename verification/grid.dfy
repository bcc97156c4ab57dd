/** Positions and the rectangular tile map that every other module reads. */
module Grid {

  /** A cell position. `row` indexes the map's first axis (the rows of the
      numpy array), `col` its second axis. */
  datatype Pos = Pos(row: int, col: int)

  /** A map snapshot: one integer tile code (a character code) per cell,
      stored row by row. */
  type TileMap = seq<seq<int>>

  function Rows(g: TileMap): nat {
    |g|
  }

  function Cols(g: TileMap): nat {
    if |g| == 0 then 0 else |g[0]|
  }

  /** Every row has the same length, as for a two-dimensional array. */
  predicate Rectangular(g: TileMap) {
    forall i :: 0 <= i < |g| ==> |g[i]| == Cols(g)
  }

  predicate InBounds(g: TileMap, p: Pos) {
    0 <= p.row < Rows(g) && 0 <= p.col < Cols(g)
  }

  /** The tile code stored at an in-bounds position. */
  function At(g: TileMap, p: Pos): int
    requires Rectangular(g) && InBounds(g, p)
  {
    g[p.row][p.col]
  }

  /** All in-bounds positions of the map. */
  ghost function Cells(g: TileMap): (cells: set<Pos>)
    ensures forall p :: p in cells <==> InBounds(g, p)
  {
    var cells := set r, c | 0 <= r < Rows(g) && 0 <= c < Cols(g) :: Pos(r, c);
    assert forall p :: InBounds(g, p) ==> p == Pos(p.row, p.col) && p in cells;
    cells
  }

}
