/** Turning a path of cells into the environment's action codes, and the
    replay that walks the codes back into cells. */
module Actions {

  import opened Options
  import opened Grid
  import opened Metrics

  /** The eight compass actions. North lowers the row, East raises the
      column. */
  datatype Action = N | E | S | W | NE | SE | SW | NW

  /** The action's code in the environment's action table. */
  function Code(a: Action): (c: int)
    ensures 0 <= c < 8
  {
    match a
    case N => 0
    case E => 1
    case S => 2
    case W => 3
    case NE => 4
    case SE => 5
    case SW => 6
    case NW => 7
  }

  /** The action with code `c`, if any. */
  function Decode(c: int): (a: Option<Action>)
    ensures a.Some? <==> 0 <= c < 8
  {
    if c == 0 then Some(N)
    else if c == 1 then Some(E)
    else if c == 2 then Some(S)
    else if c == 3 then Some(W)
    else if c == 4 then Some(NE)
    else if c == 5 then Some(SE)
    else if c == 6 then Some(SW)
    else if c == 7 then Some(NW)
    else None
  }

  /** Codes and actions are in one-to-one correspondence. */
  lemma CodeRoundTrip(a: Action, c: int)
    ensures Decode(Code(a)) == Some(a)
    ensures Decode(c).Some? ==> Code(Decode(c).value) == c
  {
  }

  /** Row and column change of an action. */
  function RowStep(a: Action): int {
    match a
    case N | NE | NW => -1
    case S | SE | SW => 1
    case E | W => 0
  }

  function ColStep(a: Action): int {
    match a
    case W | NW | SW => -1
    case E | NE | SE => 1
    case N | S => 0
  }

  /** The cell an action leads to: always a neighbour. */
  function Apply(p: Pos, a: Action): (q: Pos)
    ensures Adjacent(p, q)
  {
    Pos(p.row + RowStep(a), p.col + ColStep(a))
  }

  function Sign(n: int): int {
    if n < 0 then -1 else if n > 0 then 1 else 0
  }

  /** The action for one step from `from` to `to`, decided as the source
      does: same column gives North or South, same row West or East,
      otherwise the diagonal by the signs of both changes. A step that
      does not move is reported as South. */
  function ActionFor(from: Pos, to: Pos): (a: Action)
    ensures from == to ==> a == S
    ensures from != to ==> RowStep(a) == Sign(to.row - from.row) && ColStep(a) == Sign(to.col - from.col)
    ensures Adjacent(from, to) ==> Apply(from, a) == to
  {
    if from.col == to.col then
      if from.row > to.row then N else S
    else if from.row == to.row then
      if from.col > to.col then W else E
    else if from.row > to.row && from.col > to.col then NW
    else if from.row > to.row && from.col < to.col then NE
    else if from.row < to.row && from.col > to.col then SW
    else SE
  }

  /** The cell each element of `path` is reached from: `start` for the
      first, the previous element after that. */
  function Prev(start: Pos, path: seq<Pos>, i: nat): Pos
    requires i < |path|
  {
    if i == 0 then start else path[i - 1]
  }

  /** One action code per element of `path`, each for the step into that
      element from the one before it. */
  function ActionsFromPath(start: Pos, path: seq<Pos>): (codes: seq<int>)
    ensures |codes| == |path|
    ensures forall i :: 0 <= i < |codes| ==> 0 <= codes[i] < 8
    ensures forall i {:trigger codes[i]} :: 0 <= i < |codes| ==> codes[i] == Code(ActionFor(Prev(start, path, i), path[i]))
    ensures forall i {:trigger codes[i]} :: 0 <= i < |codes| && Prev(start, path, i) == path[i] ==> codes[i] == 2
    decreases |path|
  {
    if |path| == 0 then []
    else
      var rest := ActionsFromPath(path[0], path[1..]);
      assert forall i :: 1 <= i < |path| ==> Prev(start, path, i) == Prev(path[0], path[1..], i - 1);
      [Code(ActionFor(start, path[0]))] + rest
  }

  /** The cells visited by performing `codes` one after another from
      `start`. */
  function Replay(start: Pos, codes: seq<int>): (path: seq<Pos>)
    requires forall i :: 0 <= i < |codes| ==> 0 <= codes[i] < 8
    ensures |path| == |codes|
    decreases |codes|
  {
    if |codes| == 0 then []
    else
      var next := Apply(start, Decode(codes[0]).value);
      [next] + Replay(next, codes[1..])
  }

  /** Each element of `path` is a neighbour of the one before it (the
      first of `start`): no repeats, no jumps. */
  predicate UnitSteps(start: Pos, path: seq<Pos>) {
    forall i {:trigger Prev(start, path, i)} :: 0 <= i < |path| ==> Adjacent(Prev(start, path, i), path[i])
  }

  /** The first action of a unit-step path leads to its first element, and
      the rest of the path is a unit-step path from there. */
  lemma FirstStep(start: Pos, path: seq<Pos>)
    requires UnitSteps(start, path) && |path| > 0
    ensures Apply(start, Decode(ActionsFromPath(start, path)[0]).value) == path[0]
    ensures ActionsFromPath(start, path)[1..] == ActionsFromPath(path[0], path[1..])
    ensures UnitSteps(path[0], path[1..])
  {
    var rest := path[1..];
    var a := ActionFor(start, path[0]);
    assert Adjacent(Prev(start, path, 0), path[0]);
    CodeRoundTrip(a, 0);
    forall i | 0 <= i < |rest|
      ensures Adjacent(Prev(path[0], rest, i), rest[i])
    {
      assert Prev(path[0], rest, i) == Prev(start, path, i + 1);
    }
  }

  /** Replaying the actions of a path of unit steps walks the path again. */
  lemma {:induction false} ReplayInvertsActions(start: Pos, path: seq<Pos>)
    requires UnitSteps(start, path)
    ensures Replay(start, ActionsFromPath(start, path)) == path
    decreases |path|
  {
    if |path| > 0 {
      var codes := ActionsFromPath(start, path);
      FirstStep(start, path);
      ReplayInvertsActions(path[0], path[1..]);
      assert Replay(start, codes) == [path[0]] + Replay(path[0], codes[1..]);
      assert path == [path[0]] + path[1..];
    }
  }

  /** Recovering the actions from a replayed code list gives the codes
      back. */
  lemma {:induction false} ActionsInvertReplay(start: Pos, codes: seq<int>)
    requires forall i :: 0 <= i < |codes| ==> 0 <= codes[i] < 8
    ensures ActionsFromPath(start, Replay(start, codes)) == codes
    decreases |codes|
  {
    if |codes| > 0 {
      var a := Decode(codes[0]).value;
      CodeRoundTrip(a, codes[0]);
      var next := Apply(start, a);
      assert ActionFor(start, next) == a;
      ActionsInvertReplay(next, codes[1..]);
      assert Replay(start, codes)[1..] == Replay(next, codes[1..]);
    }
  }

}
