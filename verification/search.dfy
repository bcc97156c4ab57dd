/** Breadth-first shortest-path length and its memo table. */
module Search {

  import opened Options
  import opened Grid
  import opened Moves
  import opened Walks

  /** A queue entry: a cell and the number of steps it was reached in. */
  datatype Entry = Entry(cell: Pos, steps: nat)

  /** The search run as a function of its state: the visited set, the queue,
      and the moves of the cell being expanded that are still to be looked
      at (`pending`, reached in `d` steps). A pending move equal to the goal
      ends the search at `d + 1`; an unvisited one is visited and queued;
      with nothing pending the queue head is expanded; an empty queue means
      no path. */
  ghost function Run(g: TileMap, goal: Pos, visited: set<Pos>, queue: seq<Entry>, pending: seq<Pos>, d: nat): Option<nat>
    requires Rectangular(g) && visited <= Cells(g)
    requires forall i :: 0 <= i < |queue| ==> InBounds(g, queue[i].cell)
    requires forall q :: q in pending ==> InBounds(g, q)
    decreases Cells(g) - visited, |queue|, |pending|
  {
    if |pending| > 0 then
      var next := pending[0];
      if next == goal then Some(d + 1)
      else if next !in visited then
        Run(g, goal, visited + {next}, queue + [Entry(next, d + 1)], pending[1..], d)
      else
        Run(g, goal, visited, queue, pending[1..], d)
    else if |queue| == 0 then None
    else Run(g, goal, visited, queue[1..], ValidMoves(g, queue[0].cell, false, true), queue[0].steps)
  }

  /** Looking at an unvisited pending move visits and queues it. */
  lemma RunVisit(g: TileMap, goal: Pos, visited: set<Pos>, queue: seq<Entry>, pending: seq<Pos>, d: nat)
    requires Rectangular(g) && visited <= Cells(g)
    requires forall i :: 0 <= i < |queue| ==> InBounds(g, queue[i].cell)
    requires forall q :: q in pending ==> InBounds(g, q)
    requires |pending| > 0 && pending[0] != goal && pending[0] !in visited
    ensures visited + {pending[0]} <= Cells(g)
    ensures Run(g, goal, visited, queue, pending, d)
         == Run(g, goal, visited + {pending[0]}, queue + [Entry(pending[0], d + 1)], pending[1..], d)
  {
  }

  /** Looking at a visited pending move only drops it. */
  lemma RunSkip(g: TileMap, goal: Pos, visited: set<Pos>, queue: seq<Entry>, pending: seq<Pos>, d: nat)
    requires Rectangular(g) && visited <= Cells(g)
    requires forall i :: 0 <= i < |queue| ==> InBounds(g, queue[i].cell)
    requires forall q :: q in pending ==> InBounds(g, q)
    requires |pending| > 0 && pending[0] != goal && pending[0] in visited
    ensures Run(g, goal, visited, queue, pending, d) == Run(g, goal, visited, queue, pending[1..], d)
  {
  }

  /** Cells that currently have an entry in the queue. */
  ghost function Queued(queue: seq<Entry>): set<Pos> {
    set i | 0 <= i < |queue| :: queue[i].cell
  }

  /** Every walk from `s` of at most `level` steps ends at a cell that has a
      recorded distance no larger than the walk's length. */
  ghost predicate Covered(g: TileMap, s: Pos, dist: map<Pos, nat>, level: nat) {
    forall w :: IsWalk(g, w) && 1 <= |w| <= level + 1 && w[0] == s ==>
      w[|w| - 1] in dist && dist[w[|w| - 1]] <= |w| - 1
  }

  /** Every step out of an expanded cell lands on a cell whose recorded
      distance is at most one more. */
  ghost predicate Expanded(g: TileMap, done: set<Pos>, dist: map<Pos, nat>) {
    forall u, v :: u in done && Edge(g, u, v) ==> u in dist && v in dist && dist[v] <= dist[u] + 1
  }

  /** Every cell with a recorded distance is reached from `s` in that many steps. */
  ghost predicate Reached(g: TileMap, s: Pos, dist: map<Pos, nat>) {
    forall v :: v in dist ==> ReachIn(g, s, v, dist[v])
  }

  /** No recorded distance is beyond the next level. */
  ghost predicate Within(dist: map<Pos, nat>, level: nat) {
    forall v :: v in dist ==> dist[v] <= level + 1
  }

  /** Each queue entry carries its cell's recorded distance, at least `level`. */
  ghost predicate Lined(queue: seq<Entry>, dist: map<Pos, nat>, level: nat) {
    forall i :: 0 <= i < |queue| ==> queue[i].cell in dist && queue[i].steps == dist[queue[i].cell] && level <= queue[i].steps
  }

  /** Queue entries come in non-decreasing distance order. */
  ghost predicate Sorted(queue: seq<Entry>) {
    forall i, j :: 0 <= i < j < |queue| ==> queue[i].steps <= queue[j].steps
  }

  /** The search state between steps: each visited cell has a recorded
      distance and is reached from the start in that many steps; the goal
      is never visited; the queue holds visited cells in non-decreasing
      distance order, all at the current level or the next; and every cell
      within `level` steps of the start is visited at its true distance. */
  ghost predicate Frontier(g: TileMap, start: Pos, goal: Pos, visited: set<Pos>, queue: seq<Entry>,
                           dist: map<Pos, nat>, level: nat)
  {
    && Rectangular(g)
    && visited == dist.Keys
    && start in visited && goal !in visited
    && visited <= Cells(g)
    && Reached(g, start, dist)
    && Within(dist, level)
    && Lined(queue, dist, level)
    && Sorted(queue)
    && Covered(g, start, dist, level)
  }

  lemma FrontierStart(g: TileMap, start: Pos, goal: Pos)
    requires Rectangular(g) && InBounds(g, start) && start != goal
    ensures Frontier(g, start, goal, {start}, [Entry(start, 0)], map[start := 0], 0)
    ensures Queued([Entry(start, 0)]) == {start}
  {
    assert WalkFromTo(g, [start], start, start);
    assert [Entry(start, 0)][0].cell == start;
  }

  /** Once every cell recorded at distance at most `level` is expanded, the
      walks of `level + 1` steps are covered too. */
  lemma CoverNextLevel(g: TileMap, s: Pos, dist: map<Pos, nat>, done: set<Pos>, level: nat)
    requires Covered(g, s, dist, level) && Expanded(g, done, dist)
    requires forall v :: v in dist && dist[v] <= level ==> v in done
    ensures Covered(g, s, dist, level + 1)
  {
    forall w | IsWalk(g, w) && 1 <= |w| <= level + 2 && w[0] == s
      ensures w[|w| - 1] in dist && dist[w[|w| - 1]] <= |w| - 1
    {
      if |w| == level + 2 {
        WalkPrefix(g, w, s);
        var u := w[|w| - 2];
        assert w[..|w| - 1][|w| - 2] == u;
        assert u in dist && dist[u] <= level;
      }
    }
  }

  /** When the queue head is a level further, the whole level is expanded
      and the search moves to the next level. */
  lemma FrontierNextLevel(g: TileMap, start: Pos, goal: Pos, visited: set<Pos>, queue: seq<Entry>,
                          dist: map<Pos, nat>, level: nat, done: set<Pos>)
    requires Frontier(g, start, goal, visited, queue, dist, level)
    requires visited == done + Queued(queue) && Expanded(g, done, dist)
    requires |queue| > 0 && queue[0].steps == level + 1
    ensures Frontier(g, start, goal, visited, queue, dist, level + 1)
  {
    CoverNextLevel(g, start, dist, done, level);
  }

  lemma QueuedTail(queue: seq<Entry>)
    requires |queue| > 0
    ensures Queued(queue) == Queued(queue[1..]) + {queue[0].cell}
  {
    var rest := queue[1..];
    forall v | v in Queued(queue)
      ensures v in Queued(rest) + {queue[0].cell}
    {
      var i :| 0 <= i < |queue| && queue[i].cell == v;
      if i > 0 {
        assert rest[i - 1] == queue[i];
      }
    }
    forall v | v in Queued(rest)
      ensures v in Queued(queue)
    {
      var i :| 0 <= i < |rest| && rest[i].cell == v;
      assert queue[i + 1] == rest[i];
    }
  }

  lemma QueuedAppend(queue: seq<Entry>, e: Entry)
    ensures Queued(queue + [e]) == Queued(queue) + {e.cell}
  {
    var queue' := queue + [e];
    forall v | v in Queued(queue')
      ensures v in Queued(queue) + {e.cell}
    {
      var i :| 0 <= i < |queue'| && queue'[i].cell == v;
      if i < |queue| {
        assert queue[i] == queue'[i];
      }
    }
    forall v | v in Queued(queue)
      ensures v in Queued(queue')
    {
      var i :| 0 <= i < |queue| && queue[i].cell == v;
      assert queue'[i] == queue[i];
    }
    assert queue'[|queue|].cell == e.cell;
  }

  /** Taking the queue head keeps the state, minus that entry. */
  lemma FrontierPop(g: TileMap, start: Pos, goal: Pos, visited: set<Pos>, queue: seq<Entry>,
                    dist: map<Pos, nat>, level: nat)
    requires Frontier(g, start, goal, visited, queue, dist, level)
    requires |queue| > 0
    ensures Frontier(g, start, goal, visited, queue[1..], dist, level)
    ensures Queued(queue) == Queued(queue[1..]) + {queue[0].cell}
    ensures InBounds(g, queue[0].cell) && queue[0].cell in visited && dist[queue[0].cell] == queue[0].steps
  {
    QueuedTail(queue);
  }

  /** Recording a distance for a new cell keeps earlier coverage. */
  lemma CoveredGrows(g: TileMap, s: Pos, dist: map<Pos, nat>, level: nat, next: Pos, n: nat)
    requires Covered(g, s, dist, level) && next !in dist
    ensures Covered(g, s, dist[next := n], level)
  {
  }

  /** Recording a distance for a new cell keeps earlier expansions valid. */
  lemma ExpandedGrows(g: TileMap, done: set<Pos>, dist: map<Pos, nat>, next: Pos, n: nat)
    requires Expanded(g, done, dist) && next !in dist
    ensures Expanded(g, done, dist[next := n])
  {
  }

  /** Queueing a new cell one level further keeps the queue lined up with
      the recorded distances and sorted. */
  lemma QueueAppend(queue: seq<Entry>, dist: map<Pos, nat>, level: nat, next: Pos)
    requires Lined(queue, dist, level) && Sorted(queue) && Within(dist, level) && next !in dist
    ensures Lined(queue + [Entry(next, level + 1)], dist[next := level + 1], level)
    ensures Sorted(queue + [Entry(next, level + 1)])
  {
    var queue' := queue + [Entry(next, level + 1)];
    assert forall i :: 0 <= i < |queue| ==> queue'[i] == queue[i];
  }

  /** Visiting a new neighbour of an expanded cell at the current level
      records it one level further and queues it. */
  lemma FrontierVisit(g: TileMap, start: Pos, goal: Pos, visited: set<Pos>, queue: seq<Entry>,
                      dist: map<Pos, nat>, level: nat, u: Pos, next: Pos)
    requires Frontier(g, start, goal, visited, queue, dist, level)
    requires u in visited && dist[u] == level && Edge(g, u, next)
    requires next !in visited && next != goal
    ensures Frontier(g, start, goal, visited + {next}, queue + [Entry(next, level + 1)],
                     dist[next := level + 1], level)
  {
    ReachStep(g, start, u, next, level);
    CoveredGrows(g, start, dist, level, next, level + 1);
    var queue' := queue + [Entry(next, level + 1)];
    var dist' := dist[next := level + 1];
    var visited' := visited + {next};
    QueueAppend(queue, dist, level, next);
    assert Reached(g, start, dist');
    assert Within(dist', level);
    assert visited' <= Cells(g);
  }

  /** A goal found among the neighbours of a cell at the current level lies
      exactly one level further. */
  lemma FoundAtNextLevel(g: TileMap, start: Pos, goal: Pos, visited: set<Pos>, queue: seq<Entry>,
                         dist: map<Pos, nat>, level: nat, u: Pos)
    requires Frontier(g, start, goal, visited, queue, dist, level)
    requires u in visited && dist[u] == level && Edge(g, u, goal)
    ensures IsShortestDistance(g, start, goal, Some(level + 1))
  {
    ReachStep(g, start, u, goal, level);
  }

  /** An exhausted search has visited a step-closed set without the goal. */
  lemma ExhaustedUnreachable(g: TileMap, start: Pos, goal: Pos, visited: set<Pos>, queue: seq<Entry>,
                             dist: map<Pos, nat>, level: nat)
    requires Frontier(g, start, goal, visited, queue, dist, level)
    requires Expanded(g, visited, dist)
    ensures IsShortestDistance(g, start, goal, None)
  {
    forall w | WalkFromTo(g, w, start, goal)
      ensures false
    {
      WalkStaysInClosed(g, visited, w, start, goal);
    }
  }

  /** `moves` lists exactly the search steps out of `u`. */
  ghost predicate StepList(g: TileMap, u: Pos, moves: seq<Pos>) {
    && (forall i :: 0 <= i < |moves| ==> Edge(g, u, moves[i]) && InBounds(g, moves[i]))
    && (forall v :: Edge(g, u, v) ==> v in moves)
  }

  lemma MovesAreSteps(g: TileMap, u: Pos)
    requires Rectangular(g) && InBounds(g, u)
    ensures StepList(g, u, ValidMoves(g, u, false, true))
  {
    var moves := ValidMoves(g, u, false, true);
    forall v
      ensures Edge(g, u, v) <==> v in moves
    {
      EdgeIsMove(g, u, v);
    }
  }

  /** Having looked at every move of `u`, `u` counts as expanded. */
  lemma ExpandedAdd(g: TileMap, done: set<Pos>, dist: map<Pos, nat>, u: Pos, moves: seq<Pos>)
    requires Expanded(g, done, dist) && StepList(g, u, moves)
    requires u in dist && forall j :: 0 <= j < |moves| ==> moves[j] in dist && dist[moves[j]] <= dist[u] + 1
    ensures Expanded(g, done + {u}, dist)
  {
  }


  /** The search run from a state between expansions answers the shortest
      distance. */
  lemma {:induction false} RunIdle(g: TileMap, start: Pos, goal: Pos, visited: set<Pos>, queue: seq<Entry>, d: nat,
                                   done: set<Pos>, dist: map<Pos, nat>, level: nat)
    requires Frontier(g, start, goal, visited, queue, dist, level)
    requires visited == done + Queued(queue) && Expanded(g, done, dist)
    ensures forall i :: 0 <= i < |queue| ==> InBounds(g, queue[i].cell)
    ensures IsShortestDistance(g, start, goal, Run(g, goal, visited, queue, [], d))
    decreases Cells(g) - visited, |queue|, 0, 0
  {
    if |queue| == 0 {
      ExhaustedUnreachable(g, start, goal, visited, queue, dist, level);
    } else {
      var level' := level;
      if queue[0].steps == level + 1 {
        FrontierNextLevel(g, start, goal, visited, queue, dist, level, done);
        level' := level + 1;
      }
      FrontierPop(g, start, goal, visited, queue, dist, level');
      var u := queue[0].cell;
      var moves := ValidMoves(g, u, false, true);
      MovesAreSteps(g, u);
      assert moves[0..] == moves;
      RunBusy(g, start, goal, visited, queue[1..], moves, 0, queue[0].steps, done, dist, level', u);
    }
  }

  /** The search run from a state in the middle of expanding `u`, with the
      moves before `k` already looked at, answers the shortest distance. */
  lemma {:induction false} RunBusy(g: TileMap, start: Pos, goal: Pos, visited: set<Pos>, queue: seq<Entry>,
                                   moves: seq<Pos>, k: nat, d: nat, done: set<Pos>, dist: map<Pos, nat>, level: nat, u: Pos)
    requires Frontier(g, start, goal, visited, queue, dist, level)
    requires visited == done + Queued(queue) + {u} && Expanded(g, done, dist)
    requires u in dist && dist[u] == d == level
    requires StepList(g, u, moves)
    requires k <= |moves| && forall j :: 0 <= j < k ==> moves[j] in dist && dist[moves[j]] <= d + 1
    ensures forall i :: 0 <= i < |queue| ==> InBounds(g, queue[i].cell)
    ensures IsShortestDistance(g, start, goal, Run(g, goal, visited, queue, moves[k..], d))
    decreases Cells(g) - visited, |queue|, |moves| - k + 1, 1
  {
    if k == |moves| {
      RunDone(g, start, goal, visited, queue, moves, d, done, dist, level, u);
    } else if moves[k] == goal {
      FoundAtNextLevel(g, start, goal, visited, queue, dist, level, u);
    } else if moves[k] !in visited {
      RunVisitNext(g, start, goal, visited, queue, moves, k, d, done, dist, level, u);
    } else {
      assert moves[k..][1..] == moves[k + 1..];
      RunBusy(g, start, goal, visited, queue, moves, k + 1, d, done, dist, level, u);
    }
  }

  /** Visiting the move at `k` of the cell being expanded keeps the state
      that `RunBusy` needs, with the move looked at. */
  lemma VisitState(g: TileMap, start: Pos, goal: Pos, visited: set<Pos>, queue: seq<Entry>,
                   moves: seq<Pos>, k: nat, d: nat, done: set<Pos>, dist: map<Pos, nat>, level: nat, u: Pos)
    requires Frontier(g, start, goal, visited, queue, dist, level)
    requires visited == done + Queued(queue) + {u} && Expanded(g, done, dist)
    requires u in dist && dist[u] == d == level
    requires k < |moves| && Edge(g, u, moves[k])
    requires forall j :: 0 <= j < k ==> moves[j] in dist && dist[moves[j]] <= d + 1
    requires moves[k] != goal && moves[k] !in visited
    ensures Frontier(g, start, goal, visited + {moves[k]}, queue + [Entry(moves[k], d + 1)], dist[moves[k] := d + 1], level)
    ensures visited + {moves[k]} == done + Queued(queue + [Entry(moves[k], d + 1)]) + {u}
    ensures Expanded(g, done, dist[moves[k] := d + 1])
    ensures forall j :: 0 <= j < k + 1 ==> moves[j] in dist[moves[k] := d + 1] && dist[moves[k] := d + 1][moves[j]] <= d + 1
  {
    var next := moves[k];
    FrontierVisit(g, start, goal, visited, queue, dist, level, u, next);
    QueuedAppend(queue, Entry(next, d + 1));
    ExpandedGrows(g, done, dist, next, d + 1);
  }

  /** The step of `RunBusy` that visits a new cell. */
  lemma {:induction false} RunVisitNext(g: TileMap, start: Pos, goal: Pos, visited: set<Pos>, queue: seq<Entry>,
                                        moves: seq<Pos>, k: nat, d: nat, done: set<Pos>, dist: map<Pos, nat>, level: nat, u: Pos)
    requires Frontier(g, start, goal, visited, queue, dist, level)
    requires visited == done + Queued(queue) + {u} && Expanded(g, done, dist)
    requires u in dist && dist[u] == d == level
    requires StepList(g, u, moves)
    requires k < |moves| && forall j :: 0 <= j < k ==> moves[j] in dist && dist[moves[j]] <= d + 1
    requires moves[k] != goal && moves[k] !in visited
    ensures forall i :: 0 <= i < |queue| ==> InBounds(g, queue[i].cell)
    ensures IsShortestDistance(g, start, goal, Run(g, goal, visited, queue, moves[k..], d))
    decreases Cells(g) - visited, |queue|, |moves| - k + 1, 0
  {
    var next := moves[k];
    VisitState(g, start, goal, visited, queue, moves, k, d, done, dist, level, u);
    RunVisit(g, goal, visited, queue, moves[k..], d);
    assert moves[k..][1..] == moves[k + 1..];
    RunBusy(g, start, goal, visited + {next}, queue + [Entry(next, d + 1)], moves, k + 1, d,
            done, dist[next := d + 1], level, u);
  }

  /** The step of `RunBusy` that finishes expanding `u`. */
  lemma {:induction false} RunDone(g: TileMap, start: Pos, goal: Pos, visited: set<Pos>, queue: seq<Entry>,
                                   moves: seq<Pos>, d: nat, done: set<Pos>, dist: map<Pos, nat>, level: nat, u: Pos)
    requires Frontier(g, start, goal, visited, queue, dist, level)
    requires visited == done + Queued(queue) + {u} && Expanded(g, done, dist)
    requires u in dist && dist[u] == d == level
    requires StepList(g, u, moves)
    requires forall j :: 0 <= j < |moves| ==> moves[j] in dist && dist[moves[j]] <= d + 1
    ensures forall i :: 0 <= i < |queue| ==> InBounds(g, queue[i].cell)
    ensures IsShortestDistance(g, start, goal, Run(g, goal, visited, queue, moves[|moves|..], d))
    decreases Cells(g) - visited, |queue|, 1, 0
  {
    ExpandedAdd(g, done, dist, u, moves);
    RunIdle(g, start, goal, visited, queue, d, done + {u}, dist, level);
  }

  /** The search run from its initial state answers the shortest distance. */
  lemma RunFromStart(g: TileMap, start: Pos, goal: Pos)
    requires Rectangular(g) && InBounds(g, start) && start != goal
    ensures IsShortestDistance(g, start, goal, Run(g, goal, {start}, [Entry(start, 0)], [], 0))
  {
    FrontierStart(g, start, goal);
    RunIdle(g, start, goal, {start}, [Entry(start, 0)], 0, {}, map[start := 0], 0);
  }

  /** Looks at the moves of the cell being expanded, reached in `d` steps:
      stops as soon as one is the goal, and otherwise visits and queues the
      unvisited ones in order. */
  method ScanMoves(g: TileMap, goal: Pos, moves: seq<Pos>, d: nat, visited: set<Pos>, queue: seq<Entry>)
    returns (found: bool, visited': set<Pos>, queue': seq<Entry>)
    requires Rectangular(g) && visited <= Cells(g)
    requires forall i :: 0 <= i < |queue| ==> InBounds(g, queue[i].cell)
    requires forall q :: q in moves ==> InBounds(g, q)
    ensures found <==> goal in moves
    ensures visited' <= Cells(g)
    ensures forall i :: 0 <= i < |queue'| ==> InBounds(g, queue'[i].cell)
    ensures visited <= visited' && (visited' == visited ==> queue' == queue)
    ensures found ==> Run(g, goal, visited, queue, moves, d) == Some(d + 1)
    ensures !found ==> Run(g, goal, visited, queue, moves, d) == Run(g, goal, visited', queue', [], 0)
  {
    visited', queue' := visited, queue;
    var k := 0;
    while k < |moves|
      invariant k <= |moves| && goal !in moves[..k]
      invariant visited' <= Cells(g)
      invariant forall i :: 0 <= i < |queue'| ==> InBounds(g, queue'[i].cell)
      invariant visited <= visited' && (visited' == visited ==> queue' == queue)
      invariant Run(g, goal, visited, queue, moves, d) == Run(g, goal, visited', queue', moves[k..], d)
    {
      var next := moves[k];
      assert moves[k..][1..] == moves[k + 1..];
      if next == goal {
        return true, visited', queue';
      }
      if next !in visited' {
        RunVisit(g, goal, visited', queue', moves[k..], d);
        visited' := visited' + {next};
        queue' := queue' + [Entry(next, d + 1)];
      } else {
        RunSkip(g, goal, visited', queue', moves[k..], d);
      }
      assert moves[..k + 1] == moves[..k] + [next];
      k := k + 1;
    }
    assert moves[..k] == moves;
    return false, visited', queue';
  }

  /** Length of a shortest walk from `start` to `goal` through the moves of
      the search's move generator, or None when `goal` cannot be reached.
      A search from a cell to itself answers 0 without looking at the map. */
  method BfsPathLength(g: TileMap, start: Pos, goal: Pos) returns (r: Option<nat>)
    requires Rectangular(g)
    requires start == goal || InBounds(g, start)
    ensures start == goal ==> r == Some(0)
    ensures IsShortestDistance(g, start, goal, r)
    ensures r.None? ==> forall w :: !WalkFromTo(g, w, start, goal)
    ensures r.Some? ==> exists w :: WalkFromTo(g, w, start, goal) && |w| == r.value + 1
    ensures r.Some? ==> forall w :: WalkFromTo(g, w, start, goal) ==> |w| >= r.value + 1
  {
    if start == goal {
      assert WalkFromTo(g, [start], start, goal);
      return Some(0);
    }
    var visited: set<Pos> := {start};
    var queue: seq<Entry> := [Entry(start, 0)];
    ghost var answer := Run(g, goal, visited, queue, [], 0);
    RunFromStart(g, start, goal);
    while |queue| > 0
      invariant visited <= Cells(g)
      invariant forall i :: 0 <= i < |queue| ==> InBounds(g, queue[i].cell)
      invariant Run(g, goal, visited, queue, [], 0) == answer
      decreases Cells(g) - visited, |queue|
    {
      var u, d := queue[0].cell, queue[0].steps;
      queue := queue[1..];
      var moves := ValidMoves(g, u, false, true);
      var found;
      found, visited, queue := ScanMoves(g, goal, moves, d, visited, queue);
      if found {
        return Some(d + 1);
      }
    }
    return None;
  }

  /** A memo table of search answers keyed by (start, goal); a missing
      path is stored as None. */
  type Cache = map<(Pos, Pos), Option<nat>>

  /** Every entry of the table is the shortest distance for its key. */
  ghost predicate CacheSound(g: TileMap, cache: Cache) {
    forall key :: key in cache ==> IsShortestDistance(g, key.0, key.1, cache[key])
  }

  /** The search through a memo table: a stored answer for (start, goal) is
      returned as is and the table is left alone; otherwise the search runs
      and its answer is stored under exactly that key. The key is the
      ordered pair, so (goal, start) is a different entry. */
  method CachedBfs(g: TileMap, start: Pos, goal: Pos, cache: Cache) returns (r: Option<nat>, cache': Cache)
    requires Rectangular(g)
    requires (start, goal) in cache || start == goal || InBounds(g, start)
    ensures (start, goal) in cache ==> r == cache[(start, goal)] && cache' == cache
    ensures (start, goal) !in cache ==> IsShortestDistance(g, start, goal, r)
    ensures cache'.Keys == cache.Keys + {(start, goal)}
    ensures forall key :: key in cache ==> cache'[key] == cache[key]
    ensures cache'[(start, goal)] == r
    ensures CacheSound(g, cache) ==> CacheSound(g, cache') && IsShortestDistance(g, start, goal, r)
  {
    var key := (start, goal);
    if key in cache {
      return cache[key], cache;
    }
    r := BfsPathLength(g, start, goal);
    cache' := cache[key := r];
  }

  /** Whatever route fills the table, a sound table answers the same as a
      fresh search. */
  lemma CachedAgreesWithSearch(g: TileMap, cache: Cache, start: Pos, goal: Pos, answer: Option<nat>)
    requires CacheSound(g, cache) && (start, goal) in cache
    requires IsShortestDistance(g, start, goal, answer)
    ensures cache[(start, goal)] == answer
  {
    ShortestDistanceUnique(g, start, goal, cache[(start, goal)], answer);
  }

}
