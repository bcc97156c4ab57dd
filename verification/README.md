# Grid navigation helpers of the NetHack agent, in Dafny

This project models the grid-navigation core of `utils.py`. Its parts:

- **tile tests**: wall and floor;
- **landmark scans**: where the player is and where the stairs are;
- **move generator**: the neighbouring cells one step may reach;
- **breadth-first search**: the hop count between two cells, plus its memo table;
- **action translator**: turns a path into the environment's action codes;
- **metrics**: the two integer distance heuristics, Chebyshev and Manhattan.

Conventions of the model:

- A map snapshot is a `seq<seq<int>>` of character codes. The operations that index it require it to be rectangular, like the numpy array it stands for.
- A position is `Pos(row, col)`. `row` is the array's first axis: the source's `x` in `get_valid_moves` and its `y` in `actions_from_path`. The two functions name their compass directions differently. The model keeps both namings: `Moves.Heading` for the generator, `Actions.Action` for the translator. They are not identified with each other.
- The search's "no path" answer is `float('inf')` in the source. Here it is `None` of an `Option<nat>`.
- The memo table is a `map` from ordered (start, goal) pairs to answers. It is passed in and handed back, rather than mutated in place.

The move generator is modelled as written, and that includes its boundary guards:

- A step that lowers a coordinate is allowed only when the new coordinate stays `> 0`. So a cell of row 0 is entered only from another cell of row 0, and a cell of column 0 only from another cell of column 0 (`Walks.WalkKeepsPositive`), even when the cells around it are floor.
- `Moves.CentreOfFloorSquare` shows this on an open 3×3 floor.
- The consequence for the search: no cell of row 0 is reachable from a cell with a positive row, and no cell of column 0 from a cell with a positive column (`Walks.IndexZeroUnreachable`).
- It also makes search distances asymmetric. On a one-row map of two floor cells, the second cell is one step from the first, but the first cannot be reached from the second (`Walks.DistanceNotSymmetric`).

The search explores the generator with its defaults: stairs passable, diagonals allowed. Distances are measured in that move graph (`Walks.Edge`). A step is defined there by an independent reference rule, `Moves.Legal`. `Walks.EdgeIsMove` proves that this rule gives exactly the generator's list.

Two consequences of the code that a reader might not expect:

- **Action count.** `actions_from_path` takes the start separately and emits exactly one code per element of `path`, so a path of n cells gives n codes. A repeated position yields South (2).
- **Direction matters.** Because of the guards above, the distance from p to q can differ from the distance from q to p (`Walks.DistanceNotSymmetric`). The memo table is therefore keyed by the ordered (start, goal) pair, as the code keys it.

## Model

| member | source | states |
|---|---|---|
| Tiles.IsWall | utils.py:40-42 | a tile blocks exactly when its code is that of the vertical bar, `-` or `}` (124, 45, 125) |
| Tiles.IsFloorTile | utils.py:34-37 | a text position is floor only if it lies inside the text, and then exactly when it holds `.`; anything outside is not floor |
| Tiles.FindFrom | utils.py:23-24 | the scan from row r finds nothing exactly when no later cell holds the code; otherwise it finds a cell holding the code with no earlier row-major match |
| Tiles.StairsLocation | utils.py:27-31 | None exactly when no cell holds `>`; otherwise the first cell in row-major order holding `>` |
| Tiles.PlayerLocation | utils.py:22-24 | on a map containing `@`, the first cell in row-major order holding `@` |
| Metrics.Chebyshev | utils.py:155-158 | zero exactly for equal positions; bounds both coordinate differences and equals one of them |
| Metrics.Manhattan | utils.py:167-170 | zero exactly for equal positions; never below the Chebyshev distance and never above twice it |
| Metrics.Symmetric | utils.py:155-170 | both distances give the same value with the arguments swapped |
| Metrics.Triangle | utils.py:155-158 | Chebyshev distance obeys the triangle inequality |
| Moves.Target | utils.py:62-112 | each heading's target is a neighbour; cardinal headings keep one coordinate, diagonals change both |
| Moves.Direction | utils.py:62-112 | a heading from p to q exists exactly when q is a neighbour of p, and stepping that way from p reaches q |
| Moves.DirectionOfTarget | utils.py:62-112 | reading back the heading of a step returns the heading taken |
| Moves.AdmitsIsLegal | utils.py:58-112 | the generator's per-heading guards (with the `> 0` test on decreasing coordinates, the `< shape` test on increasing ones, walls, corner flanks and optional stairs) coincide with the single reference rule `Legal` |
| Moves.Admits | utils.py:62-112 | no contract of its own: the generator's guards transcribed heading by heading, `> 0` tests included; `Moves.AdmitsIsLegal` proves it equal to the reference rule `Legal` |
| Moves.Order | utils.py:61-112 | headings are tried in strictly increasing order N, E, S, W, NE, NW, SE, SW; the diagonals are tried exactly when diagonals are allowed |
| Moves.Collect | utils.py:58-114 | the collected cells are no more than the headings tried; each is the target of an admitted tried heading; every admitted tried heading contributes its target; an ordered heading list gives cells in increasing heading order |
| Moves.ValidMoves | utils.py:45-114 | every move is an in-bounds, non-wall neighbour; a decreasing coordinate never reaches 0; a diagonal's two flanking cells are not walls; no stairs when asked to avoid them; without diagonals at most four, all orthogonal; moves come in the fixed heading order, without repeats |
| Moves.ValidMovesExactly | utils.py:45-114 | a neighbour is listed exactly when its heading is tried under the diagonal setting and the reference rule admits it (both directions) |
| Moves.CentreOfFloorSquare | utils.py:62-79 | on an open 3×3 floor the centre may move East, South and South-East but not North, West or North-West, although those cells are floor |
| Walks.EdgeIsMove | utils.py:193 | a search step out of a cell is exactly one of the generator's moves for it under the search's settings |
| Walks.WalkAtLeastChebyshev | utils.py:182-199 | a walk of n steps covers Chebyshev distance at most n |
| Walks.ShortestAtLeastChebyshev | utils.py:182-199 | a shortest distance is never below the Chebyshev distance of its endpoints |
| Walks.ShortestDistanceUnique | utils.py:182-199 | there is only one shortest-distance answer per pair, so any two correct answers agree |
| Walks.ShortestToSelf | utils.py:184-185 | the distance from a cell to itself is 0, on any map |
| Walks.WalkKeepsPositive | utils.py:62-79 | a walk starting in a positive row (column) never ends in row (column) 0 |
| Walks.NoWalkToIndexZero | utils.py:62-79 | no walk leads from a cell off row (column) 0 to a cell on it |
| Walks.IndexZeroUnreachable | utils.py:182-199 | the shortest-distance answer for such a pair is "no path", on every map |
| Walks.FloorPairForward | utils.py:182-199 | on a one-row map of two floor cells, the second is exactly one step from the first |
| Walks.DistanceNotSymmetric | utils.py:173-199 | on that map the forward distance is 1 but the backward answer is "no path": the distance is not symmetric |
| Search.Run | utils.py:191-199 | no contract of its own: the search loop as a function of its state (visited set, queue, moves still to look at); the loop invariant of `Search.BfsPathLength` keeps the method's answer equal to this run, and `Search.RunFromStart` proves the run from the initial state gives the shortest distance |
| Search.ScanMoves | utils.py:193-198 | looking at one cell's moves stops exactly when the goal is among them; otherwise it only adds cells, and it changes the queue only when it adds cells; in both cases it agrees with the search run |
| Search.RunFromStart | utils.py:186-199 | the search run from its initial state yields the shortest distance: the hop count of a shortest walk, or "no path" exactly when no walk exists |
| Search.BfsPathLength | utils.py:182-199 | equal endpoints give 0 without looking at the map; None only when no walk reaches the goal; otherwise a walk of exactly that many steps exists and none is shorter |
| Search.CachedBfs | utils.py:173-179 | a stored answer is returned unchanged with the table untouched; otherwise the search answer is returned and stored under exactly the key (start, goal); no other entry changes; a sound table stays sound and then the answer is the shortest distance |
| Search.CachedAgreesWithSearch | utils.py:173-179 | an entry of a sound table equals any correct search answer for its key |
| Actions.Code | utils.py:8-17 | every action has a code in 0..7 |
| Actions.Decode | utils.py:8-17 | a code decodes to an action exactly when it lies in 0..7 |
| Actions.CodeRoundTrip | utils.py:8-17 | codes and actions are in one-to-one correspondence: decoding an action's code gives the action, and encoding a decoded code gives the code |
| Actions.Apply | utils.py:129-147 | performing an action always moves to a neighbour |
| Actions.ActionFor | utils.py:128-147 | a step that does not move is South; otherwise the action's row and column changes are the signs of the step's changes, so for a neighbour the action leads exactly there |
| Actions.ActionsFromPath | utils.py:117-152 | one code per path element, each in 0..7, each the action of the step into that element from the previous one (the start for the first); a repeated position gives code 2 |
| Actions.FirstStep | utils.py:128-150 | for a path of unit steps, the first code leads to the first element, and the remaining codes are those of the rest of the path |
| Actions.ReplayInvertsActions | utils.py:117-152 | replaying the codes of a path of unit steps walks the path again |
| Actions.ActionsInvertReplay | utils.py:117-152 | translating the cells reached by replaying any list of valid codes gives the list back |

## Left out

- `euclidean_distance` (utils.py:161-164) returns a floating-point square root. Real arithmetic is not modelled.
- `randomize_apple_positions` (utils.py:202-237) depends on a random number generator and text parsing outside the navigation core. `is_floor_tile`, which it uses, is modelled.
- `print_path_on_map`, `simulate_path`, `save_images_as_video` and `plot_3d_surfaces` (utils.py:240-357) are printing, environment stepping, video and plotting. They are not modelled.
- The `directions` label list (utils.py:19) is unused by the core.
- Tiles.IsWall: a code outside `chr`'s range (negative, or at least 0x110000) makes the source raise. The model answers "not a wall" for such codes.
- Tiles.StairsLocation and Tiles.PlayerLocation fix the searched symbol to the defaults `>` and `@`. `Tiles.FindFrom` is the same scan for any code.
- Tiles.PlayerLocation requires the player to be on the map. Otherwise the source raises an index error, which is not modelled.
- Moves.ValidMoves requires the current position to be inside the map. For a position outside it, the source may index with Python's negative-index wrap or raise. This is not modelled.
- Search.BfsPathLength likewise requires an in-bounds start unless start equals goal.
- Search.BfsPathLength does not state the rows × cols bound on the number of expansions. Termination is proved, measured by the unvisited cells and the queue length.
- Search.CachedBfs: "at most one search per key" is a statement about call counts. The contract gives the consequence instead: after any call the key is present, so a repeat call takes the stored-answer branch and leaves the table as it is.
- The memo table is a value passed in and handed back. In-place mutation of a shared dictionary, and its concurrency hazards, are not modelled.
