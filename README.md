# Greedy min-max VRP over an occupancy grid — Dafny model

This project models the core of the greedy vehicle-routing solver in
`src/VrpGreedyFW.cpp`. The solver reads a row-major occupancy grid (`0` = free)
and builds the 4-connected adjacency matrix of the free cells. It places a node
at `(2*row, 2*col)` for every cell and collects the free cells into the pool of
unvisited nodes. Every agent gets a closed tour `[STARTNODE, STARTNODE]`
anchored at cell 5. The pool is then spread over the tours by greedy cheapest
insertion in two phases:

- **createCycles.** The bootstrap gives each tour, in fleet order, the pool node
  whose insertion between the two anchors gives the shortest tour.
- **Balancing loop of solve.** Each step scans node, then tour, then position.
  It keeps the insertion whose tentative tour length, minus the current longest
  tour length `bigL`, is smallest. Only insertions whose two surrounding tour
  nodes lie within the locality radius `minDist + MAX_FOV` are considered.

Modules:

- `Grid` (grid.dfy): cell indices, rows and columns; the adjacency
  specification (`Orthogonal`, `Edge`, `Weight`); a step-by-step description of
  createGraph's scan (`GraphSoFar`); node positions, squared distances and the
  locality filter `Near`.
- `Tours` (tours.dfy): `vector::insert`/`vector::erase` as `InsertAt`/`RemoveAt`,
  closed tours, the multiset of all tour interiors, the fleet invariant `Fleet`,
  and `PathLength`.
- `Selection` (selection.dfy): the scans that choose what to insert. These are
  the bootstrap's first cheapest node (`CheapestFirst` against `FirstMin`), the
  longest tour (`LongestTour`) and the balancing step's choice (`SelectInsertion`
  against `IsSelected`; its innermost loop is `ScanTour`, whose body is
  `ExaminePosition`). It also holds the specifications of the two insertion
  phases as functions of the starting state: `Seeded` (createCycles: `SeedStep`
  per tour in fleet order) and `GreedyTrace` (the balancing loop: a sequence of
  IsSelected insertions).
- `Solver` (vrp_greedy.dfy): the class `VrpGreedy`. Its fields are the occupancy
  vector, the two matrices (as `array2<int>`), the nodes, the pool, the free
  count and the tours. Its methods are `CreateGraph`, `Init` (with its
  tail `Populate`, the placement scan `PlaceNodes` and the fleet start
  `StartFleet`), `BootstrapTour`/`CreateCycles`, and
  `InsertBest`/`Balance`/`Solve`. `CreateGraph`'s per-cell neighbour scan is
  `LinkNeighbours`.

Modelling conventions:

- **Distances and lengths.** Positions are integers, so squared distances are
  exact. The locality radius is `(2 + FLT_MIN) * 1.4143 + 2 = 4.8286...` on
  every grid of at least two cells. A squared distance (always a multiple of 4)
  is within it exactly when it is at most `NEAR_SQ = 23`. The square root is a
  parameter `sqrt: int -> real` of the solver. `PathLength` is the sum of
  `sqrt` of the squared leg lengths.
- **Inf.** `Inf` comes from a header that is not part of this model. It is a
  constructor parameter `inf`.
- **FLT_MAX / -FLT_MAX.** The `FLT_MAX` start values of `liMin`/`deltaBest` are
  boolean "found" flags. The `-FLT_MAX` start of `bigL` is `None`.
- **Iterators.** The iterators `itr`/`itc` held in `choice` are a tour index
  and a position index (`Choice(v, t, p)`).
- **Undefined behaviour.** The source has three paths that throw or have
  undefined behaviour. Each is an explicit `Status`:
  - `StartNodeOutOfRange`: `access_vec.at(STARTNODE)` throws on a grid of at
    most 5 cells.
  - `TooFewFreeNodes`: createCycles reaches a tour with an empty pool and
    inserts and erases a stale choice.
  - `NoFeasibleInsertion`: a balancing step finds no candidate within the
    radius and commits a stale choice.

## Model

| member | source | states |
|---|---|---|
| Grid.CellOfIndex | src/VrpGreedyFW.cpp:145-146 | row `i / gridSizeY` and column `i % gridSizeY` recover (r, c) from index r*gridSizeY + c |
| Grid.CellIndexBound | src/VrpGreedyFW.cpp:151-157 | a neighbour that passes the range check has an index inside the matrix |
| Grid.WeightFacts | src/VrpGreedyFW.cpp:143-166 | the adjacency weight is symmetric and Inf on the diagonal. An occupied cell has only Inf entries. When Inf is not 1, weight 1 holds exactly between two free orthogonal neighbours |
| Grid.GraphSoFarEnds | src/VrpGreedyFW.cpp:123-125 | before the scan every entry is Inf; after scanning all n cells the matrix is the adjacency specification `Weight` |
| Grid.GraphSoFarStep | src/VrpGreedyFW.cpp:147-161 | one offset of a free cell sets exactly the two entries (i, nb) and (nb, i) to 1. This happens when the range, not-self and not-diagonal checks pass and the neighbour is free. Every other entry keeps its value |
| Grid.NodeAt | src/VrpGreedyFW.cpp:190-191 | node k carries its cell's occupancy flag; its position has posx >= 0 and 0 <= posy < 2*gridSizeY |
| Grid.NodeAtIndex | src/VrpGreedyFW.cpp:190 | setPos(2*i, 2*j) inverts the index: both coordinates of node k are even and (posx/2)*gridSizeY + posy/2 == k |
| Grid.SqDist | src/VrpGreedyFW.cpp:413-421 | the squared distance between two node positions is 4 times the squared cell offset, and is non-negative |
| Grid.MinDistSpacing | src/VrpGreedyFW.cpp:202 | minDist is measured between nodes 0 and 1, whose positions are 2 apart on every grid |
| Grid.NearCells | src/VrpGreedyFW.cpp:349-350 | the locality filter `Near` admits exactly the cell offsets with dr^2 + dc^2 <= 5. It is symmetric and admits every orthogonal neighbour |
| Grid.NearRadius | src/VrpGreedyFW.cpp:349-350 | an integer squared distance is at most NEAR_SQ = 23 exactly when it is within the squared radius (2 + 2 * 1.4143)^2 that `minDist + MAX_FOV` gives |
| Tours.InsertAt | src/VrpGreedyFW.cpp:359 | insertion before position p: one longer, x at p, earlier elements kept, later elements shifted by one |
| Tours.RemoveAt | src/VrpGreedyFW.cpp:383-384 | erasure at k: one shorter, earlier elements kept, later elements shifted down by one |
| Tours.InsertRemoveInverse | src/VrpGreedyFW.cpp:381-384 | erasing the element just inserted gives back the sequence, and re-inserting an erased element restores it |
| Tours.RemoveAtMultiset | src/VrpGreedyFW.cpp:383-384 | erasure removes exactly one occurrence of the erased node |
| Tours.RemoveAtAscending | src/VrpGreedyFW.cpp:256-257 | erasure keeps the pool strictly ascending, so the relative order of the remaining nodes is preserved |
| Tours.AscendingOnce | src/VrpGreedyFW.cpp:193-195 | an ascending pool holds each node at most once |
| Tours.InteriorsUpdate | src/VrpGreedyFW.cpp:381 | replacing one tour changes the interior multiset of the fleet by exactly that tour's interiors |
| Tours.InteriorsOfTrivial | src/VrpGreedyFW.cpp:206-211 | a fleet of [S, S] tours has no interior node |
| Tours.InsertInterior | src/VrpGreedyFW.cpp:343 | insertion at an interior position 1..\|t\|-1 keeps the tour closed at the anchor and makes it one longer. Its interior gains exactly the inserted node, at position p-1 |
| Tours.MoveConserves | src/VrpGreedyFW.cpp:381-384 | moving pool[k] into a tour interior leaves the multiset of tour interiors plus pool unchanged |
| Tours.MoveKeepsFleet | src/VrpGreedyFW.cpp:381-384 | the move keeps the fleet invariant: one closed tour per agent, ascending pool, interiors plus pool equal to the initial pool |
| Tours.Trivial | src/VrpGreedyFW.cpp:206-211 | the initial fleet has one tour per agent, each [S, S]: closed at the anchor and of length 2 |
| Tours.TrivialFleet | src/VrpGreedyFW.cpp:200-211 | numAgents tours [S, S] with the freshly collected pool satisfy the fleet invariant |
| Tours.FleetComplete | src/VrpGreedyFW.cpp:315 | when the loop exits with an empty pool, every initial pool node lies in exactly one interior position and no other node does |
| Tours.PathLengthSnoc | src/VrpGreedyFW.cpp:78-88 | the length of a tour of at least two nodes is the length without its last node plus the last leg, so `PathLength` is the loop's running sum of legs |
| Tours.InsertionLength | src/VrpGreedyFW.cpp:78-88 | inserting x before position p replaces the leg t[p-1] -> t[p] by the two legs t[p-1] -> x -> t[p] in the tour length |
| Selection.FirstMin | src/VrpGreedyFW.cpp:249-252 | a strict-less scan selects an index of minimal cost that is strictly below every earlier cost |
| Selection.FirstMinUnique | src/VrpGreedyFW.cpp:249-252 | at most one index is minimal and strictly below all earlier costs, so that characterisation determines the bootstrap choice |
| Selection.CheapestFirst | src/VrpGreedyFW.cpp:235-254 | it finds a node exactly when the pool is non-empty. The node is the first pool index whose insertion between the two first tour nodes gives minimal tentative length |
| Selection.SeedStep | src/VrpGreedyFW.cpp:235-257 | one pass of createCycles on tour i changes only tour i, which grows by one node, and erases exactly one pool node |
| Selection.Seeded | src/VrpGreedyFW.cpp:232-258 | seeding tours 0..i-1 in fleet order removes i pool nodes and leaves tours i.. untouched |
| Selection.SeededNext | src/VrpGreedyFW.cpp:232-258 | seeding one more tour applies SeedStep to the state Seeded left for the earlier tours; tour i still has its opening anchor |
| Selection.SeededLengths | src/VrpGreedyFW.cpp:232-258 | after seeding tours 0..i-1 each of them is exactly one node longer and every other tour keeps its length |
| Selection.LongestTour | src/VrpGreedyFW.cpp:329-336 | bigL is absent exactly for an empty fleet. Otherwise it is at least every tour length and equal to some tour's length |
| Selection.SelectedUnique | src/VrpGreedyFW.cpp:340-377 | the selection rule is deterministic: at most one (v, t, p) satisfies it |
| Selection.GreedyTraceExtend | src/VrpGreedyFW.cpp:315-386 | a run of the balancing loop followed by one more IsSelected insertion and erasure is a run one step longer |
| Selection.GreedyTraceLength | src/VrpGreedyFW.cpp:381-384 | every step of a run erases exactly one pool node: the final pool size plus the number of steps is the initial pool size |
| Selection.GreedyTraceDeterministic | src/VrpGreedyFW.cpp:315-386 | two runs of the same length from the same state make the same choices and end with the same tours and pool |
| Selection.ExaminePosition | src/VrpGreedyFW.cpp:349-374 | one position keeps the scan state exact. See the note below the table |
| Selection.ScanTour | src/VrpGreedyFW.cpp:342-375 | after every position of tour t for node v, with liMin reset for the tour, the global choice is still the first of minimal length among all candidates examined so far |
| Selection.SelectInsertion | src/VrpGreedyFW.cpp:338-377 | see the note below the table |
| Solver.VrpGreedy.constructor | src/VrpGreedyFW.cpp:65-70 | the solver holds the given grid shape, agent count and occupancy vector, with no nodes, pool or tours yet |
| Solver.VrpGreedy.CreateGraph | src/VrpGreedyFW.cpp:118-172 | graph[a,b] is Weight of the occupancy vector, hence symmetric with an Inf diagonal. distanceMat equals graph except for a zero diagonal |
| Solver.VrpGreedy.LinkNeighbours | src/VrpGreedyFW.cpp:144-165 | after the nine offsets of free cell i, the matrix holds weight 1 in both directions between i and each free in-range orthogonal neighbour. The entries for earlier cells are kept |
| Solver.VrpGreedy.PlaceNodes | src/VrpGreedyFW.cpp:188-198 | node row*gridSizeY+col sits at (2*row, 2*col) with its cell's occupancy. The pool is strictly ascending and holds exactly the free cells |
| Solver.VrpGreedy.Init | src/VrpGreedyFW.cpp:175-216 | see the note below the table |
| Solver.VrpGreedy.Populate | src/VrpGreedyFW.cpp:184-215 | see the note on Init below the table: Populate carries every guarantee of Init's non-failing path |
| Solver.VrpGreedy.StartFleet | src/VrpGreedyFW.cpp:200-215 | the collected pool becomes the initial pool and numFreeNodes its size; with the fleet of [S, S] tours, createCycles leaves exactly the Seeded state, succeeding exactly when the pool holds at least numAgents nodes, with seeded tours of length 3 and the rest of length 2 |
| Solver.VrpGreedy.BootstrapTour | src/VrpGreedyFW.cpp:232-258 | see the note below the table |
| Solver.VrpGreedy.CreateCycles | src/VrpGreedyFW.cpp:219-260 | it succeeds exactly when the pool has at least one node per tour. The tours and pool it leaves are exactly `Seeded`: SeedStep applied to tours 0, 1, ... in fleet order, over all tours on success and up to the exhausted pool otherwise. Those tours grow by one and the rest keep their length. The fleet invariant is kept |
| Solver.VrpGreedy.InsertBest | src/VrpGreedyFW.cpp:326-384 | the (v, t, p) inserted is the IsSelected one. Only tour t changes, by that insertion, and pool[v] is erased. Without a candidate nothing changes. The fleet invariant is kept |
| Solver.VrpGreedy.Balance | src/VrpGreedyFW.cpp:315-389 | see the note below the table |
| Solver.VrpGreedy.Solve | src/VrpGreedyFW.cpp:263-389 | see the note below the table |

Notes on longer rows:

- **Selection.ExaminePosition.** This is the body of the innermost loop.
  Before and after it, liMin is the shortest candidate examined so far in this
  tour. The global choice is the first candidate of minimal length among all
  positions examined, and deltaBest is its length minus bigL.
- **Selection.SelectInsertion.** The choice is a candidate: both tour nodes
  around p are within the radius of pool[v]. Its tentative length is minimal,
  and it is the first minimal candidate in node-tour-position order. Without a
  candidate nothing is found. Subtracting bigL and resetting liMin per tour
  leave this argmin unchanged.
- **Solver.VrpGreedy.Init.** The graph is built from the occupancy before the
  anchor is forced occupied. On a grid of at most 5 cells it fails with
  `StartNodeOutOfRange`. Otherwise:
  - the anchor is occupied;
  - the nodes are placed;
  - the pool is exactly the free cells, ascending, and never contains the
    anchor;
  - the fleet invariant holds;
  - it is `Ok` exactly when there are at least numAgents free cells, and then
    every tour has length 3, the pool has lost numAgents nodes, and the tours
    and pool are exactly `Seeded` from the fleet of [S, S] tours: each tour in
    fleet order receives the FirstMin node of the pool the earlier tours left.
  `Populate` is the part after the range check (forcing the anchor, placement,
  the fleet); its contract is this list.
- **Solver.VrpGreedy.BootstrapTour.** Tour i becomes `[S, v, S]`-style: the
  pool node at FirstMin of the tentative costs is inserted at position 1 and
  erased from the pool; the new state is exactly `SeedStep` of the old one.
  The order of the other pool nodes is kept, other tours are unchanged, and an
  empty pool changes nothing.
- **Solver.VrpGreedy.Balance.** The steps taken form a `GreedyTrace` from the
  state before the loop: each step inserts the IsSelected choice of the state
  it meets and erases its node. By GreedyTraceDeterministic that run is
  unique. It succeeds exactly when the pool ends empty, and then every free
  cell occurs exactly once across the tour interiors. It stops early only when
  no candidate passes the locality filter. The fleet invariant, the placement
  and the pool of free cells are kept, and the matrices are untouched.
- **Solver.VrpGreedy.Solve.** On `Ok` the pool is empty and every free cell
  (the anchor excluded) occurs exactly once across all tour interiors, with
  every tour closed at the anchor. `NoFeasibleInsertion` means the pool is
  non-empty and no candidate passes the locality filter. `TooFewFreeNodes` is
  returned exactly when the free cells are fewer than the agents. On `Ok` and
  `NoFeasibleInsertion` the steps taken form a `GreedyTrace` from the `Seeded`
  state init leaves, so the final tours are the ones the selection rule
  determines.

## Left out

- Loading the grid from a file (`loadMatrixFile`, lines 91-115) is stream I/O.
  The grid shape and `access_vec` are constructor parameters, with
  `|access_vec| == gridSizeX * gridSizeY` as the assertion at line 122 demands.
  The default constructor's empty 4x4 grid (lines 37-56) is one instance of
  these parameters.
- Console output (the occupancy printout, progress and result printing) and
  `std::cin.get()` are user interface.
- Solve: the Floyd–Warshall pass at lines 267-268 is not modelled. It rewrites
  `distanceMat` in place with all-pairs distances; `FloydWarshall.h` is not part
  of this model and tour construction does not use the result. The ensures
  about `distanceMat` therefore describe it as init leaves it.
- Solve: the diagnostic path queries at lines 275-308 are not modelled. The
  `assert`s at lines 276-277 abort on grids of at most 54 cells; this is not
  modelled either.
- Floating point is not modelled:
  - `float` rounding and IEEE behaviour;
  - the `FLT_MIN` start of `pathLength`, a constant offset shared by every
    compared length;
  - the `posz` coordinate, which is never set.
  Lengths are exact reals over an abstract square root.
- Init, Solve: they require a freshly constructed solver (empty pool and
  fleet). A second call in the source would append a second pool and fleet to
  the first.
- `copyPathsTo`, `copyGraphTo` and the destructor are trivial accessors and
  boilerplate.
- Init: for an entirely occupied grid (and at least one agent) the code does
  not produce trivial tours. createCycles inserts and erases a stale choice
  from an empty pool (lines 255-257), so the model returns `TooFewFreeNodes`.
