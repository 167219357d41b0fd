/**
 * The VrpGreedy solver object: it builds the adjacency matrix of the
 * occupancy grid, places the nodes, collects the free cells into the pool of
 * unvisited nodes, gives every agent a closed tour through the anchor, seeds
 * each tour with one node (createCycles) and then inserts the remaining pool
 * nodes one at a time by greedy cheapest insertion (the loop of solve).
 */
module Solver {
  import opened Grid
  import opened Tours
  import opened Selection

  /**
   * How a run ends. The last three replace undefined behaviour of the source:
   * `at(STARTNODE)` throwing on a grid of at most five cells, createCycles
   * indexing an empty pool, and solve inserting a stale choice when no
   * candidate passes the locality filter.
   */
  datatype Status = Ok | StartNodeOutOfRange | TooFewFreeNodes | NoFeasibleInsertion

  class VrpGreedy {
    const gridSizeX: nat            // number of rows
    const gridSizeY: nat            // number of columns
    const numAgents: nat
    const inf: int                  // the Inf weight of a missing edge
    const sqrt: int -> real         // square root, used by the tour length

    var accessVec: seq<int>         // row-major occupancy, 0 = free
    var graph: array2<int>
    var distanceMat: array2<int>
    var graphNodes: seq<GraphNode>
    var unvisitedNodes: seq<nat>
    var numFreeNodes: nat
    var paths: seq<seq<nat>>        // one tour per agent
    ghost var freePool: seq<nat>    // unvisitedNodes as init left it

    /** The adjacency and distance matrices createGraph builds from `access`. */
    ghost predicate GraphBuilt(access: seq<int>)
      reads this`graph, this`distanceMat, graph, distanceMat
    {
      var n := gridSizeX * gridSizeY;
      graph.Length0 == n && graph.Length1 == n &&
      distanceMat.Length0 == n && distanceMat.Length1 == n &&
      (forall a, b :: 0 <= a < n && 0 <= b < n ==>
         graph[a, b] == Weight(access, gridSizeX, gridSizeY, inf, a, b)) &&
      (forall a, b :: 0 <= a < n && 0 <= b < n ==>
         distanceMat[a, b] == if a == b then 0 else graph[a, b])
    }

    /** Every node sits at (2 * row, 2 * col) and carries its cell's occupancy. */
    ghost predicate NodesPlaced()
      reads this`graphNodes, this`accessVec
    {
      gridSizeY > 0 && |accessVec| == gridSizeX * gridSizeY && |graphNodes| == |accessVec| &&
      forall k :: 0 <= k < |graphNodes| ==> graphNodes[k] == NodeAt(gridSizeY, k, accessVec[k] != 0)
    }

    /** The initial pool: exactly the free cells, in ascending order. */
    ghost predicate PoolOfFreeCells()
      reads this`freePool, this`accessVec, this`numFreeNodes
    {
      Ascending(freePool) && numFreeNodes == |freePool| &&
      forall k: nat :: k in freePool <==> Free(accessVec, k)
    }

    /** The fleet invariant (Fleet) over the solver's state and the initial pool. */
    ghost predicate FleetValid()
      reads this`paths, this`unvisitedNodes, this`freePool
    {
      Fleet(paths, unvisitedNodes, freePool, numAgents)
    }

    /** A solver for a rows x cols occupancy grid and `agents` agents. */
    constructor (rows: nat, cols: nat, agents: nat, access: seq<int>, inf: int, sqrt: int -> real)
      ensures gridSizeX == rows && gridSizeY == cols && numAgents == agents
      ensures this.inf == inf && this.sqrt == sqrt && accessVec == access
      ensures graphNodes == [] && unvisitedNodes == [] && paths == [] && numFreeNodes == 0
    {
      gridSizeX, gridSizeY, numAgents := rows, cols, agents;
      this.inf, this.sqrt := inf, sqrt;
      accessVec := access;
      graph := new int[0, 0];
      distanceMat := new int[0, 0];
      graphNodes, unvisitedNodes, paths := [], [], [];
      numFreeNodes := 0;
      freePool := [];
    }

    /**
     * createGraph: weight 1 between orthogonally adjacent free cells, in both
     * directions, Inf elsewhere; distanceMat is a copy with a zero diagonal.
     */
    method CreateGraph()
      requires |accessVec| == gridSizeX * gridSizeY
      modifies this`graph, this`distanceMat
      ensures fresh(graph) && fresh(distanceMat)
      ensures GraphBuilt(accessVec)
      ensures forall a, b :: 0 <= a < gridSizeX * gridSizeY && 0 <= b < gridSizeX * gridSizeY ==>
        graph[a, b] == graph[b, a]
      ensures forall a :: 0 <= a < gridSizeX * gridSizeY ==> graph[a, a] == inf && distanceMat[a, a] == 0
    {
      var n := gridSizeX * gridSizeY;
      var w := inf;
      var g := new int[n, n]((_, _) => w);
      forall a, b | 0 <= a < n && 0 <= b < n
        ensures g[a, b] == GraphSoFar(accessVec, gridSizeX, gridSizeY, inf, 0, -1, -1, a, b)
      {
        GraphSoFarEnds(accessVec, gridSizeX, gridSizeY, inf, a, b);
      }
      var i := 0;
      while i < n
        modifies g
        invariant 0 <= i <= n
        invariant forall a, b :: 0 <= a < n && 0 <= b < n ==>
          g[a, b] == GraphSoFar(accessVec, gridSizeX, gridSizeY, inf, i, -1, -1, a, b)
      {
        if accessVec[i] == 0 {
          LinkNeighbours(g, i);
        }
        forall a, b | 0 <= a < n && 0 <= b < n
          ensures g[a, b] == GraphSoFar(accessVec, gridSizeX, gridSizeY, inf, i + 1, -1, -1, a, b)
        {
          GraphSoFarNextCell(accessVec, gridSizeX, gridSizeY, inf, i, a, b);
        }
        i := i + 1;
      }
      forall a, b | 0 <= a < n && 0 <= b < n
        ensures g[a, b] == Weight(accessVec, gridSizeX, gridSizeY, inf, a, b)
        ensures g[a, b] == g[b, a]
      {
        GraphSoFarEnds(accessVec, gridSizeX, gridSizeY, inf, a, b);
        GraphSoFarEnds(accessVec, gridSizeX, gridSizeY, inf, b, a);
        WeightFacts(accessVec, gridSizeX, gridSizeY, inf, a, b);
      }
      forall a | 0 <= a < n
        ensures g[a, a] == inf
      {
        WeightFacts(accessVec, gridSizeX, gridSizeY, inf, a, a);
      }

      var d := new int[n, n]((a, b) reads g requires 0 <= a < n && 0 <= b < n => g[a, b]);
      var k := 0;
      while k < n
        modifies d
        invariant 0 <= k <= n
        invariant forall a, b :: 0 <= a < n && 0 <= b < n ==>
          d[a, b] == if a == b && a < k then 0 else g[a, b]
      {
        d[k, k] := 0;
        k := k + 1;
      }
      graph, distanceMat := g, d;
    }

    /**
     * The neighbour scan of createGraph for free cell i: the offsets
     * (rowShift, colShift) in -1..1 x -1..1, in order, linking i to every free
     * in-range orthogonal neighbour in both directions.
     */
    method LinkNeighbours(g: array2<int>, i: nat)
      requires |accessVec| == gridSizeX * gridSizeY && i < |accessVec| && accessVec[i] == 0
      requires g.Length0 == |accessVec| && g.Length1 == |accessVec|
      requires forall a, b :: 0 <= a < g.Length0 && 0 <= b < g.Length1 ==>
        g[a, b] == GraphSoFar(accessVec, gridSizeX, gridSizeY, inf, i, -1, -1, a, b)
      modifies g
      ensures forall a, b :: 0 <= a < g.Length0 && 0 <= b < g.Length1 ==>
        g[a, b] == GraphSoFar(accessVec, gridSizeX, gridSizeY, inf, i, 2, -1, a, b)
    {
      var n := |accessVec|;
      var row, col := i / gridSizeY, i % gridSizeY;
      var rowShift := -1;
      while rowShift <= 1
        invariant -1 <= rowShift <= 2
        invariant forall a, b :: 0 <= a < n && 0 <= b < n ==>
          g[a, b] == GraphSoFar(accessVec, gridSizeX, gridSizeY, inf, i, rowShift, -1, a, b)
      {
        var colShift := -1;
        while colShift <= 1
          invariant -1 <= colShift <= 2
          invariant forall a, b :: 0 <= a < n && 0 <= b < n ==>
            g[a, b] == GraphSoFar(accessVec, gridSizeX, gridSizeY, inf, i, rowShift, colShift, a, b)
        {
          var nbRow, nbCol := row + rowShift, col + colShift;
          if 0 <= nbRow < gridSizeX && 0 <= nbCol < gridSizeY  // range check
             && (rowShift != 0 || colShift != 0)                // not the cell itself
             && rowShift * colShift == 0                        // no diagonal moves
          {
            CellIndexBound(gridSizeX, gridSizeY, nbRow, nbCol);
            var nb := nbRow * gridSizeY + nbCol;
            if accessVec[nb] == 0 {
              g[i, nb] := 1;
              g[nb, i] := 1;
            }
          }
          forall a, b | 0 <= a < n && 0 <= b < n
            ensures g[a, b] == GraphSoFar(accessVec, gridSizeX, gridSizeY, inf, i, rowShift, colShift + 1, a, b)
          {
            GraphSoFarStep(accessVec, gridSizeX, gridSizeY, inf, i, rowShift, colShift, a, b);
          }
          colShift := colShift + 1;
        }
        forall a, b | 0 <= a < n && 0 <= b < n
          ensures g[a, b] == GraphSoFar(accessVec, gridSizeX, gridSizeY, inf, i, rowShift + 1, -1, a, b)
        {
          GraphSoFarNextRow(accessVec, gridSizeX, gridSizeY, inf, i, rowShift, a, b);
        }
        rowShift := rowShift + 1;
      }
    }

    /**
     * The node-placement scan of init: visits the cells row by row, places
     * node row * cols + col at (2 * row, 2 * col) with its occupancy, and
     * appends every free cell to the pool, so the pool ends up holding exactly
     * the free cells in ascending order.
     */
    method PlaceNodes()
      requires gridSizeY > 0 && |accessVec| == gridSizeX * gridSizeY
      requires |graphNodes| == |accessVec| && unvisitedNodes == []
      modifies this`graphNodes, this`unvisitedNodes
      ensures NodesPlaced()
      ensures Ascending(unvisitedNodes)
      ensures forall m: nat :: m in unvisitedNodes <==> Free(accessVec, m)
    {
      var n := gridSizeX * gridSizeY;
      var i := 0;
      while i < gridSizeX
        invariant 0 <= i <= gridSizeX && i * gridSizeY <= n
        invariant |graphNodes| == n
        invariant forall m :: 0 <= m < i * gridSizeY ==> graphNodes[m] == NodeAt(gridSizeY, m, accessVec[m] != 0)
        invariant Ascending(unvisitedNodes)
        invariant forall e :: 0 <= e < |unvisitedNodes| ==> unvisitedNodes[e] < i * gridSizeY
        invariant forall m: nat :: m in unvisitedNodes <==> m < i * gridSizeY && Free(accessVec, m)
      {
        CellIndexBound(gridSizeX, gridSizeY, i, gridSizeY - 1);
        var j := 0;
        while j < gridSizeY
          invariant 0 <= j <= gridSizeY && i * gridSizeY + j <= n
          invariant |graphNodes| == n
          invariant forall m :: 0 <= m < i * gridSizeY + j ==> graphNodes[m] == NodeAt(gridSizeY, m, accessVec[m] != 0)
          invariant Ascending(unvisitedNodes)
          invariant forall e :: 0 <= e < |unvisitedNodes| ==> unvisitedNodes[e] < i * gridSizeY + j
          invariant forall m: nat :: m in unvisitedNodes <==> m < i * gridSizeY + j && Free(accessVec, m)
        {
          var k := i * gridSizeY + j;
          CellIndexBound(gridSizeX, gridSizeY, i, j);
          CellOfIndex(gridSizeY, i, j);
          graphNodes := graphNodes[k := GraphNode(2 * i, 2 * j, accessVec[k] != 0)];
          if !graphNodes[k].occupied {
            unvisitedNodes := unvisitedNodes + [k];
          }
          j := j + 1;
        }
        assert (i + 1) * gridSizeY == i * gridSizeY + gridSizeY;
        i := i + 1;
      }
    }

    /**
     * init: builds the graph, forces the anchor to occupied, places every
     * node, collects the free cells in ascending order as the unvisited pool,
     * gives each agent the tour [anchor, anchor] and runs createCycles.
     */
    method Init() returns (status: Status)
      requires |accessVec| == gridSizeX * gridSizeY
      requires unvisitedNodes == [] && paths == []
      modifies this
      ensures fresh(graph) && fresh(distanceMat) && GraphBuilt(old(accessVec))
      ensures status != NoFeasibleInsertion
      ensures status == StartNodeOutOfRange <==> gridSizeX * gridSizeY <= STARTNODE
      ensures status == StartNodeOutOfRange ==>
        accessVec == old(accessVec) && unvisitedNodes == [] && paths == []
      ensures status != StartNodeOutOfRange ==>
        accessVec == old(accessVec)[STARTNODE := 1] && NodesPlaced() && PoolOfFreeCells() && FleetValid()
      ensures status != StartNodeOutOfRange ==> STARTNODE !in freePool
      ensures status != StartNodeOutOfRange ==> (status == Ok <==> |freePool| >= numAgents)
      ensures status == Ok ==> |unvisitedNodes| == |freePool| - numAgents
      ensures status == Ok ==> forall t :: 0 <= t < |paths| ==> |paths[t]| == 3
      ensures status == Ok ==> (paths, unvisitedNodes) == Seeded(gridSizeY, sqrt, Trivial(numAgents), freePool, numAgents)
    {
      CreateGraph();
      var n := gridSizeX * gridSizeY;
      graphNodes := seq(n, _ => GraphNode(0, 0, false));
      if n <= STARTNODE {
        return StartNodeOutOfRange;  // access_vec.at(STARTNODE) throws
      }
      var ok := Populate();
      status := if ok then Ok else TooFewFreeNodes;
    }

    /**
     * The part of init after the graph is built: the anchor cell is forced
     * to occupied, every node is placed, the free cells become the pool and
     * the fleet is started.
     */
    method Populate() returns (ok: bool)
      requires gridSizeY > 0 && STARTNODE < |accessVec| == gridSizeX * gridSizeY
      requires |graphNodes| == |accessVec| && unvisitedNodes == []
      modifies this`accessVec, this`graphNodes, this`unvisitedNodes, this`numFreeNodes, this`freePool, this`paths
      ensures accessVec == old(accessVec)[STARTNODE := 1] && NodesPlaced() && PoolOfFreeCells() && FleetValid()
      ensures STARTNODE !in freePool
      ensures ok <==> |freePool| >= numAgents
      ensures ok ==> |unvisitedNodes| == |freePool| - numAgents
      ensures ok ==> forall t :: 0 <= t < |paths| ==> |paths[t]| == 3
      ensures ok ==> (paths, unvisitedNodes) == Seeded(gridSizeY, sqrt, Trivial(numAgents), freePool, numAgents)
    {
      accessVec := accessVec[STARTNODE := 1];
      PlaceNodes();
      ok := StartFleet();
    }

    /**
     * The tail of init: the pool collected so far becomes the initial pool,
     * every agent gets the tour [anchor, anchor], and createCycles seeds them.
     */
    method StartFleet() returns (ok: bool)
      requires gridSizeY > 0 && Ascending(unvisitedNodes)
      modifies this`numFreeNodes, this`freePool, this`paths, this`unvisitedNodes
      ensures freePool == old(unvisitedNodes) && numFreeNodes == |freePool|
      ensures FleetValid()
      ensures ok <==> |freePool| >= numAgents
      ensures |unvisitedNodes| == |freePool| - (if ok then numAgents else |freePool|)
      ensures forall t :: 0 <= t < |paths| ==> |paths[t]| == if ok || t < |freePool| then 3 else 2
      ensures (paths, unvisitedNodes) ==
        Seeded(gridSizeY, sqrt, Trivial(numAgents), freePool, if ok then numAgents else |freePool|)
    {
      numFreeNodes := |unvisitedNodes|;
      freePool := unvisitedNodes;
      paths := Trivial(numAgents);
      TrivialFleet(unvisitedNodes, numAgents);
      ok := CreateCycles();
    }

    /**
     * One pass of createCycles' outer loop: the pool node whose insertion
     * between the first two nodes of tour i gives the shortest tentative tour
     * (the first such node in pool order) is inserted there and erased from
     * the pool; an empty pool leaves everything as it is.
     */
    method BootstrapTour(i: nat) returns (inserted: bool)
      requires gridSizeY > 0 && i < |paths| && FleetValid()
      modifies this`paths, this`unvisitedNodes
      ensures FleetValid()
      ensures inserted <==> |old(unvisitedNodes)| > 0
      ensures !inserted ==> paths == old(paths) && unvisitedNodes == old(unvisitedNodes)
      ensures inserted ==> (|old(paths)[i]| >= 1 &&
        (paths, unvisitedNodes) == SeedStep(gridSizeY, sqrt, old(paths), old(unvisitedNodes), i))
    {
      assert Closed(paths[i]);
      var found, k := CheapestFirst(gridSizeY, sqrt, paths[i], unvisitedNodes);
      if !found {
        return false;
      }
      MoveKeepsFleet(paths, unvisitedNodes, freePool, numAgents, i, 1, k);
      paths := paths[i := InsertAt(paths[i], 1, unvisitedNodes[k])];
      unvisitedNodes := RemoveAt(unvisitedNodes, k);
      return true;
    }

    /**
     * createCycles: seeds the tours one at a time, in fleet order. It fails
     * at the first tour for which the pool has run out.
     */
    method CreateCycles() returns (ok: bool)
      requires gridSizeY > 0 && FleetValid()
      modifies this`paths, this`unvisitedNodes
      ensures FleetValid()
      ensures ok <==> |old(unvisitedNodes)| >= |old(paths)|
      ensures |unvisitedNodes| == |old(unvisitedNodes)| - (if ok then |old(paths)| else |old(unvisitedNodes)|)
      ensures forall t :: 0 <= t < |paths| ==>
        |paths[t]| == |old(paths)[t]| + (if ok || t < |old(unvisitedNodes)| then 1 else 0)
      ensures (paths, unvisitedNodes) == Seeded(gridSizeY, sqrt, old(paths), old(unvisitedNodes),
                                                if ok then |old(paths)| else |old(unvisitedNodes)|)
    {
      ghost var tours, pool := paths, unvisitedNodes;
      FleetToursAnchored(tours, pool, freePool, numAgents);
      var i := 0;
      ok := true;
      while i < |paths| && ok
        invariant 0 <= i <= |tours| == |paths| && i <= |pool|
        invariant FleetValid()
        invariant (paths, unvisitedNodes) == Seeded(gridSizeY, sqrt, tours, pool, i)
        invariant !ok ==> i == |pool| < |tours|
        decreases |paths| - i, ok
      {
        var inserted := BootstrapTour(i);
        if inserted {
          SeededNext(gridSizeY, sqrt, tours, pool, i);
          i := i + 1;
        } else {
          ok := false;
        }
      }
      SeededLengths(gridSizeY, sqrt, tours, pool, i);
    }

    /**
     * One iteration of solve's loop: the insertion chosen by the selection
     * rule (IsSelected) is made and its node erased from the pool. When no
     * candidate passes the locality filter nothing changes.
     */
    method InsertBest() returns (inserted: bool, choice: Choice)
      requires gridSizeY > 0 && FleetValid()
      modifies this`paths, this`unvisitedNodes
      ensures FleetValid()
      ensures !inserted ==> paths == old(paths) && unvisitedNodes == old(unvisitedNodes)
      ensures !inserted ==> forall c :: !Candidate(gridSizeY, paths, unvisitedNodes, c)
      ensures inserted ==> IsSelected(gridSizeY, sqrt, old(paths), old(unvisitedNodes), choice)
      ensures inserted ==>
        paths == old(paths)[choice.t := InsertAt(old(paths)[choice.t], choice.p, old(unvisitedNodes)[choice.v])] &&
        unvisitedNodes == RemoveAt(old(unvisitedNodes), choice.v)
    {
      var bigL := LongestTour(gridSizeY, sqrt, paths);
      inserted, choice := SelectInsertion(gridSizeY, sqrt, paths, unvisitedNodes, bigL);
      if inserted {
        MoveKeepsFleet(paths, unvisitedNodes, freePool, numAgents, choice.t, choice.p, choice.v);
        paths := paths[choice.t := InsertAt(paths[choice.t], choice.p, unvisitedNodes[choice.v])];
        unvisitedNodes := RemoveAt(unvisitedNodes, choice.v);
      }
    }

    /**
     * The while loop of solve: greedy insertions until the pool is empty, or
     * until no candidate passes the locality filter. On success every pool
     * node of init lies in exactly one tour interior, exactly once.
     */
    method Balance() returns (ok: bool, ghost steps: seq<Choice>)
      requires gridSizeY > 0 && FleetValid() && NodesPlaced() && PoolOfFreeCells()
      modifies this`paths, this`unvisitedNodes
      ensures FleetValid() && NodesPlaced() && PoolOfFreeCells()
      ensures graph == old(graph) && distanceMat == old(distanceMat)
      ensures unchanged(graph, distanceMat)
      ensures GreedyTrace(gridSizeY, sqrt, old(paths), old(unvisitedNodes), steps, paths, unvisitedNodes)
      ensures ok <==> unvisitedNodes == []
      ensures ok ==> forall x: nat :: Interiors(paths)[x] == if Free(accessVec, x) then 1 else 0
      ensures !ok ==> forall c :: !Candidate(gridSizeY, paths, unvisitedNodes, c)
    {
      steps := [];
      while |unvisitedNodes| > 0
        invariant FleetValid()
        invariant GreedyTrace(gridSizeY, sqrt, old(paths), old(unvisitedNodes), steps, paths, unvisitedNodes)
        decreases |unvisitedNodes|
      {
        ghost var before, pool := paths, unvisitedNodes;
        var inserted, choice := InsertBest();
        if !inserted {
          ok := false;
          return;
        }
        GreedyTraceExtend(gridSizeY, sqrt, old(paths), old(unvisitedNodes), steps, before, pool, choice);
        steps := steps + [choice];
      }
      forall x: nat
        ensures Interiors(paths)[x] == if Free(accessVec, x) then 1 else 0
      {
        FleetComplete(paths, freePool, numAgents, x);
      }
      ok := true;
    }

    /**
     * solve: init, then the balancing loop. On success every free cell (the
     * anchor excluded) lies in exactly one tour interior, exactly once, and
     * every tour is closed at the anchor.
     */
    method Solve() returns (status: Status, ghost steps: seq<Choice>)
      requires |accessVec| == gridSizeX * gridSizeY
      requires unvisitedNodes == [] && paths == []
      modifies this
      ensures fresh(graph) && fresh(distanceMat) && GraphBuilt(old(accessVec))
      ensures status == StartNodeOutOfRange <==> gridSizeX * gridSizeY <= STARTNODE
      ensures status == StartNodeOutOfRange ==>
        accessVec == old(accessVec) && unvisitedNodes == [] && paths == []
      ensures status != StartNodeOutOfRange ==>
        accessVec == old(accessVec)[STARTNODE := 1] && NodesPlaced() && PoolOfFreeCells() && FleetValid()
      ensures status == TooFewFreeNodes <==> status != StartNodeOutOfRange && |freePool| < numAgents
      ensures status == Ok ==> unvisitedNodes == []
      ensures status == Ok ==> forall x: nat :: Interiors(paths)[x] == if Free(accessVec, x) then 1 else 0
      ensures status == NoFeasibleInsertion ==> unvisitedNodes != []
      ensures status == NoFeasibleInsertion ==> forall c :: !Candidate(gridSizeY, paths, unvisitedNodes, c)
      ensures status == Ok || status == NoFeasibleInsertion ==>
        var seeded := Seeded(gridSizeY, sqrt, Trivial(numAgents), freePool, numAgents);
        GreedyTrace(gridSizeY, sqrt, seeded.0, seeded.1, steps, paths, unvisitedNodes)
    {
      steps := [];
      status := Init();
      if status == Ok {
        var ok;
        ok, steps := Balance();
        if !ok {
          status := NoFeasibleInsertion;
        }
      }
    }
  }
}
