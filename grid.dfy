/**
 * The occupancy grid seen by the greedy VRP solver: row-major cell indices,
 * 4-connected adjacency between free cells, the adjacency matrix weights,
 * the planar position of every node and the locality filter on positions.
 */
module Grid {

  /** The anchor cell every tour starts and ends at (STARTNODE). */
  const STARTNODE: nat := 5

  /**
   * Square of the locality radius minDist + MAX_FOV. For every grid with at
   * least two cells minDist evaluates to (2 + FLT_MIN) * 1.4143, so the radius
   * is 4.8286 and its square 23.31...; squared distances between node
   * positions are integers, hence "within the radius" is "squared distance <= 23".
   */
  const NEAR_SQ: int := 23

  /** Row of cell `i` in a row-major grid with `cols` columns (gridSizeY). */
  function Row(cols: nat, i: nat): nat
    requires cols > 0
  {
    i / cols
  }

  /** Column of cell `i` in a row-major grid with `cols` columns. */
  function Col(cols: nat, i: nat): nat
    requires cols > 0
  {
    i % cols
  }

  /** A positive multiple of `cols` is at least `cols`. */
  lemma MultipleAtLeast(k: int, cols: int)
    requires k >= 1 && cols >= 0
    ensures k * cols >= cols
  {
    var j: nat := k - 1;
    assert k * cols == j * cols + cols;
  }

  /** The only multiple of `cols` strictly between -cols and cols is 0. */
  lemma OnlyZeroMultiple(k: int, cols: int)
    requires cols >= 0 && 0 - cols < k * cols < cols
    ensures k == 0
  {
    if k >= 1 {
      MultipleAtLeast(k, cols);
      assert false;
    } else if k <= -1 {
      MultipleAtLeast(-k, cols);
      assert false;
    }
  }

  /** Row `r` and column `c` are recovered from the index r * cols + c. */
  lemma CellOfIndex(cols: nat, r: nat, c: nat)
    requires c < cols
    ensures Row(cols, r * cols + c) == r && Col(cols, r * cols + c) == c
  {
    var x := r * cols + c;
    var q, m := x / cols, x % cols;
    assert (r - q) * cols == m - c;
    OnlyZeroMultiple(r - q, cols);
  }

  /** Every index of a rows x cols grid is row * cols + col. */
  lemma IndexOfCell(cols: nat, i: nat)
    requires cols > 0
    ensures i == Row(cols, i) * cols + Col(cols, i)
  {
  }

  /** The index of an in-range cell lies within the grid. */
  lemma {:induction false} CellIndexBound(rows: nat, cols: nat, r: nat, c: nat)
    requires r < rows && c < cols
    ensures r * cols + c < rows * cols
  {
    var k: nat := rows - (r + 1);
    assert rows * cols == (r + 1) * cols + k * cols;
  }

  /** Cell `i` of the occupancy vector exists and is free (value 0). */
  predicate Free(access: seq<int>, i: int)
  {
    0 <= i < |access| && access[i] == 0
  }

  /**
   * Cells `a` and `b` of a rows x cols grid are orthogonal neighbours:
   * same row and adjacent columns, or same column and adjacent rows.
   */
  predicate Orthogonal(rows: nat, cols: nat, a: nat, b: nat)
  {
    cols > 0 && a < rows * cols && b < rows * cols &&
    ((Row(cols, a) == Row(cols, b) && (Col(cols, a) + 1 == Col(cols, b) || Col(cols, b) + 1 == Col(cols, a))) ||
     (Col(cols, a) == Col(cols, b) && (Row(cols, a) + 1 == Row(cols, b) || Row(cols, b) + 1 == Row(cols, a))))
  }

  /** An edge of the adjacency graph: two free orthogonal neighbours. */
  predicate Edge(access: seq<int>, rows: nat, cols: nat, a: nat, b: nat)
  {
    Orthogonal(rows, cols, a, b) && Free(access, a) && Free(access, b)
  }

  /** Entry (a, b) of the adjacency matrix createGraph builds. */
  function Weight(access: seq<int>, rows: nat, cols: nat, inf: int, a: nat, b: nat): int
  {
    if Edge(access, rows, cols, a, b) then 1 else inf
  }

  /**
   * The adjacency matrix is symmetric, has no self-loops, isolates occupied
   * cells, and (when Inf is not 1) holds weight 1 exactly on the edges.
   */
  lemma WeightFacts(access: seq<int>, rows: nat, cols: nat, inf: int, a: nat, b: nat)
    ensures Weight(access, rows, cols, inf, a, b) == Weight(access, rows, cols, inf, b, a)
    ensures Weight(access, rows, cols, inf, a, a) == inf
    ensures !Free(access, a) ==> Weight(access, rows, cols, inf, a, b) == inf
    ensures inf != 1 ==> (Weight(access, rows, cols, inf, a, b) == 1 <==> Edge(access, rows, cols, a, b))
  {
  }

  // ---------------------------------------------------------------------------
  // Progress of createGraph's scan. The scan visits the cells i in increasing
  // order and, for a free cell, the offsets (rs, cs) in lexicographic order.

  /** The offset of cell `b` from cell `i` is lexicographically below (rs, cs). */
  predicate OffsetBefore(cols: nat, i: nat, b: nat, rs: int, cs: int)
    requires cols > 0
  {
    var dr := Row(cols, b) - Row(cols, i);
    var dc := Col(cols, b) - Col(cols, i);
    dr < rs || (dr == rs && dc < cs)
  }

  /**
   * Entry (a, b) of the matrix once every cell below `i` has been scanned and
   * cell `i` has been scanned up to, but excluding, offset (rs, cs).
   */
  function GraphSoFar(access: seq<int>, rows: nat, cols: nat, inf: int, i: nat, rs: int, cs: int, a: nat, b: nat): int
  {
    if Edge(access, rows, cols, a, b) &&
       (a < i || b < i ||
        (a == i && OffsetBefore(cols, i, b, rs, cs)) ||
        (b == i && OffsetBefore(cols, i, a, rs, cs)))
    then 1 else inf
  }

  /** Before any cell is scanned the matrix is all Inf; after all, it is Weight. */
  lemma GraphSoFarEnds(access: seq<int>, rows: nat, cols: nat, inf: int, a: nat, b: nat)
    requires a < rows * cols && b < rows * cols
    ensures GraphSoFar(access, rows, cols, inf, 0, -1, -1, a, b) == inf
    ensures GraphSoFar(access, rows, cols, inf, rows * cols, -1, -1, a, b) == Weight(access, rows, cols, inf, a, b)
  {
    if Edge(access, rows, cols, a, b) {
      assert !OffsetBefore(cols, 0, b, -1, -1) && !OffsetBefore(cols, 0, a, -1, -1);
    }
  }

  /** Scanning no offset of an occupied cell, or all of a free one, moves to the next cell. */
  lemma GraphSoFarNextCell(access: seq<int>, rows: nat, cols: nat, inf: int, i: nat, a: nat, b: nat)
    ensures !Free(access, i) ==>
      GraphSoFar(access, rows, cols, inf, i, -1, -1, a, b) == GraphSoFar(access, rows, cols, inf, i + 1, -1, -1, a, b)
    ensures GraphSoFar(access, rows, cols, inf, i, 2, -1, a, b) == GraphSoFar(access, rows, cols, inf, i + 1, -1, -1, a, b)
  {
  }

  /** Finishing the columns of offset row rs moves to offset row rs + 1. */
  lemma GraphSoFarNextRow(access: seq<int>, rows: nat, cols: nat, inf: int, i: nat, rs: int, a: nat, b: nat)
    ensures GraphSoFar(access, rows, cols, inf, i, rs, 2, a, b) == GraphSoFar(access, rows, cols, inf, i, rs + 1, -1, a, b)
  {
  }

  /**
   * One offset (rs, cs) of free cell `i`: the matrix changes exactly at the
   * pair {i, nb} for the neighbour nb at that offset, when createGraph's range,
   * non-self and non-diagonal checks pass and nb is free.
   */
  lemma GraphSoFarStep(access: seq<int>, rows: nat, cols: nat, inf: int, i: nat, rs: int, cs: int, a: nat, b: nat)
    requires cols > 0 && i < rows * cols && a < rows * cols && b < rows * cols
    requires -1 <= rs <= 1 && -1 <= cs <= 1
    ensures
      var nbRow, nbCol := Row(cols, i) + rs, Col(cols, i) + cs;
      var link := 0 <= nbRow < rows && 0 <= nbCol < cols && (rs != 0 || cs != 0) && rs * cs == 0 &&
                  Free(access, i) && Free(access, nbRow * cols + nbCol);
      GraphSoFar(access, rows, cols, inf, i, rs, cs + 1, a, b) ==
        if link && ((a == i && b == nbRow * cols + nbCol) || (b == i && a == nbRow * cols + nbCol)) then 1
        else GraphSoFar(access, rows, cols, inf, i, rs, cs, a, b)
  {
    var nbRow, nbCol := Row(cols, i) + rs, Col(cols, i) + cs;
    IndexOfCell(cols, i);
    IndexOfCell(cols, a);
    IndexOfCell(cols, b);
    if 0 <= nbRow < rows && 0 <= nbCol < cols {
      CellOfIndex(cols, nbRow, nbCol);
      CellIndexBound(rows, cols, nbRow, nbCol);
    }
  }

  // ---------------------------------------------------------------------------
  // Node positions and the locality filter.

  /** A graph node: planar position and occupancy flag (posz is never set). */
  datatype GraphNode = GraphNode(posx: int, posy: int, occupied: bool)

  /** init places node row * cols + col at (2 * row, 2 * col). */
  function NodeAt(cols: nat, k: nat, occupied: bool): (g: GraphNode)
    requires cols > 0
    ensures g.occupied == occupied
    ensures g.posx >= 0 && 0 <= g.posy < 2 * cols
  {
    GraphNode(2 * Row(cols, k), 2 * Col(cols, k), occupied)
  }

  /**
   * The placement is one-to-one: the node index is recovered from the
   * position as (posx / 2) * cols + posy / 2, so distinct nodes never share
   * a position.
   */
  lemma NodeAtIndex(cols: nat, k: nat, occupied: bool)
    requires cols > 0
    ensures var g := NodeAt(cols, k, occupied);
            g.posx % 2 == 0 && g.posy % 2 == 0 && (g.posx / 2) * cols + g.posy / 2 == k
  {
  }

  /** Squared Euclidean distance between the positions of nodes `a` and `b`. */
  function SqDist(cols: nat, a: nat, b: nat): (d: int)
    requires cols > 0
    ensures d == 4 * ((Row(cols, a) - Row(cols, b)) * (Row(cols, a) - Row(cols, b)) +
                      (Col(cols, a) - Col(cols, b)) * (Col(cols, a) - Col(cols, b)))
    ensures d >= 0
  {
    var dx := NodeAt(cols, a, false).posx - NodeAt(cols, b, false).posx;
    var dy := NodeAt(cols, a, false).posy - NodeAt(cols, b, false).posy;
    dx * dx + dy * dy
  }

  /**
   * The locality filter: node `a` lies within minDist + MAX_FOV of node `b`.
   * In cell units it admits the offsets (dr, dc) with dr^2 + dc^2 <= 5: the
   * eight surrounding cells, the four cells two steps away in a straight line
   * and the eight knight-move cells.
   */
  predicate Near(cols: nat, a: nat, b: nat)
    requires cols > 0
  {
    SqDist(cols, a, b) <= NEAR_SQ
  }

  /**
   * NEAR_SQ is the squared radius minDist + MAX_FOV = 2 + 2 * 1.4143: an
   * integer squared distance is within that radius exactly when it is at
   * most NEAR_SQ.
   */
  lemma NearRadius(d: nat)
    ensures d <= NEAR_SQ <==> (d as real) <= (2.0 * 1.4143 + 2.0) * (2.0 * 1.4143 + 2.0)
  {
  }

  /** minDist is measured between nodes 0 and 1, which lie 2 apart on every grid. */
  lemma MinDistSpacing(cols: nat)
    requires cols > 0
    ensures SqDist(cols, 0, 1) == 4
  {
    assert Row(cols, 0) == 0 && Col(cols, 0) == 0;
    if cols == 1 {
      assert Row(cols, 1) == 1 && Col(cols, 1) == 0;
    } else {
      assert Row(cols, 1) == 0 && Col(cols, 1) == 1;
    }
  }

  /**
   * In cell units the filter admits the offsets (dr, dc) with
   * dr^2 + dc^2 <= 5. It is symmetric, and orthogonal neighbours are always near.
   */
  lemma NearCells(rows: nat, cols: nat, a: nat, b: nat)
    requires cols > 0
    ensures Near(cols, a, b) <==>
      (Row(cols, a) - Row(cols, b)) * (Row(cols, a) - Row(cols, b)) +
      (Col(cols, a) - Col(cols, b)) * (Col(cols, a) - Col(cols, b)) <= 5
    ensures Near(cols, a, b) == Near(cols, b, a)
    ensures Orthogonal(rows, cols, a, b) ==> Near(cols, a, b)
  {
    var dr, dc := Row(cols, a) - Row(cols, b), Col(cols, a) - Col(cols, b);
    var q := dr * dr + dc * dc;
    assert SqDist(cols, a, b) == 4 * q;
    assert SqDist(cols, b, a) == 4 * ((-dr) * (-dr) + (-dc) * (-dc));
    assert (-dr) * (-dr) == dr * dr && (-dc) * (-dc) == dc * dc;
    if Orthogonal(rows, cols, a, b) {
      assert (dr == 0 && dc * dc == 1) || (dc == 0 && dr * dr == 1);
    }
  }
}
