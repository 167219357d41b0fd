/**
 * Tours and the unvisited pool as index sequences: insertion into a tour
 * (vector::insert), erasure from the pool (vector::erase), closed tours, the
 * multiset of tour interiors, and the tour length pathLength computes.
 */
module Tours {
  import opened Grid

  /** `s` with `x` inserted before position `p` (vector::insert at begin() + p). */
  function InsertAt(s: seq<nat>, p: nat, x: nat): (r: seq<nat>)
    requires p <= |s|
    ensures |r| == |s| + 1 && r[p] == x
    ensures forall i :: 0 <= i < p ==> r[i] == s[i]
    ensures forall i :: p < i < |r| ==> r[i] == s[i - 1]
  {
    s[..p] + [x] + s[p..]
  }

  /** `s` with the element at position `k` erased (vector::erase at begin() + k). */
  function RemoveAt(s: seq<nat>, k: nat): (r: seq<nat>)
    requires k < |s|
    ensures |r| == |s| - 1
    ensures forall i :: 0 <= i < k ==> r[i] == s[i]
    ensures forall i :: k <= i < |r| ==> r[i] == s[i + 1]
  {
    s[..k] + s[k + 1..]
  }

  /** Erasing what was just inserted gives back the original, and conversely. */
  lemma InsertRemoveInverse(s: seq<nat>, p: nat, x: nat)
    requires p <= |s|
    ensures RemoveAt(InsertAt(s, p, x), p) == s
    ensures p < |s| ==> InsertAt(RemoveAt(s, p), p, s[p]) == s
  {
  }

  /** Erasing one element removes exactly one occurrence of it. */
  lemma {:induction false} RemoveAtMultiset(s: seq<nat>, k: nat)
    requires k < |s|
    ensures multiset(RemoveAt(s, k)) + multiset{s[k]} == multiset(s)
  {
    assert s == s[..k] + [s[k]] + s[k + 1..];
  }

  /** Strictly ascending: the order in which init collects the free cells. */
  predicate Ascending(s: seq<nat>)
  {
    forall i, j :: 0 <= i < j < |s| ==> s[i] < s[j]
  }

  /** Erasing keeps the relative order of the remaining elements. */
  lemma RemoveAtAscending(s: seq<nat>, k: nat)
    requires k < |s| && Ascending(s)
    ensures Ascending(RemoveAt(s, k))
  {
  }

  /** A strictly ascending sequence holds every value at most once. */
  lemma {:induction false} AscendingOnce(s: seq<nat>, x: nat)
    requires Ascending(s)
    ensures multiset(s)[x] == if x in s then 1 else 0
  {
    if s != [] {
      assert s == [s[0]] + s[1..];
      AscendingOnce(s[1..], x);
      assert s[0] !in s[1..];
    }
  }

  /** A tour: at least two nodes, starting and ending at the anchor. */
  predicate Closed(t: seq<nat>)
  {
    |t| >= 2 && t[0] == STARTNODE && t[|t| - 1] == STARTNODE
  }

  /** The nodes a tour visits between its two anchor occurrences. */
  function Interior(t: seq<nat>): seq<nat>
  {
    if |t| >= 2 then t[1..|t| - 1] else []
  }

  /** The nodes of all tour interiors, with multiplicity. */
  function Interiors(paths: seq<seq<nat>>): multiset<nat>
  {
    if paths == [] then multiset{}
    else Interiors(paths[..|paths| - 1]) + multiset(Interior(paths[|paths| - 1]))
  }

  /** Replacing one tour replaces its interior in the total and nothing else. */
  lemma {:induction false} InteriorsUpdate(paths: seq<seq<nat>>, i: nat, t: seq<nat>)
    requires i < |paths|
    ensures Interiors(paths[i := t]) + multiset(Interior(paths[i])) == Interiors(paths) + multiset(Interior(t))
    decreases |paths|
  {
    var last := |paths| - 1;
    var q := paths[i := t];
    assert Interiors(q) == Interiors(q[..last]) + multiset(Interior(q[last]));
    assert Interiors(paths) == Interiors(paths[..last]) + multiset(Interior(paths[last]));
    if i < last {
      var pre := paths[..last];
      assert q[..last] == pre[i := t];
      assert q[last] == paths[last] && pre[i] == paths[i];
      InteriorsUpdate(pre, i, t);
      var a, b, c, d := Interiors(pre[i := t]), multiset(Interior(paths[i])), Interiors(pre), multiset(Interior(t));
      var e := multiset(Interior(paths[last]));
      assert a + b == c + d;
      assert Interiors(q) + b == (a + b) + e;
    } else {
      assert q[..last] == paths[..last];
    }
  }

  /** A fleet of trivial tours [anchor, anchor] has no interior node. */
  lemma {:induction false} InteriorsOfTrivial(paths: seq<seq<nat>>)
    requires forall t :: 0 <= t < |paths| ==> |paths[t]| == 2
    ensures Interiors(paths) == multiset{}
    decreases |paths|
  {
    if paths != [] {
      InteriorsOfTrivial(paths[..|paths| - 1]);
    }
  }

  /**
   * Inserting at an interior position 1..|t|-1 keeps a tour closed, makes it
   * one node longer and adds exactly the inserted node to its interior.
   */
  lemma InsertInterior(t: seq<nat>, p: nat, x: nat)
    requires Closed(t) && 1 <= p < |t|
    ensures Closed(InsertAt(t, p, x)) && |InsertAt(t, p, x)| == |t| + 1
    ensures Interior(InsertAt(t, p, x)) == InsertAt(Interior(t), p - 1, x)
    ensures multiset(Interior(InsertAt(t, p, x))) == multiset(Interior(t)) + multiset{x}
  {
    var r := InsertAt(t, p, x);
    assert Interior(r) == InsertAt(Interior(t), p - 1, x);
    var u := Interior(t);
    assert u == u[..p - 1] + u[p - 1..];
  }

  /**
   * Moving pool[k] into tour `i` at an interior position keeps the
   * multiset of all tour interiors plus the pool unchanged.
   */
  lemma MoveConserves(paths: seq<seq<nat>>, pool: seq<nat>, i: nat, p: nat, k: nat)
    requires i < |paths| && Closed(paths[i]) && 1 <= p < |paths[i]| && k < |pool|
    ensures Interiors(paths[i := InsertAt(paths[i], p, pool[k])]) + multiset(RemoveAt(pool, k))
            == Interiors(paths) + multiset(pool)
  {
    var x := pool[k];
    var t := InsertAt(paths[i], p, x);
    InsertInterior(paths[i], p, x);
    InteriorsUpdate(paths, i, t);
    RemoveAtMultiset(pool, k);
    MoveCancel(Interiors(paths[i := t]), multiset(Interior(paths[i])), Interiors(paths),
               multiset(RemoveAt(pool, k)), multiset(pool), x);
  }

  /** The multiset arithmetic of a move: one x leaves the pool and joins a tour. */
  lemma MoveCancel(after: multiset<nat>, prev: multiset<nat>, before: multiset<nat>,
                   rest: multiset<nat>, pool: multiset<nat>, x: nat)
    requires after + prev == before + (prev + multiset{x})
    requires rest + multiset{x} == pool
    ensures after + rest == before + pool
  {
    forall y ensures (after + rest)[y] == (before + pool)[y] {
      assert (after + prev)[y] == (before + (prev + multiset{x}))[y];
      assert (rest + multiset{x})[y] == pool[y];
    }
  }

  /**
   * The fleet invariant: one closed tour per agent, the pool ascending, and
   * the tour interiors together with the pool holding exactly `free`.
   */
  predicate Fleet(paths: seq<seq<nat>>, pool: seq<nat>, free: seq<nat>, agents: nat)
  {
    |paths| == agents &&
    (forall t :: 0 <= t < |paths| ==> Closed(paths[t])) &&
    Ascending(pool) &&
    Interiors(paths) + multiset(pool) == multiset(free)
  }

  /** Every tour of a fleet holds at least its opening anchor. */
  lemma FleetToursAnchored(paths: seq<seq<nat>>, pool: seq<nat>, free: seq<nat>, agents: nat)
    requires Fleet(paths, pool, free, agents)
    ensures forall t :: 0 <= t < |paths| ==> |paths[t]| >= 1
  {
    forall t | 0 <= t < |paths| ensures |paths[t]| >= 1 {
      assert Closed(paths[t]);
    }
  }

  /** Moving a pool node into an interior position of a tour keeps the fleet invariant. */
  lemma MoveKeepsFleet(paths: seq<seq<nat>>, pool: seq<nat>, free: seq<nat>, agents: nat, t: nat, p: nat, v: nat)
    requires Fleet(paths, pool, free, agents)
    requires t < |paths| && 1 <= p < |paths[t]| && v < |pool|
    ensures Fleet(paths[t := InsertAt(paths[t], p, pool[v])], RemoveAt(pool, v), free, agents)
  {
    MoveConserves(paths, pool, t, p, v);
    InsertInterior(paths[t], p, pool[v]);
    RemoveAtAscending(pool, v);
  }

  /** The fleet init creates: one tour [anchor, anchor] per agent. */
  function Trivial(agents: nat): (paths: seq<seq<nat>>)
    ensures |paths| == agents
    ensures forall t :: 0 <= t < agents ==> Closed(paths[t]) && |paths[t]| == 2
  {
    if agents == 0 then [] else Trivial(agents - 1) + [[STARTNODE, STARTNODE]]
  }

  /** The trivial fleet over an ascending pool satisfies the fleet invariant. */
  lemma TrivialFleet(pool: seq<nat>, agents: nat)
    requires Ascending(pool)
    ensures Fleet(Trivial(agents), pool, pool, agents)
  {
    InteriorsOfTrivial(Trivial(agents));
  }

  /**
   * Once the pool is empty, an ascending `free` is spread over the tour
   * interiors: every free node lies in exactly one interior position.
   */
  lemma FleetComplete(paths: seq<seq<nat>>, free: seq<nat>, agents: nat, x: nat)
    requires Fleet(paths, [], free, agents) && Ascending(free)
    ensures Interiors(paths)[x] == if x in free then 1 else 0
  {
    assert Interiors(paths) == multiset(free);
    AscendingOnce(free, x);
  }

  // ---------------------------------------------------------------------------
  // Tour length.

  /**
   * Length of the leg from node `a` to node `b`: the square root of the squared
   * distance of their positions; the square root is supplied by the caller.
   */
  function Leg(cols: nat, sqrt: int -> real, a: nat, b: nat): real
    requires cols > 0
  {
    sqrt(SqDist(cols, a, b))
  }

  /** pathLength: the sum of the legs between consecutive nodes of `path`. */
  function PathLength(cols: nat, sqrt: int -> real, path: seq<nat>): real
    requires cols > 0
    decreases |path|
  {
    if |path| < 2 then 0.0 else Leg(cols, sqrt, path[0], path[1]) + PathLength(cols, sqrt, path[1..])
  }

  /**
   * PathLength is the sum pathLength accumulates front to back: the length
   * of the path without its last node plus the last leg.
   */
  lemma {:induction false} PathLengthSnoc(cols: nat, sqrt: int -> real, path: seq<nat>)
    requires cols > 0 && |path| >= 2
    ensures PathLength(cols, sqrt, path) ==
      PathLength(cols, sqrt, path[..|path| - 1]) + Leg(cols, sqrt, path[|path| - 2], path[|path| - 1])
    decreases |path|
  {
    if |path| > 2 {
      PathLengthSnoc(cols, sqrt, path[1..]);
      assert path[..|path| - 1][1..] == path[1..][..|path| - 2];
    }
  }

  /**
   * Inserting `x` between t[p-1] and t[p] replaces the leg t[p-1] -> t[p] by
   * the two legs t[p-1] -> x -> t[p]; every other leg is kept.
   */
  lemma {:induction false} InsertionLength(cols: nat, sqrt: int -> real, t: seq<nat>, p: nat, x: nat)
    requires cols > 0 && 1 <= p < |t|
    ensures PathLength(cols, sqrt, InsertAt(t, p, x)) ==
            PathLength(cols, sqrt, t) - Leg(cols, sqrt, t[p - 1], t[p])
            + Leg(cols, sqrt, t[p - 1], x) + Leg(cols, sqrt, x, t[p])
    decreases p
  {
    var r := InsertAt(t, p, x);
    if p == 1 {
      assert r[1..] == [x] + t[1..];
      assert r[1..][1..] == t[1..];
    } else {
      assert r[1..] == InsertAt(t[1..], p - 1, x);
      InsertionLength(cols, sqrt, t[1..], p - 1, x);
    }
  }
}
