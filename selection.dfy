/**
 * The scans of the greedy solver that choose what to insert next: the
 * bootstrap's cheapest pool node for a trivial tour, the longest current tour
 * (bigL) and the balancing step's best (node, tour, position) insertion.
 * Each scan is a method over the current fleet and pool, proved against a
 * specification stated independently of its loops.
 */
module Selection {
  import opened Grid
  import opened Tours

  datatype Option<T> = None | Some(value: T)

  // ---------------------------------------------------------------------------
  // Bootstrap (createCycles): the first pool node of minimal tentative length.

  /**
   * The first index holding a minimal value: a left-to-right scan that
   * replaces its candidate only on a strictly smaller value.
   */
  function FirstMin(costs: seq<real>): (k: nat)
    requires |costs| > 0
    ensures k < |costs|
    ensures forall j :: 0 <= j < |costs| ==> costs[k] <= costs[j]
    ensures forall j :: 0 <= j < k ==> costs[k] < costs[j]
    decreases |costs|
  {
    if |costs| == 1 then 0
    else
      var k := FirstMin(costs[..|costs| - 1]);
      if costs[|costs| - 1] < costs[k] then |costs| - 1 else k
  }

  /** The two properties of FirstMin single out one index. */
  lemma FirstMinUnique(costs: seq<real>, k: nat)
    requires k < |costs|
    requires forall j :: 0 <= j < |costs| ==> costs[k] <= costs[j]
    requires forall j :: 0 <= j < k ==> costs[k] < costs[j]
    ensures k == FirstMin(costs)
  {
    var m := FirstMin(costs);
    if m < k {
      assert false;
    } else if k < m {
      assert false;
    }
  }

  /** Length of `tour` with pool[j] inserted at position 1, for every j. */
  function TentativeCosts(cols: nat, sqrt: int -> real, tour: seq<nat>, pool: seq<nat>): (c: seq<real>)
    requires cols > 0 && |tour| >= 1
    ensures |c| == |pool|
    ensures forall j :: 0 <= j < |pool| ==> c[j] == PathLength(cols, sqrt, InsertAt(tour, 1, pool[j]))
  {
    seq(|pool|, j requires 0 <= j < |pool| => PathLength(cols, sqrt, InsertAt(tour, 1, pool[j])))
  }

  /**
   * The v loop of createCycles for one tour: the index in the pool of the node
   * whose insertion between the tour's first two nodes gives the shortest
   * tour, the earliest one on ties; none when the pool is empty.
   */
  method CheapestFirst(cols: nat, sqrt: int -> real, tour: seq<nat>, pool: seq<nat>) returns (found: bool, k: nat)
    requires cols > 0 && |tour| >= 1
    ensures found <==> |pool| > 0
    ensures found ==> k < |pool| && k == FirstMin(TentativeCosts(cols, sqrt, tour, pool))
  {
    ghost var costs := TentativeCosts(cols, sqrt, tour, pool);
    found, k := false, 0;
    var liMin: real := 0.0;
    var v := 0;
    while v < |pool|
      invariant 0 <= v <= |pool|
      invariant found <==> v > 0
      invariant found ==> k < v && k == FirstMin(costs[..v]) && liMin == costs[k]
    {
      var tentative := InsertAt(tour, 1, pool[v]);
      var tentLength := PathLength(cols, sqrt, tentative);
      assert costs[..v + 1][..v] == costs[..v];
      if !found || tentLength < liMin {
        liMin := tentLength;
        k := v;
        found := true;
      }
      v := v + 1;
    }
    assert costs[..|pool|] == costs;
  }

  /**
   * One pass of createCycles' outer loop, on tour i: the pool node whose
   * insertion at position 1 gives the shortest tentative tour (the first such
   * node in pool order) is inserted there and erased from the pool. No other
   * tour changes.
   */
  function SeedStep(cols: nat, sqrt: int -> real, paths: seq<seq<nat>>, pool: seq<nat>, i: nat)
    : (r: (seq<seq<nat>>, seq<nat>))
    requires cols > 0 && i < |paths| && |paths[i]| >= 1 && |pool| > 0
    ensures |r.0| == |paths| && |r.1| == |pool| - 1
    ensures r.0 == paths[i := r.0[i]] && |r.0[i]| == |paths[i]| + 1
  {
    var k := FirstMin(TentativeCosts(cols, sqrt, paths[i], pool));
    (paths[i := InsertAt(paths[i], 1, pool[k])], RemoveAt(pool, k))
  }

  /**
   * The state createCycles leaves after seeding tours 0..i-1, in fleet order:
   * SeedStep applied to each of them in turn, each time to the pool the
   * earlier tours left. Tours i.. are still as they were.
   */
  function Seeded(cols: nat, sqrt: int -> real, paths: seq<seq<nat>>, pool: seq<nat>, i: nat)
    : (r: (seq<seq<nat>>, seq<nat>))
    requires cols > 0 && i <= |paths| && i <= |pool|
    requires forall t :: 0 <= t < |paths| ==> |paths[t]| >= 1
    ensures |r.0| == |paths| && |r.1| == |pool| - i
    ensures r.0[i..] == paths[i..]
    decreases i, 1
  {
    if i == 0 then (paths, pool) else SeededLast(cols, sqrt, paths, pool, i)
  }

  /** Seeding tours 0..i-1 for i > 0: tour i-1 is seeded after tours 0..i-2. */
  function SeededLast(cols: nat, sqrt: int -> real, paths: seq<seq<nat>>, pool: seq<nat>, i: nat)
    : (r: (seq<seq<nat>>, seq<nat>))
    requires cols > 0 && 0 < i <= |paths| && i <= |pool|
    requires forall t :: 0 <= t < |paths| ==> |paths[t]| >= 1
    ensures |r.0| == |paths| && |r.1| == |pool| - i
    ensures r.0[i..] == paths[i..]
    decreases i, 0
  {
    var prev := Seeded(cols, sqrt, paths, pool, i - 1);
    assert prev.0[i - 1] == prev.0[i - 1..][0] == paths[i - 1..][0];
    var r := SeedStep(cols, sqrt, prev.0, prev.1, i - 1);
    assert r.0[i..] == prev.0[i..] by {
      forall t | i <= t < |paths| ensures r.0[t] == prev.0[t] {
        assert r.0 == prev.0[i - 1 := r.0[i - 1]];
      }
    }
    r
  }

  /** Seeding tour i as well applies SeedStep to the state Seeded left for tours 0..i-1. */
  lemma SeededNext(cols: nat, sqrt: int -> real, paths: seq<seq<nat>>, pool: seq<nat>, i: nat)
    requires cols > 0 && i < |paths| && i < |pool|
    requires forall t :: 0 <= t < |paths| ==> |paths[t]| >= 1
    ensures var prev := Seeded(cols, sqrt, paths, pool, i);
            |prev.0[i]| >= 1 &&
            Seeded(cols, sqrt, paths, pool, i + 1) == SeedStep(cols, sqrt, prev.0, prev.1, i)
  {
    var prev := Seeded(cols, sqrt, paths, pool, i);
    assert prev.0[i] == prev.0[i..][0] == paths[i..][0];
  }

  /** After seeding tours 0..i-1 each of them is one node longer and the others are unchanged. */
  lemma {:induction false} SeededLengths(cols: nat, sqrt: int -> real, paths: seq<seq<nat>>, pool: seq<nat>, i: nat)
    requires cols > 0 && i <= |paths| && i <= |pool|
    requires forall t :: 0 <= t < |paths| ==> |paths[t]| >= 1
    ensures forall t :: 0 <= t < |paths| ==>
      |Seeded(cols, sqrt, paths, pool, i).0[t]| == |paths[t]| + (if t < i then 1 else 0)
    decreases i
  {
    if i > 0 {
      SeededLengths(cols, sqrt, paths, pool, i - 1);
      SeededNext(cols, sqrt, paths, pool, i - 1);
      var prev := Seeded(cols, sqrt, paths, pool, i - 1).0;
      var r := Seeded(cols, sqrt, paths, pool, i).0;
      assert r == prev[i - 1 := r[i - 1]] && |r[i - 1]| == |prev[i - 1]| + 1;
      forall t | 0 <= t < |paths|
        ensures |r[t]| == |paths[t]| + (if t < i then 1 else 0)
      {
        assert |prev[t]| == |paths[t]| + (if t < i - 1 then 1 else 0);
      }
    }
  }

  // ---------------------------------------------------------------------------
  // The longest tour (bigL).

  /**
   * The loop that initialises bigL: the largest tour length of the fleet;
   * none (bigL stays at -FLT_MAX) when the fleet is empty.
   */
  method LongestTour(cols: nat, sqrt: int -> real, paths: seq<seq<nat>>) returns (bigL: Option<real>)
    requires cols > 0
    ensures bigL.None? <==> |paths| == 0
    ensures bigL.Some? ==> forall t :: 0 <= t < |paths| ==> PathLength(cols, sqrt, paths[t]) <= bigL.value
    ensures bigL.Some? ==> exists t :: 0 <= t < |paths| && PathLength(cols, sqrt, paths[t]) == bigL.value
  {
    bigL := None;
    var i := 0;
    while i < |paths|
      invariant 0 <= i <= |paths|
      invariant bigL.None? <==> i == 0
      invariant bigL.Some? ==> forall t :: 0 <= t < i ==> PathLength(cols, sqrt, paths[t]) <= bigL.value
      invariant bigL.Some? ==> exists t :: 0 <= t < i && PathLength(cols, sqrt, paths[t]) == bigL.value
    {
      var len := PathLength(cols, sqrt, paths[i]);
      if bigL.None? || len > bigL.value {
        bigL := Some(len);
      }
      i := i + 1;
    }
  }

  // ---------------------------------------------------------------------------
  // Balancing step (solve): the best insertion that passes the locality filter.

  /** A candidate insertion: pool[v] into tour paths[t] before position p. */
  datatype Choice = Choice(v: nat, t: nat, p: nat)

  /**
   * A candidate the balancing step considers: p is an interior position
   * 1..|tour|-1 and both nodes around it lie within the locality radius of
   * the pool node.
   */
  predicate Candidate(cols: nat, paths: seq<seq<nat>>, pool: seq<nat>, c: Choice)
    requires cols > 0
  {
    c.v < |pool| && c.t < |paths| && 1 <= c.p < |paths[c.t]| &&
    Near(cols, paths[c.t][c.p], pool[c.v]) && Near(cols, paths[c.t][c.p - 1], pool[c.v])
  }

  /** Length of the tentative tour the candidate produces. */
  function Cost(cols: nat, sqrt: int -> real, paths: seq<seq<nat>>, pool: seq<nat>, c: Choice): real
    requires cols > 0 && c.v < |pool| && c.t < |paths| && c.p <= |paths[c.t]|
  {
    PathLength(cols, sqrt, InsertAt(paths[c.t], c.p, pool[c.v]))
  }

  /** Scan order of the balancing step: node, then tour, then position. */
  predicate Before(c: Choice, d: Choice)
  {
    c.v < d.v || (c.v == d.v && (c.t < d.t || (c.t == d.t && c.p < d.p)))
  }

  /**
   * The committed choice: a candidate of minimal tentative length, and the
   * first such candidate in scan order.
   */
  ghost predicate IsSelected(cols: nat, sqrt: int -> real, paths: seq<seq<nat>>, pool: seq<nat>, c: Choice)
    requires cols > 0
  {
    Candidate(cols, paths, pool, c) &&
    (forall d :: Candidate(cols, paths, pool, d) ==>
       Cost(cols, sqrt, paths, pool, c) <= Cost(cols, sqrt, paths, pool, d)) &&
    (forall d :: Candidate(cols, paths, pool, d) && Before(d, c) ==>
       Cost(cols, sqrt, paths, pool, c) < Cost(cols, sqrt, paths, pool, d))
  }

  /** The selection rule is deterministic: at most one choice satisfies it. */
  lemma SelectedUnique(cols: nat, sqrt: int -> real, paths: seq<seq<nat>>, pool: seq<nat>, c: Choice, d: Choice)
    requires cols > 0
    requires IsSelected(cols, sqrt, paths, pool, c) && IsSelected(cols, sqrt, paths, pool, d)
    ensures c == d
  {
    if Before(c, d) {
      assert false;
    } else if Before(d, c) {
      assert false;
    }
  }

  /**
   * A run of the balancing loop from (paths, pool) to (paths', pool'): every
   * step inserts the IsSelected choice of the state the earlier steps left.
   */
  ghost predicate GreedyTrace(cols: nat, sqrt: int -> real, paths: seq<seq<nat>>, pool: seq<nat>,
                              steps: seq<Choice>, paths': seq<seq<nat>>, pool': seq<nat>)
    requires cols > 0
    decreases |steps|, 1
  {
    if steps == [] then paths' == paths && pool' == pool
    else GreedySteps(cols, sqrt, paths, pool, steps, paths', pool')
  }

  /**
   * A run of at least one step: the first step inserts the IsSelected choice
   * and the remaining steps are a run from the state it leaves.
   */
  ghost predicate GreedySteps(cols: nat, sqrt: int -> real, paths: seq<seq<nat>>, pool: seq<nat>,
                              steps: seq<Choice>, paths': seq<seq<nat>>, pool': seq<nat>)
    requires cols > 0 && steps != []
    decreases |steps|, 0
  {
    var c := steps[0];
    IsSelected(cols, sqrt, paths, pool, c) &&
    GreedyTrace(cols, sqrt, paths[c.t := InsertAt(paths[c.t], c.p, pool[c.v])], RemoveAt(pool, c.v),
                steps[1..], paths', pool')
  }

  /** One more selected insertion extends a run. */
  lemma {:induction false} GreedyTraceExtend(cols: nat, sqrt: int -> real, paths: seq<seq<nat>>, pool: seq<nat>,
                                             steps: seq<Choice>, paths': seq<seq<nat>>, pool': seq<nat>, c: Choice)
    requires cols > 0
    requires GreedyTrace(cols, sqrt, paths, pool, steps, paths', pool')
    requires IsSelected(cols, sqrt, paths', pool', c)
    ensures GreedyTrace(cols, sqrt, paths, pool, steps + [c],
                        paths'[c.t := InsertAt(paths'[c.t], c.p, pool'[c.v])], RemoveAt(pool', c.v))
    decreases |steps|
  {
    if steps == [] {
      assert steps + [c] == [c] && [c][1..] == [];
    } else {
      var s := steps[0];
      assert (steps + [c])[0] == s && (steps + [c])[1..] == steps[1..] + [c];
      GreedyTraceExtend(cols, sqrt, paths[s.t := InsertAt(paths[s.t], s.p, pool[s.v])], RemoveAt(pool, s.v),
                        steps[1..], paths', pool', c);
    }
  }

  /** Every step of a run erases exactly one pool node. */
  lemma {:induction false} GreedyTraceLength(cols: nat, sqrt: int -> real, paths: seq<seq<nat>>, pool: seq<nat>,
                                             steps: seq<Choice>, paths': seq<seq<nat>>, pool': seq<nat>)
    requires cols > 0
    requires GreedyTrace(cols, sqrt, paths, pool, steps, paths', pool')
    ensures |pool'| + |steps| == |pool|
    decreases |steps|
  {
    if steps != [] {
      var s := steps[0];
      GreedyTraceLength(cols, sqrt, paths[s.t := InsertAt(paths[s.t], s.p, pool[s.v])], RemoveAt(pool, s.v),
                        steps[1..], paths', pool');
    }
  }

  /**
   * The balancing loop is deterministic: two runs of the same number of steps
   * from the same state make the same choices and end in the same state.
   */
  lemma {:induction false} GreedyTraceDeterministic(cols: nat, sqrt: int -> real, paths: seq<seq<nat>>, pool: seq<nat>,
                                                    steps1: seq<Choice>, paths1: seq<seq<nat>>, pool1: seq<nat>,
                                                    steps2: seq<Choice>, paths2: seq<seq<nat>>, pool2: seq<nat>)
    requires cols > 0 && |steps1| == |steps2|
    requires GreedyTrace(cols, sqrt, paths, pool, steps1, paths1, pool1)
    requires GreedyTrace(cols, sqrt, paths, pool, steps2, paths2, pool2)
    ensures steps1 == steps2 && paths1 == paths2 && pool1 == pool2
    decreases |steps1|
  {
    if steps1 != [] {
      var s := steps1[0];
      SelectedUnique(cols, sqrt, paths, pool, s, steps2[0]);
      GreedyTraceDeterministic(cols, sqrt, paths[s.t := InsertAt(paths[s.t], s.p, pool[s.v])], RemoveAt(pool, s.v),
                               steps1[1..], paths1, pool1, steps2[1..], paths2, pool2);
      assert steps1 == [s] + steps1[1..] && steps2 == [s] + steps2[1..];
    }
  }

  /**
   * What the balancing scan knows once every position before `upto` (in scan
   * order) has been examined: when something was found, `choice` is a
   * candidate examined so far, deltaBest is its score Cost - bigL, and it is
   * the first of minimal cost among the candidates examined so far.
   */
  ghost predicate Scanned(cols: nat, sqrt: int -> real, paths: seq<seq<nat>>, pool: seq<nat>, bigL: Option<real>,
                          found: bool, choice: Choice, deltaBest: real, upto: Choice)
    requires cols > 0
  {
    (found ==> Candidate(cols, paths, pool, choice) && Before(choice, upto) &&
               bigL.Some? && deltaBest == Cost(cols, sqrt, paths, pool, choice) - bigL.value) &&
    (forall c :: Candidate(cols, paths, pool, c) && Before(c, upto) ==>
       found && Cost(cols, sqrt, paths, pool, choice) <= Cost(cols, sqrt, paths, pool, c)) &&
    (forall c :: Candidate(cols, paths, pool, c) && Before(c, upto) && Before(c, choice) ==>
       Cost(cols, sqrt, paths, pool, choice) < Cost(cols, sqrt, paths, pool, c))
  }

  /** Examining a position that does not beat the current choice changes nothing. */
  lemma ScanKeep(cols: nat, sqrt: int -> real, paths: seq<seq<nat>>, pool: seq<nat>, bigL: Option<real>,
                 found: bool, choice: Choice, deltaBest: real, v: nat, t: nat, p: nat)
    requires cols > 0
    requires Scanned(cols, sqrt, paths, pool, bigL, found, choice, deltaBest, Choice(v, t, p))
    requires Candidate(cols, paths, pool, Choice(v, t, p)) ==>
      found && Cost(cols, sqrt, paths, pool, choice) <= Cost(cols, sqrt, paths, pool, Choice(v, t, p))
    ensures Scanned(cols, sqrt, paths, pool, bigL, found, choice, deltaBest, Choice(v, t, p + 1))
  {
  }

  /** Examining a candidate strictly better than the current choice makes it the choice. */
  lemma ScanAdopt(cols: nat, sqrt: int -> real, paths: seq<seq<nat>>, pool: seq<nat>, bigL: Option<real>,
                  found: bool, choice: Choice, deltaBest: real, v: nat, t: nat, p: nat)
    requires cols > 0 && bigL.Some?
    requires Scanned(cols, sqrt, paths, pool, bigL, found, choice, deltaBest, Choice(v, t, p))
    requires Candidate(cols, paths, pool, Choice(v, t, p))
    requires found ==> Cost(cols, sqrt, paths, pool, Choice(v, t, p)) < Cost(cols, sqrt, paths, pool, choice)
    ensures Scanned(cols, sqrt, paths, pool, bigL, true, Choice(v, t, p),
                    Cost(cols, sqrt, paths, pool, Choice(v, t, p)) - bigL.value, Choice(v, t, p + 1))
  {
  }

  /** After the last position of tour t comes position 0 of tour t + 1. */
  lemma ScanNextTour(cols: nat, sqrt: int -> real, paths: seq<seq<nat>>, pool: seq<nat>, bigL: Option<real>,
                     found: bool, choice: Choice, deltaBest: real, v: nat, t: nat, p: nat)
    requires cols > 0 && t < |paths| && p >= |paths[t]|
    requires Scanned(cols, sqrt, paths, pool, bigL, found, choice, deltaBest, Choice(v, t, p))
    ensures Scanned(cols, sqrt, paths, pool, bigL, found, choice, deltaBest, Choice(v, t + 1, 0))
  {
  }

  /** After the last tour of node v comes tour 0 of node v + 1. */
  lemma ScanNextNode(cols: nat, sqrt: int -> real, paths: seq<seq<nat>>, pool: seq<nat>, bigL: Option<real>,
                     found: bool, choice: Choice, deltaBest: real, v: nat)
    requires cols > 0
    requires Scanned(cols, sqrt, paths, pool, bigL, found, choice, deltaBest, Choice(v, |paths|, 0))
    ensures Scanned(cols, sqrt, paths, pool, bigL, found, choice, deltaBest, Choice(v + 1, 0, 0))
  {
  }

  /** A scan that has passed every pool node has found the selected candidate, if any. */
  lemma ScanDone(cols: nat, sqrt: int -> real, paths: seq<seq<nat>>, pool: seq<nat>, bigL: Option<real>,
                 found: bool, choice: Choice, deltaBest: real)
    requires cols > 0
    requires Scanned(cols, sqrt, paths, pool, bigL, found, choice, deltaBest, Choice(|pool|, 0, 0))
    ensures found ==> IsSelected(cols, sqrt, paths, pool, choice)
    ensures !found ==> forall c :: !Candidate(cols, paths, pool, c)
  {
  }

  /**
   * What the innermost loop knows about tour t for node v once the positions
   * 1..p-1 have been examined: when a local best was found, liMin is the length
   * of the candidate at position `local`, and no examined candidate is shorter.
   */
  ghost predicate LocalBest(cols: nat, sqrt: int -> real, paths: seq<seq<nat>>, pool: seq<nat>,
                            v: nat, t: nat, p: nat, localFound: bool, liMin: real, local: nat)
    requires cols > 0
  {
    (localFound ==> 1 <= local < p && Candidate(cols, paths, pool, Choice(v, t, local)) &&
                    liMin == Cost(cols, sqrt, paths, pool, Choice(v, t, local))) &&
    (forall q :: 1 <= q < p && Candidate(cols, paths, pool, Choice(v, t, q)) ==>
       localFound && liMin <= Cost(cols, sqrt, paths, pool, Choice(v, t, q)))
  }

  /**
   * The body of the innermost loop: position p of tour t for node v. A
   * candidate that passes the locality filter and is strictly shorter than
   * liMin becomes the local best; scored as deltavip = liMin - bigL, it
   * replaces the global choice only when strictly below deltaBest. Candidates
   * that are not local improvements could never have won.
   */
  method ExaminePosition(cols: nat, sqrt: int -> real, paths: seq<seq<nat>>, pool: seq<nat>, bigL: Option<real>,
                         v: nat, t: nat, p: nat, found: bool, choice: Choice, deltaBest: real,
                         localFound: bool, liMin: real, ghost local: nat)
    returns (found': bool, choice': Choice, deltaBest': real, localFound': bool, liMin': real, ghost local': nat)
    requires cols > 0 && v < |pool| && t < |paths| && 1 <= p < |paths[t]| && bigL.Some?
    requires LocalBest(cols, sqrt, paths, pool, v, t, p, localFound, liMin, local)
    requires Scanned(cols, sqrt, paths, pool, bigL, found, choice, deltaBest, Choice(v, t, p))
    ensures LocalBest(cols, sqrt, paths, pool, v, t, p + 1, localFound', liMin', local')
    ensures Scanned(cols, sqrt, paths, pool, bigL, found', choice', deltaBest', Choice(v, t, p + 1))
  {
    found', choice', deltaBest' := found, choice, deltaBest;
    localFound', liMin', local' := localFound, liMin, local;
    var tour := paths[t];
    ghost var here := Choice(v, t, p);
    if Near(cols, tour[p], pool[v]) && Near(cols, tour[p - 1], pool[v]) {
      var tentative := InsertAt(tour, p, pool[v]);
      var tentLength := PathLength(cols, sqrt, tentative);
      assert tentLength == Cost(cols, sqrt, paths, pool, here);
      if !localFound || tentLength < liMin {
        liMin' := tentLength;
        localFound' := true;
        local' := p;
        var deltavip := liMin' - bigL.value;
        if !found || deltavip < deltaBest {
          ScanAdopt(cols, sqrt, paths, pool, bigL, found, choice, deltaBest, v, t, p);
          deltaBest' := deltavip;
          choice' := Choice(v, t, p);
          found' := true;
          return;
        }
      } else {
        assert Before(Choice(v, t, local), here);
      }
    }
    ScanKeep(cols, sqrt, paths, pool, bigL, found, choice, deltaBest, v, t, p);
  }

  /**
   * The innermost loop of one balancing iteration: every position of tour t
   * for pool node v, with liMin reset for the tour. Afterwards the scan state
   * moves on to the next tour.
   */
  method ScanTour(cols: nat, sqrt: int -> real, paths: seq<seq<nat>>, pool: seq<nat>, bigL: Option<real>,
                  v: nat, t: nat, found: bool, choice: Choice, deltaBest: real)
    returns (found': bool, choice': Choice, deltaBest': real)
    requires cols > 0 && v < |pool| && t < |paths| && bigL.Some?
    requires Scanned(cols, sqrt, paths, pool, bigL, found, choice, deltaBest, Choice(v, t, 0))
    ensures Scanned(cols, sqrt, paths, pool, bigL, found', choice', deltaBest', Choice(v, t + 1, 0))
  {
    found', choice', deltaBest' := found, choice, deltaBest;
    var liMin: real := 0.0;
    var localFound := false;
    ghost var local: nat := 0;
    var p := 1;
    ScanKeep(cols, sqrt, paths, pool, bigL, found', choice', deltaBest', v, t, 0);
    while p < |paths[t]|
      invariant 1 <= p && (|paths[t]| >= 1 ==> p <= |paths[t]|)
      invariant LocalBest(cols, sqrt, paths, pool, v, t, p, localFound, liMin, local)
      invariant Scanned(cols, sqrt, paths, pool, bigL, found', choice', deltaBest', Choice(v, t, p))
    {
      found', choice', deltaBest', localFound, liMin, local :=
        ExaminePosition(cols, sqrt, paths, pool, bigL, v, t, p, found', choice', deltaBest', localFound, liMin, local);
      p := p + 1;
    }
    ScanNextTour(cols, sqrt, paths, pool, bigL, found', choice', deltaBest', v, t, p);
  }

  /**
   * The three nested loops of one balancing iteration (the innermost one is
   * ScanTour). The result is the candidate of IsSelected: subtracting bigL
   * does not move the argmin.
   */
  method SelectInsertion(cols: nat, sqrt: int -> real, paths: seq<seq<nat>>, pool: seq<nat>, bigL: Option<real>)
    returns (found: bool, choice: Choice)
    requires cols > 0
    requires |paths| > 0 ==> bigL.Some?
    ensures found ==> IsSelected(cols, sqrt, paths, pool, choice)
    ensures !found ==> forall c :: !Candidate(cols, paths, pool, c)
  {
    found, choice := false, Choice(0, 0, 0);
    var deltaBest: real := 0.0;
    var v := 0;
    while v < |pool|
      invariant 0 <= v <= |pool|
      invariant Scanned(cols, sqrt, paths, pool, bigL, found, choice, deltaBest, Choice(v, 0, 0))
    {
      var t := 0;
      while t < |paths|
        invariant 0 <= t <= |paths|
        invariant Scanned(cols, sqrt, paths, pool, bigL, found, choice, deltaBest, Choice(v, t, 0))
      {
        found, choice, deltaBest := ScanTour(cols, sqrt, paths, pool, bigL, v, t, found, choice, deltaBest);
        t := t + 1;
      }
      ScanNextNode(cols, sqrt, paths, pool, bigL, found, choice, deltaBest, v);
      v := v + 1;
    }
    ScanDone(cols, sqrt, paths, pool, bigL, found, choice, deltaBest);
  }
}
