/** Ant colony optimisation over a set of points. Every ant starts at point
    0 and keeps moving to a point it has not visited yet, picked at random
    among the candidates of positive weight, where a candidate's weight is
    the pheromone on the edge divided by the edge's length, scaled by
    `alpha`. After all ants of an iteration are done, each ant lays
    `1 / length of its path` on every edge it walked. The best path over all
    ants of all iterations is tracked as it goes. */
module AntColony {

  datatype Point = Point(x: real, y: real)

  /** A path length that may still be the initial `np.inf`. */
  datatype Bound = Infinity | Finite(value: real)

  /** `b` is no larger than `c`, with Infinity above every finite length. */
  predicate AtMost(b: Bound, c: Bound) {
    c.Infinity? || (b.Finite? && b.value <= c.value)
  }

  // ---------------------------------------------------------------------
  // Distances
  // ---------------------------------------------------------------------

  /** `distance(points[i], points[j])` stands for the Euclidean distance
      of aco.py lines 82-86; the model only needs it to be positive
      between any two different points, as it is when the points are
      pairwise distinct. */
  predicate PositiveDistances(points: seq<Point>, distance: (Point, Point) -> real) {
    forall i, j :: 0 <= i < |points| && 0 <= j < |points| && i != j ==> distance(points[i], points[j]) > 0.0
  }

  /** `alpha` is indexed by position in the list of unvisited points, which
      holds up to `n - 1` points; `np.random.choice` needs non-negative
      weights that do not all vanish, and the first candidate is always
      there. */
  predicate ValidAlpha(alpha: seq<real>, n: nat) {
    |alpha| >= n - 1 &&
    (forall k :: 0 <= k < n - 1 ==> alpha[k] >= 0.0) &&
    (n >= 2 ==> alpha[0] > 0.0)
  }

  predicate PositivePheromone(pheromone: array2<real>)
    reads pheromone
  {
    forall i, j :: 0 <= i < pheromone.Length0 && 0 <= j < pheromone.Length1 ==> pheromone[i, j] > 0.0
  }

  // ---------------------------------------------------------------------
  // Choosing the next point
  // ---------------------------------------------------------------------

  /** The indices `idx` with `visited[idx]` false, in increasing order. */
  function Unvisited(visited: seq<bool>): (r: seq<nat>)
    ensures forall k :: 0 <= k < |r| ==> r[k] < |visited| && !visited[r[k]]
    ensures forall i {:trigger i in r} :: 0 <= i < |visited| && !visited[i] ==> i in r
    ensures forall k, l :: 0 <= k < l < |r| ==> r[k] < r[l]
    decreases |visited|
  {
    if visited == [] then []
    else
      var front := Unvisited(visited[..|visited| - 1]);
      if visited[|visited| - 1] then front else front + [|visited| - 1]
  }

  /** Marking one unvisited point removes exactly one candidate. */
  lemma {:induction false} UnvisitedMark(visited: seq<bool>, i: nat)
    requires i < |visited| && !visited[i]
    ensures |Unvisited(visited[i := true])| == |Unvisited(visited)| - 1
    decreases |visited|
  {
    var last := |visited| - 1;
    if i == last {
      assert visited[i := true][..last] == visited[..last];
    } else {
      assert visited[i := true][..last] == visited[..last][i := true];
      UnvisitedMark(visited[..last], i);
    }
  }

  /** With everything visited, no candidate is left. */
  lemma {:induction false} UnvisitedAllVisited(visited: seq<bool>)
    requires false !in visited
    ensures Unvisited(visited) == []
    decreases |visited|
  {
    if visited != [] {
      var front := visited[..|visited| - 1];
      assert false !in front by {
        forall k | 0 <= k < |front|
          ensures front[k]
        {
          assert front[k] == visited[k];
        }
      }
      UnvisitedAllVisited(front);
    }
  }

  /** With nothing visited, every index is a candidate. */
  lemma {:induction false} UnvisitedNone(n: nat)
    ensures |Unvisited(seq(n, _ => false))| == n
  {
    if n > 0 {
      assert seq(n, _ => false)[..n - 1] == seq(n - 1, _ => false);
      UnvisitedNone(n - 1);
    }
  }

  /** The weight of going from `current` to `candidate`, before
      normalisation: the pheromone on the edge over its length, times the
      `alpha` of the candidate's position in the unvisited list. */
  function Weight(pheromone: array2<real>, points: seq<Point>, distance: (Point, Point) -> real,
                  current: nat, candidate: nat, a: real): real
    reads pheromone
    requires current < pheromone.Length0 && candidate < pheromone.Length1
    requires current < |points| && candidate < |points|
    requires distance(points[current], points[candidate]) != 0.0
  {
    pheromone[current, candidate] / distance(points[current], points[candidate]) * a
  }

  /** With positive pheromone and a positive distance, a weight is never
      negative, and it is positive exactly when its `alpha` is. */
  lemma WeightSign(pheromone: array2<real>, points: seq<Point>, distance: (Point, Point) -> real,
                   current: nat, candidate: nat, a: real)
    requires current < pheromone.Length0 && candidate < pheromone.Length1
    requires current < |points| && candidate < |points|
    requires pheromone[current, candidate] > 0.0
    requires distance(points[current], points[candidate]) > 0.0
    requires a >= 0.0
    ensures Weight(pheromone, points, distance, current, candidate, a) >= 0.0
    ensures Weight(pheromone, points, distance, current, candidate, a) > 0.0 <==> a > 0.0
  {
    var q := pheromone[current, candidate] / distance(points[current], points[candidate]);
    assert q > 0.0;
    if a > 0.0 {
      assert q * a > 0.0;
    } else {
      assert q * a == 0.0;
    }
  }

  /** The weights of all unvisited points seen from `current`, in the order
      of `unvisited`. Normalising them by their sum does not change which
      ones are positive, so it is not modelled. */
  method Weights(pheromone: array2<real>, points: seq<Point>, distance: (Point, Point) -> real,
                 alpha: seq<real>, current: nat, unvisited: seq<nat>)
    returns (probabilities: seq<real>)
    requires pheromone.Length0 == |points| && pheromone.Length1 == |points|
    requires current < |points|
    requires forall k :: 0 <= k < |unvisited| ==> unvisited[k] < |points| && unvisited[k] != current
    requires PositiveDistances(points, distance)
    requires |alpha| >= |unvisited|
    ensures |probabilities| == |unvisited|
    ensures forall k :: 0 <= k < |unvisited| ==>
              probabilities[k] == Weight(pheromone, points, distance, current, unvisited[k], alpha[k])
  {
    probabilities := seq(|unvisited|, _ => 0.0);
    for idx := 0 to |unvisited|
      invariant |probabilities| == |unvisited|
      invariant forall k :: 0 <= k < idx ==>
                  probabilities[k] == Weight(pheromone, points, distance, current, unvisited[k], alpha[k])
    {
      var unvisitedPoint := unvisited[idx];
      var d := distance(points[current], points[unvisitedPoint]);
      var probability := pheromone[current, unvisitedPoint] / d;
      probability := probability * alpha[idx];
      probabilities := probabilities[idx := probability];
    }
  }

  /** aco.py lines 137-158: weighs every unvisited point and picks one at random.
      Only the candidates with a positive weight can be drawn; which one is
      drawn is left open. */
  method ChooseNext(pheromone: array2<real>, points: seq<Point>, distance: (Point, Point) -> real,
                    alpha: seq<real>, current: nat, unvisited: seq<nat>)
    returns (nextPoint: nat, ghost k: nat)
    requires pheromone.Length0 == |points| && pheromone.Length1 == |points|
    requires PositivePheromone(pheromone)
    requires PositiveDistances(points, distance)
    requires current < |points|
    requires forall k :: 0 <= k < |unvisited| ==> unvisited[k] < |points| && unvisited[k] != current
    requires |unvisited| >= 1 && |alpha| >= |unvisited|
    requires alpha[0] > 0.0 && forall k :: 0 <= k < |unvisited| ==> alpha[k] >= 0.0
    ensures nextPoint in unvisited && nextPoint != current
    ensures k < |unvisited| && nextPoint == unvisited[k]
    ensures Weight(pheromone, points, distance, current, nextPoint, alpha[k]) > 0.0
  {
    var probabilities := Weights(pheromone, points, distance, alpha, current, unvisited);
    WeightSign(pheromone, points, distance, current, unvisited[0], alpha[0]);
    var choice :| 0 <= choice < |unvisited| && probabilities[choice] > 0.0;
    nextPoint, k := unvisited[choice], choice;
  }

  // ---------------------------------------------------------------------
  // One ant's journey
  // ---------------------------------------------------------------------

  predicate InRange(path: seq<nat>, n: nat) {
    forall k :: 0 <= k < |path| ==> path[k] < n
  }

  predicate Distinct(path: seq<nat>) {
    forall k, l :: 0 <= k < l < |path| ==> path[k] != path[l]
  }

  /** A journey through all `n` points: starts at 0 and visits every point
      exactly once. */
  predicate IsTour(path: seq<nat>, n: nat) {
    |path| == n && (n >= 1 ==> path[0] == 0) &&
    InRange(path, n) && Distinct(path) &&
    (forall v :: 0 <= v < n ==> v in path)
  }

  /** The sum of the distances between consecutive points of `path`. */
  function PathLength(points: seq<Point>, distance: (Point, Point) -> real, path: seq<nat>): real
    requires InRange(path, |points|)
    decreases |path|
  {
    if |path| < 2 then 0.0
    else
      PathLength(points, distance, path[..|path| - 1]) +
      distance(points[path[|path| - 2]], points[path[|path| - 1]])
  }

  /** Taking one more step adds the length of that step. */
  lemma PathLengthSnoc(points: seq<Point>, distance: (Point, Point) -> real, path: seq<nat>, x: nat)
    requires InRange(path, |points|) && x < |points| && |path| >= 1
    ensures InRange(path + [x], |points|)
    ensures PathLength(points, distance, path + [x]) ==
            PathLength(points, distance, path) + distance(points[path[|path| - 1]], points[x])
  {
    assert (path + [x])[..|path|] == path;
  }

  /** A path through two or more distinct points has a positive length. */
  lemma {:induction false} PathLengthPositive(points: seq<Point>, distance: (Point, Point) -> real, path: seq<nat>)
    requires InRange(path, |points|) && Distinct(path)
    requires PositiveDistances(points, distance)
    requires |path| >= 2
    ensures PathLength(points, distance, path) > 0.0
    decreases |path|
  {
    var front := path[..|path| - 1];
    assert distance(points[path[|path| - 2]], points[path[|path| - 1]]) > 0.0;
    if |front| >= 2 {
      PathLengthPositive(points, distance, front);
    }
  }

  /** aco.py lines 165-166: the ant walks to `x`, adding that step to the length. */
  method Walk(points: seq<Point>, distance: (Point, Point) -> real, path: seq<nat>, pathLength: real, x: nat)
    returns (path': seq<nat>, pathLength': real)
    requires InRange(path, |points|) && |path| >= 1 && x < |points|
    requires pathLength == PathLength(points, distance, path)
    ensures path' == path + [x] && InRange(path', |points|)
    ensures pathLength' == PathLength(points, distance, path')
  {
    PathLengthSnoc(points, distance, path, x);
    path' := path + [x];
    pathLength' := pathLength + distance(points[path[|path| - 1]], points[x]);
  }

  /** Part of a tour: `path` starts at 0, never repeats a point, and holds
      exactly the points that `visited` marks; every other point is still a
      candidate. */
  predicate Partial(path: seq<nat>, visited: seq<bool>) {
    |path| >= 1 && path[0] == 0 &&
    InRange(path, |visited|) && Distinct(path) &&
    (forall i :: 0 <= i < |visited| ==> (visited[i] <==> i in path)) &&
    |path| + |Unvisited(visited)| == |visited|
  }

  /** aco.py lines 117-123: the ant stands on point 0, the only one visited. */
  lemma PartialStart(n: nat)
    requires n >= 1
    ensures Partial([0], seq(n, _ => false)[0 := true])
  {
    UnvisitedNone(n);
    UnvisitedMark(seq(n, _ => false), 0);
  }

  /** aco.py lines 165-169: moving to an unvisited point keeps the path a part of
      a tour, with one candidate fewer. */
  lemma PartialStep(path: seq<nat>, visited: seq<bool>, x: nat)
    requires Partial(path, visited)
    requires x < |visited| && !visited[x]
    ensures Partial(path + [x], visited[x := true])
    ensures |Unvisited(visited[x := true])| == |Unvisited(visited)| - 1
  {
    UnvisitedMark(visited, x);
    var path', seen := path + [x], visited[x := true];
    assert x !in path;
    assert path'[0] == 0 && InRange(path', |seen|);
    assert Distinct(path') by {
      forall k, l | 0 <= k < l < |path'|
        ensures path'[k] != path'[l]
      {
        assert path'[k] == path[k];
        if l < |path| {
          assert path'[l] == path[l];
        }
      }
    }
    forall i | 0 <= i < |seen|
      ensures seen[i] <==> i in path'
    {
      assert i in path' <==> i in path || i == x;
    }
  }

  /** aco.py line 131: once nothing is left to visit, the path is a tour. */
  lemma PartialDone(path: seq<nat>, visited: seq<bool>)
    requires Partial(path, visited) && false !in visited
    ensures IsTour(path, |visited|)
  {
    UnvisitedAllVisited(visited);
  }

  /** aco.py lines 133-169, one pass: the ant chooses among the points it has not
      visited yet, walks there and marks it visited. */
  method Advance(points: seq<Point>, pheromone: array2<real>, alpha: seq<real>,
                 distance: (Point, Point) -> real, visited: array<bool>,
                 path: seq<nat>, pathLength: real)
    returns (path': seq<nat>, pathLength': real)
    requires pheromone.Length0 == |points| && pheromone.Length1 == |points|
    requires PositivePheromone(pheromone)
    requires PositiveDistances(points, distance)
    requires ValidAlpha(alpha, |points|)
    requires visited.Length == |points| && Partial(path, visited[..]) && false in visited[..]
    requires pathLength == PathLength(points, distance, path)
    modifies visited
    ensures Partial(path', visited[..])
    ensures |Unvisited(visited[..])| < |Unvisited(old(visited[..]))|
    ensures |path'| == |path| + 1 && path'[..|path|] == path
    ensures pathLength' == PathLength(points, distance, path')
  {
    ghost var seen := visited[..];
    var currentPoint := path[|path| - 1];
    var unvisited := Unvisited(visited[..]);
    ghost var free :| 0 <= free < |seen| && !seen[free];
    assert free in unvisited;
    assert |unvisited| >= 1 && |path| + |unvisited| == |points|;
    assert seen[currentPoint];
    var nextPoint, k := ChooseNext(pheromone, points, distance, alpha, currentPoint, unvisited);
    PartialStep(path, seen, nextPoint);
    path', pathLength' := Walk(points, distance, path, pathLength, nextPoint);
    visited[nextPoint] := true;
    assert visited[..] == seen[nextPoint := true];
  }

  /** aco.py lines 111-172: one ant builds a tour from point 0, reading (and not
      changing) the pheromone matrix. */
  method ConstructTour(points: seq<Point>, pheromone: array2<real>, alpha: seq<real>,
                       distance: (Point, Point) -> real)
    returns (path: seq<nat>, pathLength: real)
    requires |points| >= 1
    requires pheromone.Length0 == |points| && pheromone.Length1 == |points|
    requires PositivePheromone(pheromone)
    requires PositiveDistances(points, distance)
    requires ValidAlpha(alpha, |points|)
    ensures IsTour(path, |points|)
    ensures pathLength == PathLength(points, distance, path)
  {
    var n := |points|;
    var visited := new bool[n](_ => false);
    assert visited[..] == seq(n, _ => false);
    var currentPoint := 0;
    visited[currentPoint] := true;
    PartialStart(n);
    assert visited[..] == seq(n, _ => false)[0 := true];
    pathLength := 0.0;
    path := [currentPoint];
    while false in visited[..]
      invariant visited.Length == n && Partial(path, visited[..])
      invariant currentPoint == path[|path| - 1]
      invariant pathLength == PathLength(points, distance, path)
      decreases |Unvisited(visited[..])|
    {
      path, pathLength := Advance(points, pheromone, alpha, distance, visited, path, pathLength);
      currentPoint := path[|path| - 1];
    }
    PartialDone(path, visited[..]);
  }

  // ---------------------------------------------------------------------
  // Keeping the best path
  // ---------------------------------------------------------------------

  /** The position of the first shortest length: `<` only replaces the
      best on a strictly shorter path, so the earliest one wins a tie. */
  function FirstMin(lengths: seq<real>): (m: nat)
    requires |lengths| >= 1
    ensures m < |lengths|
    ensures forall k :: 0 <= k < |lengths| ==> lengths[m] <= lengths[k]
    ensures forall k :: 0 <= k < m ==> lengths[k] > lengths[m]
    decreases |lengths|
  {
    if |lengths| == 1 then 0
    else
      var m := FirstMin(lengths[..|lengths| - 1]);
      if lengths[|lengths| - 1] < lengths[m] then |lengths| - 1 else m
  }

  /** `best_path_length` after the given path lengths: `np.inf` before any. */
  function Best(lengths: seq<real>): (b: Bound)
    ensures b.Infinity? <==> lengths == []
    ensures b.Finite? ==> b.value in lengths
    ensures forall k :: 0 <= k < |lengths| ==> AtMost(b, Finite(lengths[k]))
  {
    if lengths == [] then Infinity else Finite(lengths[FirstMin(lengths)])
  }

  /** More ants never make the best length larger. */
  lemma BestNonIncreasing(lengths: seq<real>, more: seq<real>)
    ensures AtMost(Best(lengths + more), Best(lengths))
  {
    if lengths != [] {
      var m := FirstMin(lengths);
      assert (lengths + more)[m] == lengths[m];
    }
  }

  /** The first shortest among one more length: the new one only when it is
      strictly shorter. */
  lemma FirstMinSnoc(lengths: seq<real>, x: real)
    requires |lengths| >= 1
    ensures FirstMin(lengths + [x]) == if x < lengths[FirstMin(lengths)] then |lengths| else FirstMin(lengths)
  {
    assert (lengths + [x])[..|lengths|] == lengths;
  }

  // ---------------------------------------------------------------------
  // Laying pheromone
  // ---------------------------------------------------------------------

  /** Some step of `path` goes from `i` to `j`. */
  predicate IsEdge(path: seq<nat>, i: nat, j: nat) {
    exists k :: 0 <= k < |path| - 1 && path[k] == i && path[k + 1] == j
  }

  /** What walking `path` adds to entry (i, j) when every step lays `inc`. */
  function Deposited(path: seq<nat>, inc: real, i: nat, j: nat): real
    decreases |path|
  {
    if |path| < 2 then 0.0
    else (if path[0] == i && path[1] == j then inc else 0.0) + Deposited(path[1..], inc, i, j)
  }

  /** `1 / path_length`, which is only computed for a path with a step. */
  function Increment(path: seq<nat>, pathLength: real): real
    requires |path| >= 2 ==> pathLength != 0.0
  {
    if |path| < 2 then 0.0 else 1.0 / pathLength
  }

  /** The division `1 / path_length` is defined for every ant whose path has
      a step. */
  predicate Divisible(paths: seq<seq<nat>>, pathLengths: seq<real>) {
    |paths| == |pathLengths| &&
    forall a :: 0 <= a < |paths| && |paths[a]| >= 2 ==> pathLengths[a] != 0.0
  }

  /** What all the given ants together add to entry (i, j). */
  function Deposit(paths: seq<seq<nat>>, pathLengths: seq<real>, i: nat, j: nat): real
    requires Divisible(paths, pathLengths)
    decreases |paths|
  {
    if paths == [] then 0.0
    else
      var last := |paths| - 1;
      Deposit(paths[..last], pathLengths[..last], i, j) +
      Deposited(paths[last], Increment(paths[last], pathLengths[last]), i, j)
  }

  /** An entry that is not a step of the path gets nothing. */
  lemma {:induction false} DepositedOffPath(path: seq<nat>, inc: real, i: nat, j: nat)
    requires !IsEdge(path, i, j)
    ensures Deposited(path, inc, i, j) == 0.0
    decreases |path|
  {
    if |path| >= 2 {
      assert !(path[0] == i && path[0 + 1] == j);
      var rest := path[1..];
      forall k | 0 <= k < |rest| - 1
        ensures !(rest[k] == i && rest[k + 1] == j)
      {
        assert rest[k] == path[k + 1] && rest[k + 1] == path[k + 1 + 1];
      }
      DepositedOffPath(path[1..], inc, i, j);
    }
  }

  /** On a path without repeated points, a step gets `inc` exactly once. */
  lemma {:induction false} DepositedDistinct(path: seq<nat>, inc: real, i: nat, j: nat)
    requires Distinct(path)
    ensures Deposited(path, inc, i, j) == if IsEdge(path, i, j) then inc else 0.0
    decreases |path|
  {
    if |path| >= 2 {
      var rest := path[1..];
      assert Distinct(rest);
      DepositedDistinct(rest, inc, i, j);
      if path[0] == i && path[1] == j {
        assert IsEdge(path, i, j) by {
          assert path[0] == i && path[0 + 1] == j;
        }
        forall m | 1 <= m < |rest|
          ensures rest[m] != j
        {
          assert rest[m] == path[m + 1];
        }
      } else {
        assert IsEdge(path, i, j) <==> IsEdge(rest, i, j) by {
          if IsEdge(path, i, j) {
            var k :| 0 <= k < |path| - 1 && path[k] == i && path[k + 1] == j;
            assert k >= 1;
            assert rest[k - 1] == i && rest[k - 1 + 1] == j;
          }
          if IsEdge(rest, i, j) {
            var k :| 0 <= k < |rest| - 1 && rest[k] == i && rest[k + 1] == j;
            assert path[k + 1] == i && path[k + 1 + 1] == j;
          }
        }
      }
    }
  }

  /** An entry that no ant stepped along gets nothing. */
  lemma {:induction false} DepositOffEdges(paths: seq<seq<nat>>, pathLengths: seq<real>, i: nat, j: nat)
    requires Divisible(paths, pathLengths)
    requires forall a :: 0 <= a < |paths| ==> !IsEdge(paths[a], i, j)
    ensures Deposit(paths, pathLengths, i, j) == 0.0
    decreases |paths|
  {
    if paths != [] {
      var last := |paths| - 1;
      DepositOffEdges(paths[..last], pathLengths[..last], i, j);
      DepositedOffPath(paths[last], Increment(paths[last], pathLengths[last]), i, j);
    }
  }

  lemma {:induction false} DepositedNonNegative(path: seq<nat>, inc: real, i: nat, j: nat)
    requires inc >= 0.0
    ensures Deposited(path, inc, i, j) >= 0.0
    decreases |path|
  {
    if |path| >= 2 {
      DepositedNonNegative(path[1..], inc, i, j);
    }
  }

  /** With positive path lengths, no entry ever loses pheromone. */
  lemma {:induction false} DepositNonNegative(paths: seq<seq<nat>>, pathLengths: seq<real>, i: nat, j: nat)
    requires Divisible(paths, pathLengths)
    requires forall a :: 0 <= a < |paths| && |paths[a]| >= 2 ==> pathLengths[a] > 0.0
    ensures Deposit(paths, pathLengths, i, j) >= 0.0
    decreases |paths|
  {
    if paths != [] {
      var last := |paths| - 1;
      DepositNonNegative(paths[..last], pathLengths[..last], i, j);
      DepositedNonNegative(paths[last], Increment(paths[last], pathLengths[last]), i, j);
    }
  }

  /** The pheromone laid by two batches of ants is the sum of both. */
  lemma {:induction false} DepositConcat(paths: seq<seq<nat>>, pathLengths: seq<real>,
                                         more: seq<seq<nat>>, moreLengths: seq<real>, i: nat, j: nat)
    requires Divisible(paths, pathLengths) && Divisible(more, moreLengths)
    ensures Divisible(paths + more, pathLengths + moreLengths)
    ensures Deposit(paths + more, pathLengths + moreLengths, i, j) ==
            Deposit(paths, pathLengths, i, j) + Deposit(more, moreLengths, i, j)
    decreases |more|
  {
    var all, allLengths := paths + more, pathLengths + moreLengths;
    assert Divisible(all, allLengths) by {
      forall a | 0 <= a < |all| && |all[a]| >= 2
        ensures allLengths[a] != 0.0
      {
        if a >= |paths| {
          assert all[a] == more[a - |paths|];
        }
      }
    }
    if more == [] {
      assert all == paths && allLengths == pathLengths;
    } else {
      var last := |more| - 1;
      assert all[..|all| - 1] == paths + more[..last];
      assert allLengths[..|all| - 1] == pathLengths + moreLengths[..last];
      DepositConcat(paths, pathLengths, more[..last], moreLengths[..last], i, j);
    }
  }

  /** Tours that follow those already recorded add to the pheromone they
      laid and never take any away. */
  lemma DepositMore(points: seq<Point>, distance: (Point, Point) -> real,
                    tours: seq<seq<nat>>, tourLengths: seq<real>,
                    more: seq<seq<nat>>, moreLengths: seq<real>)
    requires Divisible(tours, tourLengths) && Divisible(more, moreLengths)
    requires Walked(points, distance, more, moreLengths)
    requires PositiveDistances(points, distance)
    ensures Divisible(tours + more, tourLengths + moreLengths)
    ensures forall i: nat, j: nat ::
              Deposit(tours + more, tourLengths + moreLengths, i, j) ==
              Deposit(tours, tourLengths, i, j) + Deposit(more, moreLengths, i, j) &&
              Deposit(more, moreLengths, i, j) >= 0.0
  {
    PositiveLengths(more, moreLengths, points, distance);
    DepositConcat(tours, tourLengths, more, moreLengths, 0, 0);
    forall i: nat, j: nat
      ensures Deposit(tours + more, tourLengths + moreLengths, i, j) ==
              Deposit(tours, tourLengths, i, j) + Deposit(more, moreLengths, i, j)
      ensures Deposit(more, moreLengths, i, j) >= 0.0
    {
      DepositConcat(tours, tourLengths, more, moreLengths, i, j);
      DepositNonNegative(more, moreLengths, i, j);
    }
  }

  /** A tour never steps onto the point it is on, and never steps back onto
      point 0, where it started. */
  lemma TourEdges(path: seq<nat>, n: nat, i: nat)
    requires IsTour(path, n)
    ensures !IsEdge(path, i, i) && !IsEdge(path, i, 0)
  {
    if n >= 1 {
      assert path[0] == 0;
    }
  }

  /** Ants that walk tours lay nothing on the diagonal or in column 0. */
  lemma {:induction false} ToursLeaveDiagonalAndColumnZero(paths: seq<seq<nat>>, pathLengths: seq<real>, n: nat, i: nat)
    requires Divisible(paths, pathLengths)
    requires forall a :: 0 <= a < |paths| ==> IsTour(paths[a], n)
    ensures Deposit(paths, pathLengths, i, i) == 0.0
    ensures Deposit(paths, pathLengths, i, 0) == 0.0
    decreases |paths|
  {
    if paths != [] {
      var last := |paths| - 1;
      ToursLeaveDiagonalAndColumnZero(paths[..last], pathLengths[..last], n, i);
      var inc := Increment(paths[last], pathLengths[last]);
      TourEdges(paths[last], n, i);
      DepositedOffPath(paths[last], inc, i, i);
      DepositedOffPath(paths[last], inc, i, 0);
    }
  }

  /** aco.py lines 186-188: every ant of the iteration adds `1 / path_length` to
      the entry of each step it took, forward direction only. */
  method DepositPheromone(pheromone: array2<real>, paths: seq<seq<nat>>, pathLengths: seq<real>)
    requires Divisible(paths, pathLengths)
    requires forall a :: 0 <= a < |paths| ==>
               InRange(paths[a], pheromone.Length0) && InRange(paths[a], pheromone.Length1)
    modifies pheromone
    ensures forall i, j :: 0 <= i < pheromone.Length0 && 0 <= j < pheromone.Length1 ==>
              pheromone[i, j] == old(pheromone[i, j]) + Deposit(paths, pathLengths, i, j)
  {
    for a := 0 to |paths|
      invariant forall i, j :: 0 <= i < pheromone.Length0 && 0 <= j < pheromone.Length1 ==>
                  pheromone[i, j] == old(pheromone[i, j]) + Deposit(paths[..a], pathLengths[..a], i, j)
    {
      var path, pathLength := paths[a], pathLengths[a];
      ghost var inc := Increment(path, pathLength);
      ghost var before := Deposit(paths[..a], pathLengths[..a], 0, 0);
      var idx := 0;
      while idx + 1 < |path|
        invariant idx <= |path|
        invariant forall i, j :: 0 <= i < pheromone.Length0 && 0 <= j < pheromone.Length1 ==>
                    pheromone[i, j] + Deposited(path[idx..], inc, i, j) ==
                    old(pheromone[i, j]) + Deposit(paths[..a], pathLengths[..a], i, j) + Deposited(path, inc, i, j)
      {
        assert path[idx..][1..] == path[idx + 1..];
        pheromone[path[idx], path[idx + 1]] := pheromone[path[idx], path[idx + 1]] + 1.0 / pathLength;
        idx := idx + 1;
      }
      assert paths[..a + 1][..a] == paths[..a] && pathLengths[..a + 1][..a] == pathLengths[..a];
    }
    assert paths[..|paths|] == paths && pathLengths[..|paths|] == pathLengths;
  }

  // ---------------------------------------------------------------------
  // The whole run
  // ---------------------------------------------------------------------

  /** Every recorded path is a tour of `n` points and every recorded
      length is that tour's length. */
  predicate Walked(points: seq<Point>, distance: (Point, Point) -> real,
                   tours: seq<seq<nat>>, tourLengths: seq<real>) {
    |tours| == |tourLengths| &&
    forall a :: 0 <= a < |tours| ==> Toured(points, distance, tours[a], tourLengths[a])
  }

  /** `path` is a tour of all the points and `pathLength` its length. */
  predicate Toured(points: seq<Point>, distance: (Point, Point) -> real, path: seq<nat>, pathLength: real) {
    IsTour(path, |points|) && pathLength == PathLength(points, distance, path)
  }

  /** `best_path` and `best_path_length` as they stand after the given ants. */
  predicate Tracks(bestPath: seq<nat>, bestPathLength: Bound, tours: seq<seq<nat>>, tourLengths: seq<real>)
    requires |tours| == |tourLengths|
  {
    bestPathLength == Best(tourLengths) &&
    bestPath == if tourLengths == [] then [] else tours[FirstMin(tourLengths)]
  }

  /** aco.py lines 178-180: a strictly shorter path replaces the best one. */
  method Track(bestPath: seq<nat>, bestPathLength: Bound, path: seq<nat>, pathLength: real,
               ghost tours: seq<seq<nat>>, ghost tourLengths: seq<real>)
    returns (bestPath': seq<nat>, bestPathLength': Bound)
    requires |tours| == |tourLengths| && Tracks(bestPath, bestPathLength, tours, tourLengths)
    ensures Tracks(bestPath', bestPathLength', tours + [path], tourLengths + [pathLength])
  {
    if tourLengths != [] {
      FirstMinSnoc(tourLengths, pathLength);
    }
    bestPath', bestPathLength' := bestPath, bestPathLength;
    if bestPathLength.Infinity? || pathLength < bestPathLength.value {
      bestPathLength' := Finite(pathLength);
      bestPath' := path;
    }
  }

  /** aco.py lines 111-180, one ant: it builds a tour on the pheromone
      matrix, which it does not change, the tour joins those of the ants
      before it, and the best path is brought up to date. */
  method RunAnt(points: seq<Point>, pheromone: array2<real>, alpha: seq<real>,
                distance: (Point, Point) -> real,
                paths: seq<seq<nat>>, pathLengths: seq<real>,
                bestPath: seq<nat>, bestPathLength: Bound,
                ghost tours: seq<seq<nat>>, ghost tourLengths: seq<real>)
    returns (paths': seq<seq<nat>>, pathLengths': seq<real>, bestPath': seq<nat>, bestPathLength': Bound)
    requires |points| >= 1
    requires pheromone.Length0 == |points| && pheromone.Length1 == |points|
    requires PositivePheromone(pheromone)
    requires PositiveDistances(points, distance)
    requires ValidAlpha(alpha, |points|)
    requires |tours| == |tourLengths| && Walked(points, distance, paths, pathLengths)
    requires Tracks(bestPath, bestPathLength, tours + paths, tourLengths + pathLengths)
    ensures |paths'| == |paths| + 1 && paths'[..|paths|] == paths && Walked(points, distance, paths', pathLengths')
    ensures Tracks(bestPath', bestPathLength', tours + paths', tourLengths + pathLengths')
  {
    var path, pathLength := ConstructTour(points, pheromone, alpha, distance);
    bestPath', bestPathLength' := Track(bestPath, bestPathLength, path, pathLength, tours + paths, tourLengths + pathLengths);
    WalkedConcat(points, distance, paths, pathLengths, [path], [pathLength]);
    paths', pathLengths' := paths + [path], pathLengths + [pathLength];
    assert tours + paths + [path] == tours + paths';
    assert tourLengths + pathLengths + [pathLength] == tourLengths + pathLengths';
  }

  /** aco.py lines 110-180, one iteration's ants: each builds a tour on the
      same pheromone matrix, which none of them changes, and the best path
      is kept up to date after each. */
  method RunAnts(points: seq<Point>, pheromone: array2<real>, alpha: seq<real>,
                 distance: (Point, Point) -> real, ants: nat,
                 bestPath: seq<nat>, bestPathLength: Bound,
                 ghost tours: seq<seq<nat>>, ghost tourLengths: seq<real>)
    returns (paths: seq<seq<nat>>, pathLengths: seq<real>, bestPath': seq<nat>, bestPathLength': Bound)
    requires |points| >= 1
    requires pheromone.Length0 == |points| && pheromone.Length1 == |points|
    requires PositivePheromone(pheromone)
    requires PositiveDistances(points, distance)
    requires ValidAlpha(alpha, |points|)
    requires |tours| == |tourLengths| && Tracks(bestPath, bestPathLength, tours, tourLengths)
    ensures |paths| == ants && Walked(points, distance, paths, pathLengths)
    ensures Tracks(bestPath', bestPathLength', tours + paths, tourLengths + pathLengths)
  {
    paths, pathLengths := [], [];
    bestPath', bestPathLength' := bestPath, bestPathLength;
    assert tours + paths == tours && tourLengths + pathLengths == tourLengths;
    for ant := 0 to ants
      invariant |paths| == ant && Walked(points, distance, paths, pathLengths)
      invariant Tracks(bestPath', bestPathLength', tours + paths, tourLengths + pathLengths)
    {
      paths, pathLengths, bestPath', bestPathLength' :=
        RunAnt(points, pheromone, alpha, distance, paths, pathLengths, bestPath', bestPathLength', tours, tourLengths);
    }
  }

  /** `ant_colony_optimization`: `iterations` rounds of `ants` ants each.
      Its results, which the program prints, are the out-parameters; the
      ghost `tours` and `tourLengths` record every ant's path and length in
      the order the ants ran. */
  method AntColonyOptimization(points: seq<Point>, ants: nat, alpha: seq<real>,
                               distance: (Point, Point) -> real, iterations: nat := 5)
    returns (bestPath: seq<nat>, bestPathLength: Bound, pheromone: array2<real>,
             ghost tours: seq<seq<nat>>, ghost tourLengths: seq<real>)
    requires |points| >= 1
    requires PositiveDistances(points, distance)
    requires ValidAlpha(alpha, |points|)
    ensures fresh(pheromone)
    ensures pheromone.Length0 == |points| && pheromone.Length1 == |points|
    ensures |tours| == iterations * ants && Walked(points, distance, tours, tourLengths)
    ensures Tracks(bestPath, bestPathLength, tours, tourLengths)
    ensures Divisible(tours, tourLengths)
    ensures forall i, j :: 0 <= i < |points| && 0 <= j < |points| ==>
              pheromone[i, j] == 1.0 + Deposit(tours, tourLengths, i, j)
    ensures forall i, j :: 0 <= i < |points| && 0 <= j < |points| ==> pheromone[i, j] >= 1.0
    ensures forall i :: 0 <= i < |points| ==> pheromone[i, i] == 1.0 && pheromone[i, 0] == 1.0
  {
    var n := |points|;
    pheromone := new real[n, n]((i, j) => 1.0);
    bestPathLength := Infinity;
    bestPath := [];
    tours, tourLengths := [], [];
    for iteration := 0 to iterations
      invariant |tours| == iteration * ants && Walked(points, distance, tours, tourLengths)
      invariant Tracks(bestPath, bestPathLength, tours, tourLengths)
      invariant Divisible(tours, tourLengths)
      invariant forall i, j :: 0 <= i < n && 0 <= j < n ==> pheromone[i, j] == 1.0 + Deposit(tours, tourLengths, i, j)
    {
      ghost var paths, pathLengths;
      bestPath, bestPathLength, paths, pathLengths :=
        Iteration(points, pheromone, alpha, distance, ants, bestPath, bestPathLength, tours, tourLengths);
      assert (iteration + 1) * ants == iteration * ants + ants;
      tours, tourLengths := tours + paths, tourLengths + pathLengths;
    }
    PositiveLengths(tours, tourLengths, points, distance);
    forall i, j | 0 <= i < n && 0 <= j < n
      ensures pheromone[i, j] >= 1.0
    {
      DepositNonNegative(tours, tourLengths, i, j);
    }
    forall i | 0 <= i < n
      ensures pheromone[i, i] == 1.0 && pheromone[i, 0] == 1.0
    {
      ToursLeaveDiagonalAndColumnZero(tours, tourLengths, n, i);
    }
  }

  /** aco.py lines 101-188, one iteration: the ants run on the matrix as it stands,
      then their deposits are added. Given the ants that ran before, whose
      deposits the matrix already holds on top of 1.0, it then holds those
      of this iteration's ants too. No entry decreases, and the best length
      never rises. */
  method Iteration(points: seq<Point>, pheromone: array2<real>, alpha: seq<real>,
                   distance: (Point, Point) -> real, ants: nat,
                   bestPath: seq<nat>, bestPathLength: Bound,
                   ghost tours: seq<seq<nat>>, ghost tourLengths: seq<real>)
    returns (bestPath': seq<nat>, bestPathLength': Bound, ghost paths: seq<seq<nat>>, ghost pathLengths: seq<real>)
    requires |points| >= 1
    requires pheromone.Length0 == |points| && pheromone.Length1 == |points|
    requires PositiveDistances(points, distance)
    requires ValidAlpha(alpha, |points|)
    requires Walked(points, distance, tours, tourLengths) && Divisible(tours, tourLengths)
    requires Tracks(bestPath, bestPathLength, tours, tourLengths)
    requires forall i, j :: 0 <= i < |points| && 0 <= j < |points| ==>
               pheromone[i, j] == 1.0 + Deposit(tours, tourLengths, i, j)
    modifies pheromone
    ensures |paths| == ants && Walked(points, distance, tours + paths, tourLengths + pathLengths)
    ensures Divisible(tours + paths, tourLengths + pathLengths)
    ensures Tracks(bestPath', bestPathLength', tours + paths, tourLengths + pathLengths)
    ensures forall i, j :: 0 <= i < |points| && 0 <= j < |points| ==>
              pheromone[i, j] == 1.0 + Deposit(tours + paths, tourLengths + pathLengths, i, j)
    ensures forall i, j :: 0 <= i < |points| && 0 <= j < |points| ==> pheromone[i, j] >= old(pheromone[i, j])
    ensures AtMost(bestPathLength', bestPathLength)
  {
    PheromonePositive(pheromone, tours, tourLengths, points, distance);
    var antPaths, antLengths;
    antPaths, antLengths, bestPath', bestPathLength' :=
      RunAnts(points, pheromone, alpha, distance, ants, bestPath, bestPathLength, tours, tourLengths);
    WalkedDivisible(points, distance, antPaths, antLengths);
    DepositPheromone(pheromone, antPaths, antLengths);
    WalkedConcat(points, distance, tours, tourLengths, antPaths, antLengths);
    DepositMore(points, distance, tours, tourLengths, antPaths, antLengths);
    BestNonIncreasing(tourLengths, antLengths);
    paths, pathLengths := antPaths, antLengths;
  }

  /** Tours have positive lengths, so `1 / path_length` is defined. */
  lemma WalkedDivisible(points: seq<Point>, distance: (Point, Point) -> real,
                        tours: seq<seq<nat>>, tourLengths: seq<real>)
    requires Walked(points, distance, tours, tourLengths)
    requires PositiveDistances(points, distance)
    ensures Divisible(tours, tourLengths)
  {
    PositiveLengths(tours, tourLengths, points, distance);
  }

  lemma WalkedConcat(points: seq<Point>, distance: (Point, Point) -> real,
                     tours: seq<seq<nat>>, tourLengths: seq<real>,
                     more: seq<seq<nat>>, moreLengths: seq<real>)
    requires Walked(points, distance, tours, tourLengths)
    requires Walked(points, distance, more, moreLengths)
    ensures Walked(points, distance, tours + more, tourLengths + moreLengths)
  {
    forall a | |tours| <= a < |tours| + |more|
      ensures (tours + more)[a] == more[a - |tours|] && (tourLengths + moreLengths)[a] == moreLengths[a - |tours|]
    {
    }
  }

  /** The pheromone the ants read is positive: it starts at 1.0 and the
      deposits of tours are never negative. */
  lemma PheromonePositive(pheromone: array2<real>, tours: seq<seq<nat>>, tourLengths: seq<real>,
                          points: seq<Point>, distance: (Point, Point) -> real)
    requires pheromone.Length0 == |points| && pheromone.Length1 == |points|
    requires Divisible(tours, tourLengths) && Walked(points, distance, tours, tourLengths)
    requires PositiveDistances(points, distance)
    requires forall i, j :: 0 <= i < |points| && 0 <= j < |points| ==>
               pheromone[i, j] == 1.0 + Deposit(tours, tourLengths, i, j)
    ensures PositivePheromone(pheromone)
  {
    PositiveLengths(tours, tourLengths, points, distance);
    forall i, j | 0 <= i < |points| && 0 <= j < |points|
      ensures pheromone[i, j] > 0.0
    {
      DepositNonNegative(tours, tourLengths, i, j);
    }
  }

  lemma PositiveLengths(tours: seq<seq<nat>>, tourLengths: seq<real>,
                        points: seq<Point>, distance: (Point, Point) -> real)
    requires Walked(points, distance, tours, tourLengths)
    requires PositiveDistances(points, distance)
    ensures forall a :: 0 <= a < |tours| && |tours[a]| >= 2 ==> tourLengths[a] > 0.0
  {
    forall a | 0 <= a < |tours| && |tours[a]| >= 2
      ensures tourLengths[a] > 0.0
    {
      PathLengthPositive(points, distance, tours[a]);
    }
  }
}
