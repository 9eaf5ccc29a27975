/** Successive shortest paths: `bellman_ford` over the residual graph and
    the `min_cost_flow` loop that pushes flow along the cheapest path it
    finds until the target flow is met. */
module MinCost {
  import opened Extended
  import opened Paths
  import opened Graph
  import opened MaxFlow

  /** The residual and cost matrices are both `n x n`. */
  predicate Square(residual: array2<int>, cost: array2<int>, n: int)
  {
    residual.Length0 == n && residual.Length1 == n && cost.Length0 == n && cost.Length1 == n
  }

  /** A walk in the residual graph: at least one vertex, and positive
      residual capacity on every step. Vertices may repeat. */
  ghost predicate Walk(residual: array2<int>, w: seq<int>)
    reads residual
  {
    |w| >= 1 && PositivePath(residual, w)
  }

  /** A walk starting at `source`. */
  ghost predicate FromSource(residual: array2<int>, w: seq<int>, source: int)
    reads residual
  {
    Walk(residual, w) && w[0] == source
  }

  /** A walk from `source` to `v`. */
  ghost predicate WalkTo(residual: array2<int>, w: seq<int>, source: int, v: int)
    reads residual
  {
    Walk(residual, w) && w[0] == source && w[|w| - 1] == v
  }

  /** The cost of the steps of `w`, `cost[u][v]` for each step `u -> v`. */
  ghost function WalkCost(cost: array2<int>, w: seq<int>): (r: int)
    requires InRange(w, cost.Length0) && InRange(w, cost.Length1)
    reads cost
    decreases |w|
  {
    if |w| < 2 then 0 else WalkCost(cost, w[..|w| - 1]) + cost[w[|w| - 2], w[|w| - 1]]
  }

  /** Extending a walk by one step of positive residual capacity gives a
      walk, whose cost grows by the cost of that step. */
  lemma WalkExtend(residual: array2<int>, cost: array2<int>, w: seq<int>, v: int)
    requires Square(residual, cost, residual.Length0) && Walk(residual, w)
    requires 0 <= v < residual.Length0 && residual[w[|w| - 1], v] > 0
    ensures Walk(residual, w + [v]) && (w + [v])[..|w|] == w
    ensures WalkCost(cost, w + [v]) == WalkCost(cost, w) + cost[w[|w| - 1], v]
  {
    assert (w + [v])[..|w|] == w;
  }

  /** The distance `bellman_ford` starts `v` at: `0` for the source,
      `inf` for every other vertex. */
  function Initial(source: int, v: int): (r: ExtInt)
  {
    if v == source then Finite(0) else Infinity
  }

  /** `residual[u][v] > 0 and dist[u] + cost[u][v] < dist[v]`: the test on
      which `bellman_ford` relaxes a step and `min_cost_flow` reports a
      negative cycle. */
  predicate Relaxable(residual: array2<int>, cost: array2<int>, dist: seq<ExtInt>, u: int, v: int)
    requires Square(residual, cost, |dist|) && 0 <= u < |dist| && 0 <= v < |dist|
    reads residual, cost
  {
    residual[u, v] > 0 && Less(Plus(dist[u], cost[u, v]), dist[v])
  }

  /** `u` is recorded as the predecessor of `v`: the step `u -> v` has
      residual capacity, both ends have finite distances, and `v` is at
      least as far as `u` plus the step's cost; strictly further when `u`
      was lowered no earlier than `v` (`stamp` records when each distance
      was last lowered). */
  ghost predicate PredEdge(residual: array2<int>, cost: array2<int>, dist: seq<ExtInt>, stamp: seq<nat>, u: int, v: int)
    requires Square(residual, cost, |dist|) && |stamp| == |dist| && 0 <= v < |dist|
    reads residual, cost
  {
    && 0 <= u < |dist|
    && residual[u, v] > 0
    && dist[u].Finite? && dist[v].Finite?
    && dist[u].value + cost[u, v] <= dist[v].value
    && (stamp[u] >= stamp[v] ==> dist[u].value + cost[u, v] < dist[v].value)
  }

  /** No distance is above its initial value, and `pred[v]` is still `-1`
      exactly when `dist[v]` was never lowered. */
  ghost predicate Lowered(source: int, dist: seq<ExtInt>, pred: seq<int>)
    requires |pred| == |dist|
  {
    && (forall v :: 0 <= v < |dist| ==> AtMost(dist[v], Initial(source, v)))
    && (forall v :: 0 <= v < |dist| ==> (pred[v] == -1 <==> dist[v] == Initial(source, v)))
  }

  /** Every recorded predecessor is a `PredEdge`. */
  ghost predicate PredEdges(residual: array2<int>, cost: array2<int>, dist: seq<ExtInt>, pred: seq<int>, stamp: seq<nat>)
    requires Square(residual, cost, |dist|) && |pred| == |dist| && |stamp| == |dist|
    reads residual, cost
  {
    forall v :: 0 <= v < |dist| && pred[v] != -1 ==> PredEdge(residual, cost, dist, stamp, pred[v], v)
  }

  /** Every finite distance is the cost of a residual walk from the
      source: the one recorded in `walks`. */
  ghost predicate Witnessed(residual: array2<int>, cost: array2<int>, source: int, dist: seq<ExtInt>, walks: seq<seq<int>>)
    requires Square(residual, cost, |dist|) && |walks| == |dist|
    reads residual, cost
  {
    forall v :: 0 <= v < |dist| && dist[v].Finite? ==>
      WalkTo(residual, walks[v], source, v) && WalkCost(cost, walks[v]) == dist[v].value
  }

  /** The invariant of `bellman_ford`'s tables: `Lowered`, `PredEdges`,
      `Witnessed`, and no stamp later than the clock. */
  ghost predicate Labelled(residual: array2<int>, cost: array2<int>, source: int, dist: seq<ExtInt>, pred: seq<int>,
                           stamp: seq<nat>, walks: seq<seq<int>>, clock: nat)
    reads residual, cost
  {
    && Square(residual, cost, |dist|) && 0 <= source < |dist|
    && |pred| == |dist| && |stamp| == |dist| && |walks| == |dist|
    && Lowered(source, dist, pred)
    && PredEdges(residual, cost, dist, pred, stamp)
    && (forall v :: 0 <= v < |dist| ==> stamp[v] <= clock)
    && Witnessed(residual, cost, source, dist, walks)
  }

  /** The body of `bellman_ford`'s inner loop for the step `u -> v`: when
      it is relaxable, `dist[v] = dist[u] + cost[u][v]` and `pred[v] = u`.
      Only `v` changes, it changes exactly when the step is relaxable, its
      distance then strictly drops, and afterwards `v` is no further than
      `u`'s old distance plus the step. */
  method Relax(residual: array2<int>, cost: array2<int>, source: int, dist: seq<ExtInt>, pred: seq<int>,
               ghost stamp: seq<nat>, ghost walks: seq<seq<int>>, ghost clock: nat, u: int, v: int)
    returns (dist': seq<ExtInt>, pred': seq<int>, ghost stamp': seq<nat>, ghost walks': seq<seq<int>>, ghost clock': nat)
    requires Labelled(residual, cost, source, dist, pred, stamp, walks, clock) && 0 <= u < |dist| && 0 <= v < |dist|
    ensures Labelled(residual, cost, source, dist', pred', stamp', walks', clock')
    ensures |dist'| == |dist| && dist' == dist[v := dist'[v]] && pred' == pred[v := pred'[v]]
    ensures NoHigher(dist', dist)
    ensures Less(dist'[v], dist[v]) <==> Relaxable(residual, cost, dist, u, v)
    ensures Less(dist'[v], dist[v]) ==> dist'[v] == Plus(dist[u], cost[u, v]) && pred'[v] == u
    ensures !Less(dist'[v], dist[v]) ==> dist'[v] == dist[v] && pred'[v] == pred[v]
    ensures residual[u, v] > 0 ==> AtMost(dist'[v], Plus(dist[u], cost[u, v]))
  {
    if residual[u, v] > 0 && Less(Plus(dist[u], cost[u, v]), dist[v]) {
      dist' := dist[v := Plus(dist[u], cost[u, v])];
      pred' := pred[v := u];
      stamp' := stamp[v := clock + 1];
      walks' := walks[v := walks[u] + [v]];
      clock' := clock + 1;
      RelaxKeepsLabelled(residual, cost, source, dist, pred, stamp, walks, clock, u, v);
    } else {
      dist', pred', stamp', walks', clock' := dist, pred, stamp, walks, clock;
    }
  }

  /** Relaxing a relaxable step `u -> v` keeps the tables `Labelled`, with
      `v` stamped at the next tick of the clock and its witness walk
      extended from `u`'s by the step. */
  lemma RelaxKeepsLabelled(residual: array2<int>, cost: array2<int>, source: int, dist: seq<ExtInt>, pred: seq<int>,
                           stamp: seq<nat>, walks: seq<seq<int>>, clock: nat, u: int, v: int)
    requires Labelled(residual, cost, source, dist, pred, stamp, walks, clock) && 0 <= u < |dist| && 0 <= v < |dist|
    requires Relaxable(residual, cost, dist, u, v)
    ensures Labelled(residual, cost, source, dist[v := Plus(dist[u], cost[u, v])], pred[v := u],
                     stamp[v := clock + 1], walks[v := walks[u] + [v]], clock + 1)
  {
    RelaxKeepsLowered(source, dist, pred, u, v, Plus(dist[u], cost[u, v]));
    RelaxKeepsPredEdges(residual, cost, dist, pred, stamp, clock, u, v);
    RelaxKeepsWitnessed(residual, cost, source, dist, walks, u, v);
  }

  /** Lowering `dist[v]` strictly and recording a predecessor `u >= 0`
      keeps `Lowered`. */
  lemma RelaxKeepsLowered(source: int, dist: seq<ExtInt>, pred: seq<int>, u: int, v: int, e: ExtInt)
    requires |pred| == |dist| && Lowered(source, dist, pred) && 0 <= u && 0 <= v < |dist| && Less(e, dist[v])
    ensures Lowered(source, dist[v := e], pred[v := u])
  {
  }

  /** After relaxing `u -> v`, with `v` stamped later than every other
      vertex, every recorded predecessor is still a `PredEdge`: the new one
      holds with equality, and those out of `v` become strict. */
  lemma RelaxKeepsPredEdges(residual: array2<int>, cost: array2<int>, dist: seq<ExtInt>, pred: seq<int>, stamp: seq<nat>,
                            clock: nat, u: int, v: int)
    requires Square(residual, cost, |dist|) && |pred| == |dist| && |stamp| == |dist|
    requires PredEdges(residual, cost, dist, pred, stamp) && forall x :: 0 <= x < |dist| ==> stamp[x] <= clock
    requires 0 <= u < |dist| && 0 <= v < |dist| && Relaxable(residual, cost, dist, u, v)
    ensures PredEdges(residual, cost, dist[v := Plus(dist[u], cost[u, v])], pred[v := u], stamp[v := clock + 1])
  {
    var dist', pred', stamp' := dist[v := Plus(dist[u], cost[u, v])], pred[v := u], stamp[v := clock + 1];
    forall x | 0 <= x < |dist| && pred'[x] != -1
      ensures PredEdge(residual, cost, dist', stamp', pred'[x], x)
    {
      if x != v {
        assert PredEdge(residual, cost, dist, stamp, pred[x], x);
      }
    }
  }

  /** Relaxing `u -> v` keeps every finite distance witnessed, `v`'s by
      `u`'s walk extended with the step. */
  lemma RelaxKeepsWitnessed(residual: array2<int>, cost: array2<int>, source: int, dist: seq<ExtInt>, walks: seq<seq<int>>,
                            u: int, v: int)
    requires Square(residual, cost, |dist|) && |walks| == |dist| && Witnessed(residual, cost, source, dist, walks)
    requires 0 <= u < |dist| && 0 <= v < |dist| && Relaxable(residual, cost, dist, u, v)
    ensures Witnessed(residual, cost, source, dist[v := Plus(dist[u], cost[u, v])], walks[v := walks[u] + [v]])
  {
    WalkExtend(residual, cost, walks[u], v);
  }

  /** No entry of `a` is above the same entry of `b`. */
  predicate NoHigher(a: seq<ExtInt>, b: seq<ExtInt>)
  {
    |a| == |b| && forall x :: 0 <= x < |a| ==> AtMost(a[x], b[x])
  }

  lemma NoHigherTransitive(a: seq<ExtInt>, b: seq<ExtInt>, c: seq<ExtInt>)
    requires NoHigher(a, b) && NoHigher(b, c)
    ensures NoHigher(a, c)
  {
  }

  /** Step `x -> y` comes before step `u -> v` in the order `bellman_ford`
      scans the matrix: row by row, column by column. */
  predicate Before(x: int, y: int, u: int, v: int)
  {
    x < u || (x == u && y < v)
  }

  /** Every residual walk from the source with at most `len` vertices,
      and every one with `len + 1` vertices whose last step comes before
      `u -> v`, costs no less than the distance of its end. */
  ghost predicate WalksBound(residual: array2<int>, cost: array2<int>, source: int, dist: seq<ExtInt>, len: int, u: int, v: int)
    requires Square(residual, cost, |dist|) && len >= 1
    reads residual, cost
  {
    forall w ::
      (FromSource(residual, w, source) && (|w| <= len || (|w| == len + 1 && Before(w[|w| - 2], w[|w| - 1], u, v))))
      ==> AtMost(dist[w[|w| - 1]], Finite(WalkCost(cost, w)))
  }

  /** Before the first round only the walk `[source]` is bounded, by a
      source distance of at most `0`. */
  lemma BoundStart(residual: array2<int>, cost: array2<int>, source: int, dist: seq<ExtInt>)
    requires Square(residual, cost, |dist|) && 0 <= source < |dist| && AtMost(dist[source], Finite(0))
    ensures WalksBound(residual, cost, source, dist, 1, 0, 0)
  {
  }

  /** Lowering distances keeps every bound, and once `dist[v]` is no
      further than `u`'s previous distance plus the step, the walks whose
      last step is `u -> v` are bounded too. */
  lemma {:induction false} BoundStep(residual: array2<int>, cost: array2<int>, source: int, dist: seq<ExtInt>,
                                     dist': seq<ExtInt>, len: int, u: int, v: int)
    requires Square(residual, cost, |dist|) && |dist'| == |dist| && len >= 1 && 0 <= u < |dist| && 0 <= v < |dist|
    requires WalksBound(residual, cost, source, dist, len, u, v)
    requires NoHigher(dist', dist)
    requires residual[u, v] > 0 ==> AtMost(dist'[v], Plus(dist[u], cost[u, v]))
    ensures WalksBound(residual, cost, source, dist', len, u, v + 1)
  {
    forall w | FromSource(residual, w, source) &&
      (|w| <= len || (|w| == len + 1 && Before(w[|w| - 2], w[|w| - 1], u, v + 1)))
      ensures AtMost(dist'[w[|w| - 1]], Finite(WalkCost(cost, w)))
    {
      if |w| <= len || Before(w[|w| - 2], w[|w| - 1], u, v) {
        assert AtMost(dist[w[|w| - 1]], Finite(WalkCost(cost, w)));
      } else {
        var p := w[..|w| - 1];
        assert FromSource(residual, p, source) && |p| <= len && p[|p| - 1] == u;
        assert AtMost(dist[u], Finite(WalkCost(cost, p)));
      }
    }
  }

  /** Finishing row `u` is starting row `u + 1`. */
  lemma NextRow(residual: array2<int>, cost: array2<int>, source: int, dist: seq<ExtInt>, len: int, u: int)
    requires Square(residual, cost, |dist|) && len >= 1
    requires WalksBound(residual, cost, source, dist, len, u, |dist|)
    ensures WalksBound(residual, cost, source, dist, len, u + 1, 0)
  {
  }

  /** Finishing the last row bounds every walk with one more vertex. */
  lemma NextRound(residual: array2<int>, cost: array2<int>, source: int, dist: seq<ExtInt>, len: int)
    requires Square(residual, cost, |dist|) && len >= 1
    requires WalksBound(residual, cost, source, dist, len, |dist|, 0)
    ensures WalksBound(residual, cost, source, dist, len + 1, 0, 0)
  {
  }

  /** The `for v in range(n)` loop of `bellman_ford` for row `u`: relax
      every step out of `u` in column order. The tables stay `Labelled`,
      no distance rises, and the walks ending with a step out of `u` join
      the bounded ones. */
  method RelaxRow(residual: array2<int>, cost: array2<int>, source: int, dist: seq<ExtInt>, pred: seq<int>,
                  ghost stamp: seq<nat>, ghost walks: seq<seq<int>>, ghost clock: nat, ghost len: int, u: int)
    returns (dist': seq<ExtInt>, pred': seq<int>, ghost stamp': seq<nat>, ghost walks': seq<seq<int>>, ghost clock': nat)
    requires Labelled(residual, cost, source, dist, pred, stamp, walks, clock) && 0 <= u < |dist| && len >= 1
    requires WalksBound(residual, cost, source, dist, len, u, 0)
    ensures Labelled(residual, cost, source, dist', pred', stamp', walks', clock')
    ensures WalksBound(residual, cost, source, dist', len, u + 1, 0)
    ensures NoHigher(dist', dist)
  {
    dist', pred', stamp', walks', clock' := dist, pred, stamp, walks, clock;
    for v := 0 to |dist|
      invariant Labelled(residual, cost, source, dist', pred', stamp', walks', clock')
      invariant WalksBound(residual, cost, source, dist', len, u, v)
      invariant NoHigher(dist', dist)
    {
      ghost var before := dist';
      dist', pred', stamp', walks', clock' := Relax(residual, cost, source, dist', pred', stamp', walks', clock', u, v);
      BoundStep(residual, cost, source, before, dist', len, u, v);
      NoHigherTransitive(dist', before, dist);
    }
    NextRow(residual, cost, source, dist', len, u);
  }

  /** One round of `bellman_ford`: relax every step, row by row. Walks
      with one more vertex become bounded. */
  method RelaxRound(residual: array2<int>, cost: array2<int>, source: int, dist: seq<ExtInt>, pred: seq<int>,
                    ghost stamp: seq<nat>, ghost walks: seq<seq<int>>, ghost clock: nat, ghost len: int)
    returns (dist': seq<ExtInt>, pred': seq<int>, ghost stamp': seq<nat>, ghost walks': seq<seq<int>>, ghost clock': nat)
    requires Labelled(residual, cost, source, dist, pred, stamp, walks, clock) && len >= 1
    requires WalksBound(residual, cost, source, dist, len, 0, 0)
    ensures Labelled(residual, cost, source, dist', pred', stamp', walks', clock')
    ensures WalksBound(residual, cost, source, dist', len + 1, 0, 0)
    ensures NoHigher(dist', dist)
  {
    dist', pred', stamp', walks', clock' := dist, pred, stamp, walks, clock;
    for u := 0 to |dist|
      invariant Labelled(residual, cost, source, dist', pred', stamp', walks', clock')
      invariant WalksBound(residual, cost, source, dist', len, u, 0)
      invariant NoHigher(dist', dist)
    {
      ghost var before := dist';
      dist', pred', stamp', walks', clock' := RelaxRow(residual, cost, source, dist', pred', stamp', walks', clock', len, u);
      NoHigherTransitive(dist', before, dist);
    }
    NextRound(residual, cost, source, dist', len);
  }

  /** `bellman_ford(residual, cost, source, n)`: distances start at `inf`
      (`0` for the source), predecessors at `-1`, and `n - 1` rounds relax
      every step with residual capacity. The result is `Lowered` (so
      `pred[v]` was set exactly for the vertices whose distance dropped),
      every recorded predecessor is a `PredEdge`, every finite distance is
      the cost of a residual walk from the source, and no residual walk
      from the source with at most `n` vertices costs less than the
      distance of its end. */
  method BellmanFord(residual: array2<int>, cost: array2<int>, source: int, n: int)
    returns (dist: seq<ExtInt>, pred: seq<int>, ghost stamp: seq<nat>, ghost walks: seq<seq<int>>)
    requires Square(residual, cost, n) && 0 <= source < n
    ensures |dist| == n && |pred| == n && |stamp| == n && |walks| == n
    ensures Lowered(source, dist, pred)
    ensures PredEdges(residual, cost, dist, pred, stamp)
    ensures Witnessed(residual, cost, source, dist, walks)
    ensures forall w :: FromSource(residual, w, source) && |w| <= n ==> AtMost(dist[w[|w| - 1]], Finite(WalkCost(cost, w)))
  {
    dist := seq(n, _ => Infinity);
    pred := seq(n, _ => -1);
    dist := dist[source := Finite(0)];
    stamp, walks := seq(n, _ => 0), seq(n, v => [v]);
    ghost var clock: nat := 0;
    BoundStart(residual, cost, source, dist);
    for round := 0 to n - 1
      invariant Labelled(residual, cost, source, dist, pred, stamp, walks, clock)
      invariant WalksBound(residual, cost, source, dist, round + 1, 0, 0)
    {
      dist, pred, stamp, walks, clock := RelaxRound(residual, cost, source, dist, pred, stamp, walks, clock, round + 1);
    }
  }

  /** No step with residual capacity can still be relaxed: the condition
      under which `min_cost_flow`'s check after `bellman_ford` passes. */
  ghost predicate Settled(residual: array2<int>, cost: array2<int>, dist: seq<ExtInt>)
    requires Square(residual, cost, |dist|)
    reads residual, cost
  {
    forall u, v :: 0 <= u < |dist| && 0 <= v < |dist| ==> !Relaxable(residual, cost, dist, u, v)
  }

  /** A closed residual walk of negative cost. */
  ghost predicate NegativeCycleAt(residual: array2<int>, cost: array2<int>, c: seq<int>)
    requires Square(residual, cost, residual.Length0)
    reads residual, cost
  {
    Walk(residual, c) && |c| >= 2 && c[0] == c[|c| - 1] && WalkCost(cost, c) < 0
  }

  /** Some negative cycle of the residual graph can be reached from
      `source`. */
  ghost predicate ReachableNegativeCycle(residual: array2<int>, cost: array2<int>, source: int)
    requires Square(residual, cost, residual.Length0)
    reads residual, cost
  {
    exists p, c :: FromSource(residual, p, source) && NegativeCycleAt(residual, cost, c) && c[0] == p[|p| - 1]
  }

  /** Every stretch of a walk is a walk. */
  lemma SubWalk(residual: array2<int>, w: seq<int>, i: int, j: int)
    requires Walk(residual, w) && 0 <= i < j <= |w|
    ensures Walk(residual, w[i..j])
  {
  }

  /** Joining a walk that ends where another starts gives a walk whose cost
      is the sum of the two. */
  lemma {:induction false} WalkAppend(residual: array2<int>, cost: array2<int>, a: seq<int>, b: seq<int>)
    requires Square(residual, cost, residual.Length0) && Walk(residual, a) && Walk(residual, b) && a[|a| - 1] == b[0]
    ensures Walk(residual, a + b[1..]) && WalkCost(cost, a + b[1..]) == WalkCost(cost, a) + WalkCost(cost, b)
    decreases |b|
  {
    if |b| == 1 {
      assert a + b[1..] == a;
    } else {
      var front := b[..|b| - 1];
      SubWalk(residual, b, 0, |b| - 1);
      WalkAppend(residual, cost, a, front);
      JoinLast(a, b);
      WalkExtend(residual, cost, a + front[1..], b[|b| - 1]);
    }
  }

  /** Joining `a` to `b` is joining `a` to `b` without its last vertex,
      then adding that vertex. */
  lemma JoinLast(a: seq<int>, b: seq<int>)
    requires |a| >= 1 && |b| >= 2 && a[|a| - 1] == b[0]
    ensures a + b[1..] == (a + b[..|b| - 1][1..]) + [b[|b| - 1]]
    ensures |a + b[..|b| - 1][1..]| >= 1 && (a + b[..|b| - 1][1..])[|a + b[..|b| - 1][1..]| - 1] == b[|b| - 2]
  {
    assert a + b[1..] == (a + b[..|b| - 1][1..]) + [b[|b| - 1]];
  }

  /** Cutting at `i` and joining again gives back the sequence. */
  lemma Rejoin(w: seq<int>, i: int)
    requires 0 <= i < |w|
    ensures w[..i + 1] + w[i..][1..] == w
  {
    assert w[..i + 1] + w[i..][1..] == w;
  }

  /** Along a walk whose first vertex has a finite distance, no step of
      which can be relaxed, the distance of the last vertex is finite and
      at most the first one's plus the cost of the walk. */
  lemma {:induction false} SettledWalk(residual: array2<int>, cost: array2<int>, dist: seq<ExtInt>, w: seq<int>)
    requires Square(residual, cost, |dist|) && Settled(residual, cost, dist) && Walk(residual, w) && dist[w[0]].Finite?
    ensures dist[w[|w| - 1]].Finite? && dist[w[|w| - 1]].value <= dist[w[0]].value + WalkCost(cost, w)
    decreases |w|
  {
    if |w| >= 2 {
      var front := w[..|w| - 1];
      SubWalk(residual, w, 0, |w| - 1);
      SettledWalk(residual, cost, dist, front);
      assert !Relaxable(residual, cost, dist, w[|w| - 2], w[|w| - 1]);
    }
  }

  /** A closed walk starting where a walk from the source ends costs
      nothing negative when no negative cycle is in reach. */
  lemma CycleNotNegative(residual: array2<int>, cost: array2<int>, source: int, p: seq<int>, c: seq<int>)
    requires Square(residual, cost, residual.Length0) && !ReachableNegativeCycle(residual, cost, source)
    requires FromSource(residual, p, source) && Walk(residual, c) && |c| >= 2 && c[0] == c[|c| - 1] && c[0] == p[|p| - 1]
    ensures WalkCost(cost, c) >= 0
  {
  }

  /** A walk from the source with more than `n` vertices repeats a
      vertex: it splits into a shorter walk `s` with the same ends and a
      closed walk `c` from a vertex that the walk `p` from the source
      reaches, the costs of `s` and `c` adding up to the cost of the walk. */
  lemma {:induction false} SplitCycle(residual: array2<int>, cost: array2<int>, source: int, w: seq<int>)
    returns (s: seq<int>, p: seq<int>, c: seq<int>)
    requires Square(residual, cost, residual.Length0) && FromSource(residual, w, source) && |w| > residual.Length0
    ensures FromSource(residual, s, source) && s[|s| - 1] == w[|w| - 1] && |s| < |w|
    ensures FromSource(residual, p, source) && Walk(residual, c) && |c| >= 2 && c[0] == c[|c| - 1] && c[0] == p[|p| - 1]
    ensures WalkCost(cost, s) + WalkCost(cost, c) == WalkCost(cost, w)
  {
    var i, j := Repeat(w, residual.Length0);
    var front, tail := w[..j + 1], w[j..];
    CutAt(w, i, j);
    WalkSplit(residual, cost, w, j);
    WalkSplit(residual, cost, front, i);
    p, c := w[..i + 1], w[i..j + 1];
    WalkAppend(residual, cost, p, tail);
    s := p + tail[1..];
  }

  /** More than `n` vertices below `n` repeat one. */
  lemma Repeat(w: seq<int>, n: nat) returns (i: int, j: int)
    requires InRange(w, n) && |w| > n
    ensures 0 <= i < j < |w| && w[i] == w[j]
  {
    assert !Distinct(w) by {
      if Distinct(w) {
        DistinctIsShort(w, n);
      }
    }
    i, j :| 0 <= i < j < |w| && w[i] == w[j];
  }

  /** The sequence facts behind `SplitCycle`: the prefix up to the second
      visit splits at the first, and skipping from the first visit to the
      step after the second keeps the last vertex and loses at least one. */
  lemma CutAt(w: seq<int>, i: int, j: int)
    requires 0 <= i < j < |w| && w[i] == w[j]
    ensures w[..j + 1][..i + 1] == w[..i + 1] && w[..j + 1][i..] == w[i..j + 1]
    ensures |w[..i + 1] + w[j..][1..]| < |w|
    ensures (w[..i + 1] + w[j..][1..])[|w[..i + 1] + w[j..][1..]| - 1] == w[|w| - 1]
    ensures (w[..i + 1] + w[j..][1..])[0] == w[0] && w[..i + 1][0] == w[0]
    ensures |w[i..j + 1]| == j - i + 1 && w[i..j + 1][0] == w[i..j + 1][|w[i..j + 1]| - 1] == w[..i + 1][|w[..i + 1]| - 1]
  {
    var s := w[..i + 1] + w[j..][1..];
    if j + 1 < |w| {
      assert s[|s| - 1] == w[j..][|w| - j - 1];
    }
  }

  /** Cutting a walk at one of its vertices gives two walks whose costs add
      up to the cost of the whole. */
  lemma WalkSplit(residual: array2<int>, cost: array2<int>, w: seq<int>, i: int)
    requires Square(residual, cost, residual.Length0) && Walk(residual, w) && 0 <= i < |w|
    ensures Walk(residual, w[..i + 1]) && Walk(residual, w[i..])
    ensures WalkCost(cost, w) == WalkCost(cost, w[..i + 1]) + WalkCost(cost, w[i..])
  {
    SubWalk(residual, w, 0, i + 1);
    SubWalk(residual, w, i, |w|);
    WalkAppend(residual, cost, w[..i + 1], w[i..]);
    Rejoin(w, i);
  }

  /** With no negative cycle in reach, any walk from the source can be cut
      down to one with at most `n` vertices, the same end and no higher
      cost. */
  lemma {:induction false} Shortcut(residual: array2<int>, cost: array2<int>, source: int, w: seq<int>)
    returns (s: seq<int>)
    requires Square(residual, cost, residual.Length0) && FromSource(residual, w, source)
    requires !ReachableNegativeCycle(residual, cost, source)
    ensures FromSource(residual, s, source) && s[|s| - 1] == w[|w| - 1]
    ensures |s| <= residual.Length0 && WalkCost(cost, s) <= WalkCost(cost, w)
    decreases |w|
  {
    if |w| <= residual.Length0 {
      s := w;
    } else {
      var shorter, p, c := SplitCycle(residual, cost, source, w);
      CycleNotNegative(residual, cost, source, p, c);
      s := Shortcut(residual, cost, source, shorter);
    }
  }

  /** A reachable negative cycle leaves some step relaxable: along a walk
      none of whose steps can be relaxed, the cycle would have to cost at
      least nothing. */
  lemma SettledHasNoNegativeCycle(residual: array2<int>, cost: array2<int>, source: int, dist: seq<ExtInt>)
    requires Square(residual, cost, |dist|) && 0 <= source < |dist| && Settled(residual, cost, dist) && dist[source].Finite?
    ensures !ReachableNegativeCycle(residual, cost, source)
  {
    forall p, c | FromSource(residual, p, source) && Walk(residual, c) && |c| >= 2 && c[0] == c[|c| - 1] && c[0] == p[|p| - 1]
      ensures WalkCost(cost, c) >= 0
    {
      SettledWalk(residual, cost, dist, p);
      SettledWalk(residual, cost, dist, c);
    }
  }

  /** After `bellman_ford`, a step that can still be relaxed reveals a
      negative cycle in reach of the source: the walk to `u` extended by
      the step beats every walk to `v` with at most `n` vertices, so it is
      longer, and without a negative cycle it could be cut short. */
  lemma RelaxableMeansNegativeCycle(residual: array2<int>, cost: array2<int>, source: int, dist: seq<ExtInt>,
                                    walks: seq<seq<int>>, u: int, v: int)
    requires Square(residual, cost, |dist|) && |walks| == |dist| && 0 <= source < |dist|
    requires Witnessed(residual, cost, source, dist, walks)
    requires forall w :: FromSource(residual, w, source) && |w| <= |dist| ==> AtMost(dist[w[|w| - 1]], Finite(WalkCost(cost, w)))
    requires 0 <= u < |dist| && 0 <= v < |dist| && Relaxable(residual, cost, dist, u, v)
    ensures ReachableNegativeCycle(residual, cost, source)
  {
    if !ReachableNegativeCycle(residual, cost, source) {
      WalkExtend(residual, cost, walks[u], v);
      var s := Shortcut(residual, cost, source, walks[u] + [v]);
      assert false;
    }
  }

  /** The check of `min_cost_flow` after `bellman_ford`: scan every step
      and report whether one can still be relaxed. */
  method HasRelaxableStep(residual: array2<int>, cost: array2<int>, dist: seq<ExtInt>) returns (found: bool)
    requires Square(residual, cost, |dist|)
    ensures found <==> !Settled(residual, cost, dist)
  {
    var n := |dist|;
    for u := 0 to n
      invariant forall x, y :: 0 <= x < u && 0 <= y < n ==> !Relaxable(residual, cost, dist, x, y)
    {
      for v := 0 to n
        invariant forall y :: 0 <= y < v ==> !Relaxable(residual, cost, dist, u, y)
      {
        if residual[u, v] > 0 && Less(Plus(dist[u], cost[u, v]), dist[v]) {
          assert Relaxable(residual, cost, dist, u, v);
          return true;
        }
      }
    }
    return false;
  }

  /** Once no step can be relaxed, the source is back at distance `0`: its
      witness walk is a closed walk whose cost is its distance, and a
      settled closed walk costs nothing negative. */
  lemma SourceAtZero(residual: array2<int>, cost: array2<int>, source: int, dist: seq<ExtInt>, pred: seq<int>,
                     walks: seq<seq<int>>)
    requires Square(residual, cost, |dist|) && |pred| == |dist| && |walks| == |dist| && 0 <= source < |dist|
    requires Lowered(source, dist, pred) && Witnessed(residual, cost, source, dist, walks) && Settled(residual, cost, dist)
    ensures dist[source] == Finite(0) && pred[source] == -1
  {
    SettledWalk(residual, cost, dist, walks[source]);
  }

  /** Every distance is the least cost of a residual walk from `source`:
      no walk from the source is cheaper than the distance of its end, and
      every finite distance is the cost of some walk. */
  ghost predicate Cheapest(residual: array2<int>, cost: array2<int>, source: int, dist: seq<ExtInt>)
    requires Square(residual, cost, |dist|)
    reads residual, cost
  {
    && (forall w :: FromSource(residual, w, source) ==> AtMost(dist[w[|w| - 1]], Finite(WalkCost(cost, w))))
    && (forall v :: 0 <= v < |dist| && dist[v].Finite? ==>
          exists w :: WalkTo(residual, w, source, v) && WalkCost(cost, w) == dist[v].value)
  }

  /** Settled, witnessed distances with the source at `0` are the
      cheapest ones. */
  lemma SettledIsCheapest(residual: array2<int>, cost: array2<int>, source: int, dist: seq<ExtInt>, walks: seq<seq<int>>)
    requires Square(residual, cost, |dist|) && |walks| == |dist| && 0 <= source < |dist| && dist[source] == Finite(0)
    requires Witnessed(residual, cost, source, dist, walks) && Settled(residual, cost, dist)
    ensures Cheapest(residual, cost, source, dist)
  {
    forall w | FromSource(residual, w, source)
      ensures AtMost(dist[w[|w| - 1]], Finite(WalkCost(cost, w)))
    {
      SettledWalk(residual, cost, dist, w);
    }
    forall v | 0 <= v < |dist| && dist[v].Finite?
      ensures exists w :: WalkTo(residual, w, source, v) && WalkCost(cost, w) == dist[v].value
    {
      assert WalkTo(residual, walks[v], source, v);
    }
  }

  /** The predecessors `min_cost_flow` follows back from the sink form a
      tree: every vertex other than the source with a finite distance has
      a predecessor (never `-1`) across a step with residual capacity,
      whose distance plus the step's cost is exactly its own, and which
      was stamped earlier. */
  ghost predicate PredTree(residual: array2<int>, cost: array2<int>, source: int, dist: seq<ExtInt>, pred: seq<int>,
                           stamp: seq<nat>)
    requires Square(residual, cost, |dist|) && |pred| == |dist| && |stamp| == |dist|
    reads residual, cost
  {
    forall v :: 0 <= v < |dist| && v != source && dist[v].Finite? ==>
      && 0 <= pred[v] < |dist| && residual[pred[v], v] > 0 && dist[pred[v]].Finite?
      && dist[pred[v]].value + cost[pred[v], v] == dist[v].value && stamp[pred[v]] < stamp[v]
  }

  /** After `bellman_ford`, with no step left to relax, the predecessors
      form a tree. */
  lemma SettledPredTree(residual: array2<int>, cost: array2<int>, source: int, dist: seq<ExtInt>, pred: seq<int>,
                        stamp: seq<nat>)
    requires Square(residual, cost, |dist|) && |pred| == |dist| && |stamp| == |dist| && 0 <= source < |dist|
    requires Lowered(source, dist, pred) && PredEdges(residual, cost, dist, pred, stamp) && Settled(residual, cost, dist)
    ensures PredTree(residual, cost, source, dist, pred, stamp)
  {
    forall v | 0 <= v < |dist| && v != source && dist[v].Finite?
      ensures 0 <= pred[v] < |dist| && dist[pred[v]].value + cost[pred[v], v] == dist[v].value
    {
      assert PredEdge(residual, cost, dist, stamp, pred[v], v);
      assert !Relaxable(residual, cost, dist, pred[v], v);
    }
  }

  /** The walk that following `pred` from `v` back to the source traces,
      listed from the source. */
  ghost function PredPath(residual: array2<int>, cost: array2<int>, source: int, dist: seq<ExtInt>, pred: seq<int>,
                          stamp: seq<nat>, v: int): (r: seq<int>)
    requires Square(residual, cost, |dist|) && |pred| == |dist| && |stamp| == |dist|
    requires PredTree(residual, cost, source, dist, pred, stamp) && 0 <= v < |dist| && dist[v].Finite?
    reads residual, cost
    decreases stamp[v]
  {
    if v == source then [source] else PredPath(residual, cost, source, dist, pred, stamp, pred[v]) + [v]
  }

  /** Following `pred` from `v` reaches the source, never meeting `-1`,
      along a residual walk whose cost is exactly the distance of `v`. */
  lemma {:induction false} PredPathFacts(residual: array2<int>, cost: array2<int>, source: int, dist: seq<ExtInt>,
                                         pred: seq<int>, stamp: seq<nat>, v: int)
    requires Square(residual, cost, |dist|) && |pred| == |dist| && |stamp| == |dist| && 0 <= source < |dist|
    requires PredTree(residual, cost, source, dist, pred, stamp) && dist[source] == Finite(0)
    requires 0 <= v < |dist| && dist[v].Finite?
    ensures ParentChain(pred, PredPath(residual, cost, source, dist, pred, stamp, v), source, v)
    ensures WalkTo(residual, PredPath(residual, cost, source, dist, pred, stamp, v), source, v)
    ensures WalkCost(cost, PredPath(residual, cost, source, dist, pred, stamp, v)) == dist[v].value
    decreases stamp[v]
  {
    if v != source {
      var u := pred[v];
      var p := PredPath(residual, cost, source, dist, pred, stamp, u);
      PredPathFacts(residual, cost, source, dist, pred, stamp, u);
      WalkExtend(residual, cost, p, v);
      var q := p + [v];
      forall i | 0 < i < |q|
        ensures q[i] != source && pred[q[i]] == q[i - 1]
      {
        if i < |p| {
          assert q[i] == p[i] && q[i - 1] == p[i - 1];
        }
      }
    }
  }

  /** What `min_cost_flow` relies on once no negative cycle was found:
      the source is at distance `0`, every distance is the least cost of a
      walk from the source, and the predecessors form a tree. */
  ghost predicate ShortestTree(residual: array2<int>, cost: array2<int>, dist: seq<ExtInt>, pred: seq<int>, stamp: seq<nat>)
    requires Square(residual, cost, |dist|) && |dist| >= 1 && |pred| == |dist| && |stamp| == |dist|
    reads residual, cost
  {
    dist[0] == Finite(0) && Cheapest(residual, cost, 0, dist) && PredTree(residual, cost, 0, dist, pred, stamp)
  }

  /** Lines 171-177 of `min_cost_flow`: run `bellman_ford` from vertex 0,
      then look for a step that can still be relaxed. One is found exactly
      when a negative cycle is in reach of the source; otherwise the
      distances are the cheapest walk costs and `pred` is a tree. */
  method CheapestPaths(g: Graphic) returns (dist: seq<ExtInt>, pred: seq<int>, negativeCycle: bool, ghost stamp: seq<nat>)
    requires g.Valid() && g.n >= 1 && g.cost != null
    ensures |dist| == g.n && |pred| == g.n && |stamp| == g.n
    ensures negativeCycle <==> ReachableNegativeCycle(g.residual, g.cost, 0)
    ensures !negativeCycle ==> ShortestTree(g.residual, g.cost, dist, pred, stamp)
  {
    ghost var walks;
    dist, pred, stamp, walks := BellmanFord(g.residual, g.cost, 0, g.n);
    negativeCycle := HasRelaxableStep(g.residual, g.cost, dist);
    if negativeCycle {
      var u, v :| 0 <= u < |dist| && 0 <= v < |dist| && Relaxable(g.residual, g.cost, dist, u, v);
      RelaxableMeansNegativeCycle(g.residual, g.cost, 0, dist, walks, u, v);
    } else {
      SourceAtZero(g.residual, g.cost, 0, dist, pred, walks);
      SettledHasNoNegativeCycle(g.residual, g.cost, 0, dist);
      SettledIsCheapest(g.residual, g.cost, 0, dist, walks);
      SettledPredTree(g.residual, g.cost, 0, dist, pred, stamp);
    }
  }

  /** With cheapest distances, a sink at infinite distance has no
      augmenting path. */
  lemma UnreachableSink(residual: array2<int>, cost: array2<int>, source: int, sink: int, dist: seq<ExtInt>)
    requires Square(residual, cost, |dist|) && 0 <= sink < |dist|
    requires Cheapest(residual, cost, source, dist) && dist[sink] == Infinity
    ensures !Augmentable(residual, source, sink)
  {
    forall path | AugmentingPath(residual, path, source, sink)
      ensures !FromSource(residual, path, source)
    {
    }
  }

  /** The `total_cost += path_flow * cost[u][v]` of `min_cost_flow`'s push
      loop, walking `pred` from `sink` back to `source`: the total grows by
      `d` times the cost of the walk. */
  method ChargeAlong(cost: array2<int>, pred: seq<int>, source: int, sink: int, d: int, total: int, ghost path: seq<int>)
    returns (total': int)
    requires ParentChain(pred, path, source, sink) && InRange(path, cost.Length0) && InRange(path, cost.Length1)
    ensures total' == total + d * WalkCost(cost, path)
  {
    total' := total;
    var v := sink;
    ghost var i := |path| - 1;
    assert path[..i + 1] == path;
    while v != source
      invariant 0 <= i < |path| && v == path[i]
      invariant total' + d * WalkCost(cost, path[..i + 1]) == total + d * WalkCost(cost, path)
      decreases i
    {
      var u := pred[v];
      assert u == path[i - 1];
      assert path[..i + 1][..i] == path[..i];
      total' := total' + d * cost[u, v];
      v := u;
      i := i - 1;
    }
  }

  /** What `min_cost_flow` keeps true between pushes: the flow invariants
      of `ford_fulkerson`, with the local `flow` counter equal to the net
      flow out of the source (when the sink is a different vertex). */
  ghost predicate Pushed(g: Graphic, flow: int)
    requires g.Valid() && g.n >= 1
    reads g, g.capacity, g.residual, g.flow
  {
    && Augmented(g, 0, g.n - 1, g.NetOut(0))
    && (g.n >= 2 ==> flow == g.NetOut(0))
    && 0 <= flow
  }

  /** Lines 184-211 of `min_cost_flow`, once a cheapest walk to the sink
      is known: take the bottleneck along `pred`, clip it to what the
      target still needs, push it and charge it. At least one unit moves,
      the target is not overshot, the amount is the bottleneck of the
      walk `pred` traces clipped to what the target still needs, every cell
      moves by what that walk pushes through it, the invariants hold with
      the counter grown by the amount pushed, and the charge is that amount
      times the least cost of a walk to the sink. */
  method AugmentCheapest(g: Graphic, dist: seq<ExtInt>, pred: seq<int>, ghost stamp: seq<nat>,
                         flow: int, target: int, total: int)
    returns (pushed: int, total': int, ghost path: seq<int>)
    requires g.Valid() && g.n >= 1 && g.cost != null && Pushed(g, flow) && flow < target
    requires |dist| == g.n && |pred| == g.n && |stamp| == g.n && dist[g.n - 1].Finite?
    requires ShortestTree(g.residual, g.cost, dist, pred, stamp)
    modifies g.residual, g.flow
    ensures ParentChain(pred, path, 0, g.n - 1) && InRange(path, g.n)
    ensures old(Min(PathMin(g.residual, path), Finite(target - flow))) == Finite(pushed)
    ensures forall x, y {:trigger Shift(path, pushed, x, y)} :: 0 <= x < g.n && 0 <= y < g.n ==>
              g.residual[x, y] == old(g.residual[x, y]) - Shift(path, pushed, x, y) &&
              g.flow[x, y] == old(g.flow[x, y]) + Shift(path, pushed, x, y)
    ensures Pushed(g, flow + pushed) && 1 <= pushed <= target - flow
    ensures total' == total + pushed * dist[g.n - 1].value
  {
    pushed, path := ClippedFlow(g.residual, g.cost, dist, pred, stamp, target - flow);
    total' := ChargeAlong(g.cost, pred, 0, g.n - 1, pushed, total, path);
    PushAlong(g, pred, path, flow, pushed);
  }

  /** Lines 184-195 of `min_cost_flow`: the bottleneck of the residual
      capacities along `pred` from the sink back to the source (infinite
      when the sink is the source), clipped to the `remaining` part of the
      target. The chain followed is a cheapest walk to the sink, and the
      amount is the smaller of its bottleneck and `remaining`: at least one
      unit, at most `remaining`, and fitting every step of the walk. */
  method ClippedFlow(residual: array2<int>, cost: array2<int>, dist: seq<ExtInt>, pred: seq<int>, ghost stamp: seq<nat>,
                     remaining: int)
    returns (d: int, ghost path: seq<int>)
    requires |dist| >= 1 && Square(residual, cost, |dist|) && |pred| == |dist| && |stamp| == |dist| && remaining >= 1
    requires dist[0] == Finite(0) && dist[|dist| - 1].Finite? && PredTree(residual, cost, 0, dist, pred, stamp)
    ensures 1 <= d <= remaining
    ensures InRange(path, |dist|) && Min(PathMin(residual, path), Finite(remaining)) == Finite(d)
    ensures ParentChain(pred, path, 0, |dist| - 1) && WalkTo(residual, path, 0, |dist| - 1) && FitsPath(residual, path, d)
    ensures WalkCost(cost, path) == dist[|dist| - 1].value
  {
    var source, sink := 0, |dist| - 1;
    path := PredPath(residual, cost, source, dist, pred, stamp, sink);
    PredPathFacts(residual, cost, source, dist, pred, stamp, sink);
    var pathFlow;
    ghost var step;
    pathFlow, step := GetPathFlow(residual, pred, source, sink, path);
    pathFlow := Min(pathFlow, Finite(remaining));
    d := pathFlow.value;
  }

  /** The residual and flow updates of `min_cost_flow`'s push loop: `d`
      units along a predecessor chain from the source to the sink on
      which every step has room for them move every cell by what the chain
      pushes through it and keep the invariants, with the counter grown by
      `d`. */
  method PushAlong(g: Graphic, pred: seq<int>, ghost path: seq<int>, flow: int, d: int)
    requires g.Valid() && g.n >= 1 && Pushed(g, flow) && d >= 0
    requires ParentChain(pred, path, 0, g.n - 1) && FitsPath(g.residual, path, d)
    modifies g.residual, g.flow
    ensures forall x, y {:trigger Shift(path, d, x, y)} :: 0 <= x < g.n && 0 <= y < g.n ==>
              g.residual[x, y] == old(g.residual[x, y]) - Shift(path, d, x, y) &&
              g.flow[x, y] == old(g.flow[x, y]) + Shift(path, d, x, y)
    ensures Pushed(g, flow + d)
  {
    UpdateResidualAndFlow(g, pred, 0, g.n - 1, d, path);
    PushedFrom(g, flow + d);
  }

  /** The flow invariants, and a source that sends out a non-negative net
      flow equal to the counter, make up `Pushed`: the bound by the
      source's capacity follows. */
  lemma PushedFrom(g: Graphic, flow: int)
    requires g.Valid() && g.n >= 1
    requires g.ResidualIsSlack() && g.Antisymmetric() && g.NonNegativeResiduals() && g.Conserving(0, g.n - 1)
    requires 0 <= g.NetOut(0) && (g.n >= 2 ==> flow == g.NetOut(0)) && 0 <= flow
    ensures Pushed(g, flow)
  {
    NetOutWithinCapacity(g, 0);
  }

  /** What `min_cost_flow` ends with: the total cost, `None` when the
      target cannot be reached, or the `ValueError` it raises on a
      negative cycle. */
  datatype Outcome = TotalCost(total: int) | Unreachable | NegativeCycle

  /** `min_cost_flow`: from vertex 0 to vertex `n - 1`, push flow along
      cheapest residual walks until `target` units have moved. Starting
      from the loaded graph, the flow invariants hold at the end; a total
      cost means the target (or nothing, for a target of at most `0`) has
      left the source; `None` means less has and no augmenting path is
      left; and the error means a negative cycle is in reach of the
      source. */
  method MinCostFlow(g: Graphic, target: int) returns (r: Outcome)
    requires g.Valid() && g.n >= 1 && g.cost != null && g.Pristine() && g.NonNegativeCapacities()
    modifies g.residual, g.flow
    ensures Augmented(g, 0, g.n - 1, g.NetOut(0))
    ensures r.TotalCost? && g.n >= 2 ==> g.NetOut(0) == if target > 0 then target else 0
    ensures r.Unreachable? ==> g.n >= 2 && 0 <= g.NetOut(0) < target && !Augmentable(g.residual, 0, g.n - 1)
    ensures r.NegativeCycle? ==> ReachableNegativeCycle(g.residual, g.cost, 0)
  {
    var source, sink := 0, g.n - 1;
    var total := 0;
    var flow := 0;
    PristineIsAugmented(g, source, sink);
    while flow < target
      invariant g.Valid() && Pushed(g, flow) && (flow == 0 || flow <= target)
      decreases target - flow
    {
      var dist, pred, negativeCycle;
      ghost var stamp;
      dist, pred, negativeCycle, stamp := CheapestPaths(g);
      if negativeCycle {
        return NegativeCycle;
      }
      if dist[sink] == Infinity {
        UnreachableSink(g.residual, g.cost, source, sink, dist);
        break;
      }
      var pathFlow;
      ghost var path;
      pathFlow, total, path := AugmentCheapest(g, dist, pred, stamp, flow, target, total);
      flow := flow + pathFlow;
    }
    if flow < target {
      r := Unreachable;
    } else {
      r := TotalCost(total);
    }
  }
}
