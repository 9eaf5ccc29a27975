/** The generic push-relabel engine of `push_relabel`: a preflow pushed
    out of vertex 0, then discharged vertex by vertex until only vertex 0
    and vertex `n - 1` hold excess. It works on `capacity - flow` and never
    reads or writes `residual`. */
module PushRelabel {
  import opened Extended
  import opened Sums
  import opened Graph
  import opened Paths

  datatype Option<T> = None | Some(value: T)

  /** No cell carries more flow than its capacity. */
  ghost predicate WithinCapacity(g: Graphic)
    requires g.Valid()
    reads g, g.capacity, g.flow
  {
    forall x, y :: 0 <= x < g.n && 0 <= y < g.n ==> g.flow[x, y] <= g.capacity[x, y]
  }

  /** Flow is antisymmetric on every pair of cells except the source's own
      loop `(0, 0)`. */
  ghost predicate SkewAwayFromLoop(g: Graphic)
    requires g.Valid()
    reads g, g.flow
  {
    forall x, y :: 0 <= x < g.n && 0 <= y < g.n && (x != 0 || y != 0) ==> g.flow[x, y] == -g.flow[y, x]
  }

  /** Each excess is the flow entering its vertex (for the source, not
      counting its own loop). */
  ghost predicate ExcessIsInflow(g: Graphic, excess: array<int>)
    requires g.Valid()
    reads g, g.flow, excess
  {
    && excess.Length == g.n
    && forall u :: 0 <= u < g.n ==> excess[u] == Sum(Column(g.flow, u)) - (if u == 0 then g.flow[0, 0] else 0)
  }

  /** The preflow invariant, with vertex 0 as the source: no cell carries
      more than its capacity, flow is antisymmetric away from the source's
      loop, every vertex but the source holds a non-negative excess, each
      excess is the flow entering the vertex, and the excesses sum to
      zero. */
  ghost predicate Preflow(g: Graphic, excess: array<int>)
    requires g.Valid()
    reads g, g.capacity, g.flow, excess
  {
    && excess.Length == g.n >= 1
    && WithinCapacity(g)
    && SkewAwayFromLoop(g)
    && (forall u :: 0 < u < g.n ==> excess[u] >= 0)
    && ExcessIsInflow(g, excess)
    && Sum(excess[..]) == 0
  }

  /** What a push from `u` to `v` does, from the earlier state to the
      later one: a positive amount leaves `excess[u]` and reaches
      `excess[v]`, it moves from `flow[v][u]` to `flow[u][v]`, it either
      empties `u` or saturates the cell, and no other flow cell and no
      other excess changes. */
  twostate predicate PushEffect(g: Graphic, excess: array<int>, u: int, v: int)
    requires g.Valid() && unchanged(g) && excess.Length == g.n && 0 <= u < g.n && 0 <= v < g.n
    reads g, g.capacity, g.flow, excess
  {
    var delta := old(excess[u]) - excess[u];
    && 0 < delta == g.flow[u, v] - old(g.flow[u, v])
    && (excess[u] == 0 || g.flow[u, v] == g.capacity[u, v])
    && g.flow[v, u] == old(g.flow[v, u]) - delta
    && excess[v] == old(excess[v]) + delta
    && (forall x, y :: 0 <= x < g.n && 0 <= y < g.n && !(x == u && y == v) && !(x == v && y == u) ==> g.flow[x, y] == old(g.flow[x, y]))
    && (forall x :: 0 <= x < g.n && x != u && x != v ==> excess[x] == old(excess[x]))
  }

  /** From the earlier state to the later one, no flow cell and no excess
      changed. */
  twostate predicate FlowKept(g: Graphic, excess: array<int>)
    requires g.Valid() && unchanged(g) && excess.Length == g.n
    reads g, g.flow, excess
  {
    && excess[..] == old(excess[..])
    && forall x, y :: 0 <= x < g.n && 0 <= y < g.n ==> g.flow[x, y] == old(g.flow[x, y])
  }

  /** `push(u, v)`: move `delta = min(excess[u], capacity[u][v] -
      flow[u][v])` units from `u` to `v`, with the effect `PushEffect`
      states; the preflow invariant survives it. */
  method Push(g: Graphic, excess: array<int>, u: int, v: int)
    requires g.Valid() && Preflow(g, excess)
    requires 0 < u < g.n && 0 <= v < g.n && u != v
    requires excess[u] > 0 && g.capacity[u, v] > g.flow[u, v]
    modifies g.flow, excess
    ensures Preflow(g, excess) && PushEffect(g, excess, u, v)
  {
    var slack := g.capacity[u, v] - g.flow[u, v];
    var delta := if slack < excess[u] then slack else excess[u];
    MoveFlow(g, excess, u, v, delta);
    MoveExcess(g, excess, u, v, delta);
  }

  /** Every excess, once `delta` more has reached `v` and `delta` less has
      reached `u`, is the flow entering its vertex: the state between the
      two halves of a push. */
  ghost predicate InflowAhead(g: Graphic, excess: array<int>, u: int, v: int, delta: int)
    requires g.Valid()
    reads g, g.flow, excess
  {
    && excess.Length == g.n
    && forall x :: 0 <= x < g.n ==>
         excess[x] + (if x == v then delta else 0) - (if x == u then delta else 0) ==
         Sum(Column(g.flow, x)) - (if x == 0 then g.flow[0, 0] else 0)
  }

  /** The flow half of a push: `flow[u][v] += delta` and `flow[v][u] -=
      delta`. Within the slack of the cell, the capacity bounds and the
      antisymmetry survive, no other cell changes, and the flow entering
      `v` grows by `delta` while the flow entering `u` shrinks by it, so
      the excesses are `delta` behind on both. */
  method MoveFlow(g: Graphic, excess: array<int>, u: int, v: int, delta: int)
    requires g.Valid() && ExcessIsInflow(g, excess) && 0 <= u < g.n && 0 <= v < g.n && u != v
    requires 0 <= delta <= g.capacity[u, v] - g.flow[u, v]
    modifies g.flow
    ensures g.flow[u, v] == old(g.flow[u, v]) + delta && g.flow[v, u] == old(g.flow[v, u]) - delta
    ensures forall x, y :: 0 <= x < g.n && 0 <= y < g.n && !(x == u && y == v) && !(x == v && y == u) ==> g.flow[x, y] == old(g.flow[x, y])
    ensures old(WithinCapacity(g)) ==> WithinCapacity(g)
    ensures old(SkewAwayFromLoop(g)) ==> SkewAwayFromLoop(g)
    ensures InflowAhead(g, excess, u, v, delta)
  {
    ShiftFlow(g, u, v, delta);
  }

  /** `flow[u][v] += delta` and `flow[v][u] -= delta`: no other cell
      changes, and the flow entering `v` grows by `delta` while the flow
      entering `u` shrinks by it. */
  method ShiftFlow(g: Graphic, u: int, v: int, delta: int)
    requires g.Valid() && 0 <= u < g.n && 0 <= v < g.n && u != v
    modifies g.flow
    ensures g.flow[u, v] == old(g.flow[u, v]) + delta && g.flow[v, u] == old(g.flow[v, u]) - delta
    ensures forall x, y :: 0 <= x < g.n && 0 <= y < g.n && !(x == u && y == v) && !(x == v && y == u) ==> g.flow[x, y] == old(g.flow[x, y])
    ensures forall y :: 0 <= y < g.n ==>
      Sum(Column(g.flow, y)) == old(Sum(Column(g.flow, y))) + (if y == v then delta else 0) - (if y == u then delta else 0)
  {
    g.flow[u, v] := g.flow[u, v] + delta;
    g.flow[v, u] := g.flow[v, u] - delta;
    forall y | 0 <= y < g.n
      ensures Sum(Column(g.flow, y)) == old(Sum(Column(g.flow, y))) + (if y == v then delta else 0) - (if y == u then delta else 0)
    {
      var before := old(Column(g.flow, y));
      var after := Column(g.flow, y);
      if y == v {
        assert after == before[u := before[u] + delta];
        SumUpdate(before, u, before[u] + delta);
      } else if y == u {
        assert after == before[v := before[v] - delta];
        SumUpdate(before, v, before[v] - delta);
      } else {
        assert after == before;
      }
    }
  }

  /** The excess half of a push: `excess[u] -= delta` and `excess[v] +=
      delta`. It keeps the total, and it brings the excesses level with the
      flow the first half moved; taking no more than `u` holds keeps every
      excess but the source's non-negative. */
  method MoveExcess(g: Graphic, excess: array<int>, u: int, v: int, delta: int)
    requires g.Valid() && InflowAhead(g, excess, u, v, delta) && 0 <= u < g.n && 0 <= v < g.n && u != v
    requires 0 <= delta && (u != 0 ==> delta <= excess[u])
    requires forall x :: 0 < x < g.n ==> excess[x] >= 0
    modifies excess
    ensures excess[u] == old(excess[u]) - delta && excess[v] == old(excess[v]) + delta
    ensures forall x :: 0 <= x < g.n && x != u && x != v ==> excess[x] == old(excess[x])
    ensures Sum(excess[..]) == old(Sum(excess[..]))
    ensures ExcessIsInflow(g, excess)
    ensures forall x :: 0 < x < g.n ==> excess[x] >= 0
  {
    ShiftExcess(excess, u, v, delta);
  }

  /** `excess[u] -= delta` and `excess[v] += delta`: the total excess is
      unchanged. */
  method ShiftExcess(excess: array<int>, u: int, v: int, delta: int)
    requires 0 <= u < excess.Length && 0 <= v < excess.Length && u != v
    modifies excess
    ensures excess[..] == old(excess[..])[u := old(excess[u]) - delta][v := old(excess[v]) + delta]
    ensures Sum(excess[..]) == old(Sum(excess[..]))
  {
    excess[u] := excess[u] - delta;
    excess[v] := excess[v] + delta;
    assert excess[..] == old(excess[..])[u := old(excess[u]) - delta][v := old(excess[v]) + delta];
    MoveKeepsSum(old(excess[..]), u, v, delta);
  }

  /** Moving `delta` from one entry to another keeps the total. */
  lemma {:induction false} MoveKeepsSum(s: seq<int>, u: int, v: int, delta: int)
    requires 0 <= u < |s| && 0 <= v < |s| && u != v
    ensures Sum(s[u := s[u] - delta][v := s[v] + delta]) == Sum(s)
  {
    var t := s[u := s[u] - delta];
    SumUpdate(s, u, s[u] - delta);
    SumUpdate(t, v, s[v] + delta);
  }

  /** The flow the initialisation leaves on cell `(x, y)`, given the
      capacities `caps` of the source's edges: every source edge of
      positive capacity saturated, its reverse cell at minus that
      capacity, and the source's own loop, which is written twice, left at
      minus its capacity. */
  function InitialFlow(caps: seq<int>, x: int, y: int): (r: int)
    requires 0 <= x < |caps| && 0 <= y < |caps|
  {
    if x == 0 && caps[y] > 0 then (if y == 0 then -caps[0] else caps[y])
    else if y == 0 && caps[x] > 0 then -caps[x]
    else 0
  }

  /** `caps` lists the capacities of the source's edges. */
  ghost predicate SourceRow(g: Graphic, caps: seq<int>)
    requires g.Valid()
    reads g, g.capacity
  {
    |caps| == g.n && forall w :: 0 <= w < g.n ==> caps[w] == g.capacity[0, w]
  }

  /** With non-negative capacities the initial flow is within capacity and
      antisymmetric away from the source's loop. */
  lemma InitialFlowFits(g: Graphic, caps: seq<int>)
    requires g.Valid() && g.NonNegativeCapacities() && SourceRow(g, caps)
    requires forall x, y :: 0 <= x < g.n && 0 <= y < g.n ==> g.flow[x, y] == InitialFlow(caps, x, y)
    ensures WithinCapacity(g) && SkewAwayFromLoop(g)
  {
  }

  /** The capacities of the source edges to the vertices strictly between
      `0` and `v`, zero for every other vertex: what the source has sent
      once the initialisation has visited the vertices below `v`. */
  function SourceCapacities(caps: seq<int>, v: int): (r: seq<int>)
    ensures |r| == |caps|
    ensures forall w :: 0 <= w < |caps| ==> r[w] == if 0 < w < v then caps[w] else 0
  {
    seq(|caps|, w requires 0 <= w < |caps| => if 0 < w < v then caps[w] else 0)
  }

  /** Visiting vertex `v` adds its source capacity to what the source has
      sent, unless `v` is the source itself. */
  lemma {:induction false} SourceCapacitiesStep(caps: seq<int>, v: int)
    requires 0 <= v < |caps|
    ensures Sum(SourceCapacities(caps, v + 1)) == Sum(SourceCapacities(caps, v)) + (if v > 0 then caps[v] else 0)
  {
    var before := SourceCapacities(caps, v);
    if v > 0 {
      assert SourceCapacities(caps, v + 1) == before[v := caps[v]];
      SumUpdate(before, v, caps[v]);
    } else {
      assert SourceCapacities(caps, v + 1) == before;
    }
  }

  /** The flow is `InitialFlow` on the source edges to the vertices below
      `v` and on their reverse cells, and zero everywhere else. */
  ghost predicate CellsInitialisedBelow(g: Graphic, caps: seq<int>, v: int)
    requires g.Valid() && |caps| == g.n
    reads g, g.flow
  {
    forall x, y :: 0 <= x < g.n && 0 <= y < g.n ==>
      g.flow[x, y] == if (x == 0 && y < v) || (y == 0 && x < v) then InitialFlow(caps, x, y) else 0
  }

  /** The state after the initialisation has visited the source edges to
      the vertices below `v`: the flow is `InitialFlow` on the cells of
      those edges and zero elsewhere, every vertex below `v` (the source
      aside) holds what the source sent it, and the source holds minus all
      of that. */
  ghost predicate InitialisedBelow(g: Graphic, excess: array<int>, caps: seq<int>, v: int)
    requires g.Valid()
    reads g, g.flow, excess
  {
    && excess.Length == g.n == |caps| >= 1
    && 0 <= v <= g.n
    && CellsInitialisedBelow(g, caps, v)
    && (forall x :: 0 < x < g.n ==> excess[x] == if x < v then caps[x] else 0)
    && excess[0] == -Sum(SourceCapacities(caps, v))
  }

  /** The preflow initialisation: saturate every source edge of positive
      capacity, mirror it on the reverse cell, credit its head with the
      capacity and debit the source. It leaves exactly `InitialFlow`, every
      other vertex holding what the source sent it, and a preflow. */
  method InitPreflow(g: Graphic, excess: array<int>)
    requires g.Valid() && g.n >= 1 && g.ZeroFlow() && g.NonNegativeCapacities()
    requires excess.Length == g.n && forall x :: 0 <= x < g.n ==> excess[x] == 0
    modifies g.flow, excess
    ensures Preflow(g, excess)
    ensures forall x, y :: 0 <= x < g.n && 0 <= y < g.n ==> g.flow[x, y] == InitialFlow(Row(g.capacity, 0), x, y)
    ensures forall x :: 0 < x < g.n ==> excess[x] == g.capacity[0, x]
  {
    ghost var caps := Row(g.capacity, 0);
    NothingInitialised(g, excess, caps);
    for v := 0 to g.n
      invariant InitialisedBelow(g, excess, caps, v)
    {
      SaturateSourceEdge(g, excess, caps, v);
    }
    AllInitialised(g, excess, caps);
  }

  /** Before the first round, nothing is initialised yet. */
  lemma NothingInitialised(g: Graphic, excess: array<int>, caps: seq<int>)
    requires g.Valid() && g.n >= 1 && g.ZeroFlow() && |caps| == g.n
    requires excess.Length == g.n && forall x :: 0 <= x < g.n ==> excess[x] == 0
    ensures InitialisedBelow(g, excess, caps, 0)
  {
    SumZero(SourceCapacities(caps, 0));
  }

  /** One round of the initialisation, for the source edge to `v`: when its
      capacity is positive, the cells `(0, v)` and `(v, 0)` take their
      initial flow, `v` is credited and the source debited. */
  method SaturateSourceEdge(g: Graphic, excess: array<int>, ghost caps: seq<int>, v: int)
    requires g.Valid() && g.NonNegativeCapacities() && SourceRow(g, caps) && InitialisedBelow(g, excess, caps, v) && v < g.n
    modifies g.flow, excess
    ensures InitialisedBelow(g, excess, caps, v + 1)
  {
    if g.capacity[0, v] > 0 {
      SaturateEdge(g, excess, caps, v);
    } else {
      EdgeLeftEmpty(g, excess, caps, v);
    }
  }

  /** The body of an initialisation round whose source edge has positive
      capacity: `flow[0][v] = capacity[0][v]`, `flow[v][0] = -flow[0][v]`,
      `excess[v] = capacity[0][v]`, `excess[0] -= capacity[0][v]`. */
  method SaturateEdge(g: Graphic, excess: array<int>, ghost caps: seq<int>, v: int)
    requires g.Valid() && SourceRow(g, caps) && InitialisedBelow(g, excess, caps, v) && v < g.n && caps[v] > 0
    modifies g.flow, excess
    ensures InitialisedBelow(g, excess, caps, v + 1)
  {
    SourceCapacitiesStep(caps, v);
    g.flow[0, v] := g.capacity[0, v];
    g.flow[v, 0] := -g.flow[0, v];
    excess[v] := g.capacity[0, v];
    excess[0] := excess[0] - g.capacity[0, v];
    if v == 0 {
      // The source's own loop: it is credited and debited the same amount.
      SumZero(SourceCapacities(caps, 0));
    }
  }

  /** A source edge with no capacity is skipped: the initialised region
      moves on with nothing written. */
  lemma EdgeLeftEmpty(g: Graphic, excess: array<int>, caps: seq<int>, v: int)
    requires g.Valid() && InitialisedBelow(g, excess, caps, v) && v < g.n
    requires caps[v] == 0
    ensures InitialisedBelow(g, excess, caps, v + 1)
  {
    SourceCapacitiesStep(caps, v);
  }

  /** After the last round, every cell holds its initial flow, every vertex
      but the source holds the capacity of its source edge, and the result
      is a preflow. */
  lemma AllInitialised(g: Graphic, excess: array<int>, caps: seq<int>)
    requires g.Valid() && g.n >= 1 && g.NonNegativeCapacities() && SourceRow(g, caps)
    requires InitialisedBelow(g, excess, caps, g.n)
    ensures Preflow(g, excess)
    ensures forall x, y :: 0 <= x < g.n && 0 <= y < g.n ==> g.flow[x, y] == InitialFlow(caps, x, y)
    ensures forall x :: 0 < x < g.n ==> excess[x] == g.capacity[0, x]
  {
    InitialFlowFits(g, caps);
    InitialInflow(g, caps);
    var sent := SourceCapacities(caps, g.n);
    assert excess[..] == sent[0 := -Sum(sent)];
    SumUpdate(sent, 0, -Sum(sent));
  }

  /** Under the initial flow, each vertex other than the source receives
      the capacity of its source edge, and the source receives (its loop
      aside) minus everything it sent. */
  lemma InitialInflow(g: Graphic, caps: seq<int>)
    requires g.Valid() && g.n >= 1 && |caps| == g.n && forall w :: 0 <= w < g.n ==> caps[w] >= 0
    requires forall x, y :: 0 <= x < g.n && 0 <= y < g.n ==> g.flow[x, y] == InitialFlow(caps, x, y)
    ensures forall u :: 0 < u < g.n ==> Sum(Column(g.flow, u)) == caps[u]
    ensures Sum(Column(g.flow, 0)) - g.flow[0, 0] == -Sum(SourceCapacities(caps, g.n))
  {
    forall u | 0 < u < g.n
      ensures Sum(Column(g.flow, u)) == caps[u]
    {
      SumSingle(Column(g.flow, u), 0);
    }
    var loop := g.flow[0, 0];
    var single := seq(g.n, i requires 0 <= i < g.n => if i == 0 then loop else 0);
    SumSingle(single, 0);
    SumPointwise(Column(g.flow, 0), SourceCapacities(caps, g.n), single);
  }

  /** The lowest height among the vertices `w < k` that `u` still has
      residual capacity to (`capacity[u][w] > flow[u][w]`), or infinity
      when there is none: the minimum `relabel` folds up, in its order. */
  ghost function LowestNeighbour(g: Graphic, height: seq<ExtInt>, u: int, k: int): (r: ExtInt)
    requires g.Valid() && |height| == g.n && 0 <= u < g.n && 0 <= k <= g.n
    reads g, g.capacity, g.flow
    decreases k
  {
    if k == 0 then Infinity
    else
      var lowest := LowestNeighbour(g, height, u, k - 1);
      if g.capacity[u, k - 1] > g.flow[u, k - 1] then Min(lowest, height[k - 1]) else lowest
  }

  /** `LowestNeighbour` is the minimum it is named for: it is no higher
      than any residual neighbour, and it is the height of one of them, or
      infinity exactly when there is none. */
  lemma {:induction false} LowestNeighbourIsMinimum(g: Graphic, height: seq<ExtInt>, u: int, k: int)
    requires g.Valid() && |height| == g.n && 0 <= u < g.n && 0 <= k <= g.n
    ensures forall w :: 0 <= w < k && g.capacity[u, w] > g.flow[u, w] ==> AtMost(LowestNeighbour(g, height, u, k), height[w])
    ensures (exists w :: 0 <= w < k && g.capacity[u, w] > g.flow[u, w] && LowestNeighbour(g, height, u, k) == height[w])
            || (LowestNeighbour(g, height, u, k) == Infinity && forall w :: 0 <= w < k ==> g.capacity[u, w] <= g.flow[u, w])
    decreases k
  {
    if k > 0 {
      LowestNeighbourIsMinimum(g, height, u, k - 1);
    }
  }

  /** `relabel(u)`: set the height of `u` to one more than the lowest
      residual neighbour (infinity stays infinity); no other height
      changes. */
  method Relabel(g: Graphic, height: array<ExtInt>, u: int)
    requires g.Valid() && height.Length == g.n && 0 <= u < g.n
    modifies height
    ensures height[u] == Plus(LowestNeighbour(g, old(height[..]), u, g.n), 1)
    ensures forall x :: 0 <= x < g.n && x != u ==> height[x] == old(height[x])
  {
    var lowest := Infinity;
    for w := 0 to g.n
      invariant lowest == LowestNeighbour(g, height[..], u, w)
    {
      if g.capacity[u, w] > g.flow[u, w] {
        lowest := Min(lowest, height[w]);
      }
    }
    height[u] := Plus(lowest, 1);
  }

  /** A vertex other than the source that holds excess in a preflow has
      somewhere to send it: some cell of its row has residual capacity.
      (Flow enters it on some cell, and the reverse of that cell carries
      negative flow.) */
  lemma ExcessHasResidualNeighbour(g: Graphic, excess: array<int>, u: int) returns (w: int)
    requires g.Valid() && Preflow(g, excess) && g.NonNegativeCapacities()
    requires 0 < u < g.n && excess[u] > 0
    ensures 0 <= w < g.n && g.capacity[u, w] > g.flow[u, w]
  {
    w := PositiveEntry(Column(g.flow, u));
  }

  /** Every height is an integer (relabelling never meets the infinite
      case) and the source stays at height `n`. */
  ghost predicate FiniteHeights(height: array<ExtInt>, n: nat)
    reads height
  {
    height.Length == n >= 1 && height[0] == Finite(n) && forall x :: 0 <= x < n ==> height[x].Finite?
  }

  /** What every phase of the main loop keeps: a preflow, a valid
      labelling and counters in range, in three separate arrays. */
  ghost predicate Discharging(g: Graphic, height: array<ExtInt>, excess: array<int>, seen: array<int>)
    requires g.Valid()
    reads g, g.capacity, g.flow, height, excess, seen
  {
    Preflow(g, excess) && Labelling(g, height) && SeenInRange(seen, g.n) && seen != excess
  }

  /** Every `seen` counter lies between `0` and `n`. */
  ghost predicate SeenInRange(seen: array<int>, n: nat)
    reads seen
  {
    seen.Length == n && forall x :: 0 <= x < n ==> 0 <= seen[x] <= n
  }

  /** A valid labelling: every height is an integer and no cell with room
      for more flow leads more than one level down. */
  ghost predicate ValidLabels(g: Graphic, h: seq<ExtInt>)
    requires g.Valid()
    reads g, g.capacity, g.flow
  {
    && |h| == g.n
    && (forall x :: 0 <= x < g.n ==> h[x].Finite?)
    && forall x, y :: 0 <= x < g.n && 0 <= y < g.n && g.capacity[x, y] > g.flow[x, y] ==> h[x].value <= h[y].value + 1
  }

  /** The heights `push_relabel` keeps: finite, the source at `n`, the sink
      (when it is not the source) at `0`, and a valid labelling. */
  ghost predicate Labelling(g: Graphic, height: array<ExtInt>)
    requires g.Valid()
    reads g, g.capacity, g.flow, height
  {
    && FiniteHeights(height, g.n)
    && (g.n >= 2 ==> height[g.n - 1] == Finite(0))
    && ValidLabels(g, height[..])
  }

  /** The heights after the initialisation (`n` at the source, `0`
      elsewhere) are a valid labelling of the initial preflow: the only cell
      out of the source with room left is its own loop. */
  lemma StartLabelling(g: Graphic, h: seq<ExtInt>)
    requires g.Valid() && g.n >= 1 && g.NonNegativeCapacities()
    requires forall x, y :: 0 <= x < g.n && 0 <= y < g.n ==> g.flow[x, y] == InitialFlow(Row(g.capacity, 0), x, y)
    requires |h| == g.n && h[0] == Finite(g.n) && forall x :: 0 < x < g.n ==> h[x] == Finite(0)
    ensures ValidLabels(g, h)
  {
  }

  /** Relabelling `u` to one above its lowest residual neighbour, when that
      is finite, never lowers `u` and keeps the labelling valid. */
  lemma RelabelKeepsLabels(g: Graphic, h: seq<ExtInt>, u: int)
    requires g.Valid() && ValidLabels(g, h) && 0 <= u < g.n
    requires Plus(LowestNeighbour(g, h, u, g.n), 1).Finite?
    ensures h[u].value <= Plus(LowestNeighbour(g, h, u, g.n), 1).value
    ensures ValidLabels(g, h[u := Plus(LowestNeighbour(g, h, u, g.n), 1)])
  {
    var lowest := LowestNeighbour(g, h, u, g.n);
    LowestNeighbourIsMinimum(g, h, u, g.n);
    var w :| 0 <= w < g.n && g.capacity[u, w] > g.flow[u, w] && lowest == h[w];
    var h' := h[u := Plus(lowest, 1)];
    forall x, y | 0 <= x < g.n && 0 <= y < g.n && g.capacity[x, y] > g.flow[x, y]
      ensures h'[x].value <= h'[y].value + 1
    {
      if x == u && y != u {
        assert AtMost(lowest, h[y]);
      }
    }
  }

  /** Along a walk through cells with room for more flow, a valid labelling
      drops by at most one level per step. */
  lemma {:induction false} HeightDrop(g: Graphic, h: seq<ExtInt>, p: seq<int>)
    requires g.Valid() && ValidLabels(g, h) && |p| >= 1 && InRange(p, g.n)
    requires forall i :: 0 <= i < |p| - 1 ==> g.capacity[p[i], p[i + 1]] > g.flow[p[i], p[i + 1]]
    ensures h[p[0]].value <= h[p[|p| - 1]].value + |p| - 1
    decreases |p|
  {
    if |p| >= 2 {
      HeightDrop(g, h, p[1..]);
    }
  }

  /** A walk from the source to the sink through cells with room for more
      flow: an augmenting path of the flow `push_relabel` leaves. */
  ghost predicate SlackPath(g: Graphic, p: seq<int>)
    requires g.Valid()
    reads g, g.capacity, g.flow
  {
    && |p| >= 1 && p[0] == 0 && p[|p| - 1] == g.n - 1 && InRange(p, g.n)
    && forall i :: 0 <= i < |p| - 1 ==> g.capacity[p[i], p[i + 1]] > g.flow[p[i], p[i + 1]]
  }

  /** With the source at height `n` and the sink at `0`, a valid labelling
      leaves no walk from the source to the sink through cells with room:
      a repeat-free one has at most `n` vertices, so it drops at most
      `n - 1` levels. */
  lemma NoSlackPath(g: Graphic, h: seq<ExtInt>)
    requires g.Valid() && g.n >= 2 && ValidLabels(g, h)
    requires h[0] == Finite(g.n) && h[g.n - 1] == Finite(0)
    ensures forall p :: !SlackPath(g, p)
  {
    var steps := set x, y | 0 <= x < g.n && 0 <= y < g.n && g.capacity[x, y] > g.flow[x, y] :: (x, y);
    forall p | SlackPath(g, p)
      ensures false
    {
      assert StepsIn(p, steps);
      var q := Simplify(p, steps);
      DistinctIsShort(q, g.n);
      HeightDrop(g, h, q);
    }
  }

  /** `discharge(u)`: while `u` holds excess, push to the neighbour its
      `seen` counter points at when that cell has residual capacity and
      leads downhill, move the counter on otherwise, and relabel `u` and
      reset its counter once every neighbour has been seen. Each round
      spends one unit of `fuel`; the loop ends with `u` emptied unless the
      fuel ran out. Only the height and counter of `u` change, its height
      never drops, and the preflow, the labelling and the counter bounds
      are kept. */
  method Discharge(g: Graphic, height: array<ExtInt>, excess: array<int>, seen: array<int>, u: int, fuel: nat)
      returns (rest: nat)
    requires g.Valid() && g.NonNegativeCapacities() && Preflow(g, excess)
    requires Labelling(g, height) && SeenInRange(seen, g.n) && seen != excess
    requires 0 < u < g.n - 1
    modifies g.flow, excess, height, seen
    ensures Preflow(g, excess) && Labelling(g, height) && SeenInRange(seen, g.n)
    ensures forall w :: 0 <= w < g.n && w != u ==> height[w] == old(height[w]) && seen[w] == old(seen[w])
    ensures old(height[u]).value <= height[u].value
    ensures rest <= fuel && (rest > 0 ==> excess[u] <= 0)
  {
    rest := fuel;
    while excess[u] > 0 && rest > 0
      invariant Preflow(g, excess) && Labelling(g, height) && SeenInRange(seen, g.n)
      invariant forall w :: 0 <= w < g.n && w != u ==> height[w] == old(height[w]) && seen[w] == old(seen[w])
      invariant old(height[u]).value <= height[u].value
      invariant rest <= fuel
      decreases rest
    {
      rest := rest - 1;
      DischargeStep(g, height, excess, seen, u);
    }
  }

  /** One round of `discharge(u)`: with the counter on a neighbour, a push
      or a skip as `PushOrSkip` states, heights unchanged; past the last
      neighbour, a relabel of `u` to one above its lowest residual
      neighbour, which never lowers it, and a reset of the counter, with
      flow and excesses unchanged. */
  method DischargeStep(g: Graphic, height: array<ExtInt>, excess: array<int>, seen: array<int>, u: int)
    requires g.Valid() && g.NonNegativeCapacities() && Preflow(g, excess)
    requires Labelling(g, height) && SeenInRange(seen, g.n) && seen != excess
    requires 0 < u < g.n - 1 && excess[u] > 0
    modifies g.flow, excess, height, seen
    ensures Preflow(g, excess) && Labelling(g, height) && SeenInRange(seen, g.n)
    ensures forall w :: 0 <= w < g.n && w != u ==> height[w] == old(height[w]) && seen[w] == old(seen[w])
    ensures old(height[u]).value <= height[u].value
    ensures old(seen[u]) < g.n ==> height[u] == old(height[u]) && PushedOrSkipped(g, height, excess, seen, u)
    ensures old(seen[u]) == g.n ==>
              && height[u] == Plus(LowestNeighbour(g, old(height[..]), u, g.n), 1)
              && seen[u] == 0
              && FlowKept(g, excess)
  {
    if seen[u] < g.n {
      PushOrSkip(g, height, excess, seen, u);
    } else {
      RelabelAndReset(g, height, excess, seen, u);
    }
  }

  /** The second branch of a discharge round: `relabel(u)` followed by
      `seen[u] = 0`. The new height is finite, never lower, and keeps the
      labelling valid; no other height or counter changes. */
  method RelabelAndReset(g: Graphic, height: array<ExtInt>, excess: array<int>, seen: array<int>, u: int)
    requires g.Valid() && g.NonNegativeCapacities() && Preflow(g, excess)
    requires Labelling(g, height) && SeenInRange(seen, g.n) && seen != excess
    requires 0 < u < g.n - 1 && excess[u] > 0
    modifies height, seen
    ensures Labelling(g, height) && SeenInRange(seen, g.n)
    ensures height[u] == Plus(LowestNeighbour(g, old(height[..]), u, g.n), 1) && seen[u] == 0
    ensures old(height[u]).value <= height[u].value
    ensures forall w :: 0 <= w < g.n && w != u ==> height[w] == old(height[w]) && seen[w] == old(seen[w])
  {
    RelabelKeepsHeightsFinite(g, height, excess, u);
    RelabelKeepsLabels(g, height[..], u);
    Relabel(g, height, u);
    seen[u] := 0;
  }

  /** The first branch of a discharge round, from the earlier state to the
      later one, on `v = seen[u]`: when `(u, v)` had room and led downhill,
      the push happened and the counter stayed; otherwise the counter
      moved on and no flow or excess changed. */
  twostate predicate PushedOrSkipped(g: Graphic, height: array<ExtInt>, excess: array<int>, seen: array<int>, u: int)
    requires g.Valid() && unchanged(g) && 0 <= u < g.n
    requires height.Length == g.n && excess.Length == g.n && seen.Length == g.n && 0 <= old(seen[u]) < g.n
    reads g, g.capacity, g.flow, excess, seen
  {
    var v := old(seen[u]);
    if g.capacity[u, v] > old(g.flow[u, v]) && Less(old(height[v]), old(height[u])) then
      seen[u] == v && PushEffect(g, excess, u, v)
    else
      seen[u] == v + 1 && FlowKept(g, excess)
  }

  /** The first branch of a discharge round, on `v = seen[u]`: when
      `capacity[u][v] > flow[u][v]` and `height[u] > height[v]`, push from
      `u` to `v` and leave the counter; otherwise move the counter on and
      change nothing else. Pushing only one level down keeps the labelling
      valid. */
  method PushOrSkip(g: Graphic, height: array<ExtInt>, excess: array<int>, seen: array<int>, u: int)
    requires g.Valid() && Preflow(g, excess)
    requires Labelling(g, height) && SeenInRange(seen, g.n) && seen != excess
    requires 0 < u < g.n && excess[u] > 0 && seen[u] < g.n
    modifies g.flow, excess, seen
    ensures Preflow(g, excess) && Labelling(g, height) && SeenInRange(seen, g.n)
    ensures forall w :: 0 <= w < g.n && w != u ==> seen[w] == old(seen[w])
    ensures PushedOrSkipped(g, height, excess, seen, u)
  {
    var v := seen[u];
    if g.capacity[u, v] > g.flow[u, v] && Less(height[v], height[u]) {
      PushDownhill(g, height, excess, u, v);
    } else {
      seen[u] := seen[u] + 1;
    }
  }

  /** A push along a cell with room that leads downhill has the effect
      `PushEffect` states and keeps the labelling valid: the only cell it can open is `(v, u)`, which climbs
      rather than drops. */
  method PushDownhill(g: Graphic, height: array<ExtInt>, excess: array<int>, u: int, v: int)
    requires g.Valid() && Preflow(g, excess) && Labelling(g, height)
    requires 0 < u < g.n && 0 <= v < g.n && excess[u] > 0
    requires g.capacity[u, v] > g.flow[u, v] && Less(height[v], height[u])
    modifies g.flow, excess
    ensures Preflow(g, excess) && Labelling(g, height) && PushEffect(g, excess, u, v)
  {
    Push(g, excess, u, v);
    forall x, y | 0 <= x < g.n && 0 <= y < g.n && g.capacity[x, y] > g.flow[x, y]
      ensures height[x].value <= height[y].value + 1
    {
      if !(x == v && y == u) {
        assert old(g.capacity[x, y] > g.flow[x, y]);
      }
    }
  }

  /** Relabelling a vertex that holds excess gives it a finite height, one
      above its lowest residual neighbour. */
  lemma RelabelKeepsHeightsFinite(g: Graphic, height: array<ExtInt>, excess: array<int>, u: int)
    requires g.Valid() && g.NonNegativeCapacities() && Preflow(g, excess) && FiniteHeights(height, g.n)
    requires 0 < u < g.n && excess[u] > 0
    ensures Plus(LowestNeighbour(g, height[..], u, g.n), 1).Finite?
  {
    var w := ExcessHasResidualNeighbour(g, excess, u);
    LowestNeighbourIsMinimum(g, height[..], u, g.n);
    assert AtMost(LowestNeighbour(g, height[..], u, g.n), height[..][w]);
  }

  /** Some vertex other than the source and the sink holds excess. */
  predicate HasActive(excess: seq<int>)
  {
    exists i :: 0 < i < |excess| - 1 && excess[i] > 0
  }

  /** `any(excess[i] > 0 for i in active)`: scan the vertices strictly
      between the source and the sink in order, stopping at the first one
      that holds excess. */
  method AnyActive(excess: array<int>) returns (found: bool)
    ensures found <==> HasActive(excess[..])
  {
    var i := 1;
    while i < excess.Length - 1
      invariant 1 <= i
      invariant forall k :: 0 < k < i && k < excess.Length - 1 ==> excess[k] <= 0
    {
      if excess[i] > 0 {
        assert excess[..][i] > 0;
        return true;
      }
      i := i + 1;
    }
    return false;
  }

  /** A flow from vertex 0 to vertex `n - 1`: within capacity on every
      cell, antisymmetric on every pair except the source's own loop, and
      with nothing entering, net, any vertex strictly between. */
  ghost predicate SourceSinkFlow(g: Graphic)
    requires g.Valid()
    reads g, g.capacity, g.flow
  {
    && (forall x, y :: 0 <= x < g.n && 0 <= y < g.n ==> g.flow[x, y] <= g.capacity[x, y])
    && (forall x, y :: 0 <= x < g.n && 0 <= y < g.n && (x != 0 || y != 0) ==> g.flow[x, y] == -g.flow[y, x])
    && (forall u :: 0 < u < g.n - 1 ==> Sum(Column(g.flow, u)) == 0)
  }

  /** `push_relabel(graph)` on a graph with no flow yet: initialise the
      preflow, then sweep the vertices strictly between the source and the
      sink, discharging each one that holds excess, until none does; return
      `sum(flow[v][sink])`. Every round of the sweep and every discharge
      round spends one unit of `fuel`, and `None` reports that the fuel ran
      out with excess left. A returned value comes with a flow from source
      to sink that leaves no path from the source to the sink through cells
      with room for more, and it is both what enters the sink and what
      leaves the source (its own loop aside). */
  method PushRelabel(g: Graphic, fuel: nat) returns (result: Option<int>)
    requires g.Valid() && g.n >= 1 && g.ZeroFlow() && g.NonNegativeCapacities()
    modifies g.flow
    ensures WithinCapacity(g) && SkewAwayFromLoop(g)
    ensures result.Some? ==> SourceSinkFlow(g) && result.value == Sum(Column(g.flow, g.n - 1))
    ensures result.Some? && g.n >= 2 ==> result.value == Sum(Row(g.flow, 0)) - g.flow[0, 0]
    ensures result.Some? && g.n >= 2 ==> forall p :: !SlackPath(g, p)
  {
    var height, excess, seen := Initialise(g);
    var rest := DischargeAll(g, height, excess, seen, fuel);
    result := Outcome(g, excess);
    if result.Some? && g.n >= 2 {
      NoSlackPath(g, height[..]);
    }
  }

  /** Lines 95-106 of `push_relabel`: all heights, excesses and counters at
      zero, the source raised to height `n`, then the preflow
      initialisation. The result is a preflow with a valid labelling. */
  method Initialise(g: Graphic) returns (height: array<ExtInt>, excess: array<int>, seen: array<int>)
    requires g.Valid() && g.n >= 1 && g.ZeroFlow() && g.NonNegativeCapacities()
    modifies g.flow
    ensures fresh(height) && fresh(excess) && fresh(seen)
    ensures Preflow(g, excess) && Labelling(g, height) && SeenInRange(seen, g.n) && seen != excess
  {
    height := new ExtInt[g.n](_ => Finite(0));
    excess := new int[g.n](_ => 0);
    seen := new int[g.n](_ => 0);
    height[0] := Finite(g.n);
    ghost var h := height[..];
    assert FiniteHeights(height, g.n) && (g.n >= 2 ==> height[g.n - 1] == Finite(0));
    assert SeenInRange(seen, g.n);
    InitPreflow(g, excess);
    StartLabelling(g, h);
  }

  /** The main loop of `push_relabel`: sweep while some vertex between the
      source and the sink holds excess, each sweep spending one unit of
      `fuel` besides its discharges' rounds. It keeps the preflow, the
      labelling and the counter bounds, and unless the fuel ran out it
      stops with no such vertex holding excess. */
  method DischargeAll(g: Graphic, height: array<ExtInt>, excess: array<int>, seen: array<int>, fuel: nat)
      returns (rest: nat)
    requires g.Valid() && g.NonNegativeCapacities() && Discharging(g, height, excess, seen)
    modifies g.flow, excess, height, seen
    ensures Discharging(g, height, excess, seen)
    ensures rest <= fuel && (rest > 0 ==> !HasActive(excess[..]))
  {
    rest := fuel;
    var active := AnyActive(excess);
    while active && rest > 0
      invariant g.Valid() && Discharging(g, height, excess, seen)
      invariant rest <= fuel && (active <==> HasActive(excess[..]))
      decreases rest
    {
      rest := Sweep(g, height, excess, seen, rest - 1);
      active := AnyActive(excess);
    }
  }

  /** The end of `push_relabel`: `sum(flow[v][sink] for v in range(n))`
      once no vertex between the source and the sink holds excess, `None`
      while one still does. */
  method Outcome(g: Graphic, excess: array<int>) returns (result: Option<int>)
    requires g.Valid() && Preflow(g, excess)
    ensures result.Some? <==> !HasActive(excess[..])
    ensures result.Some? ==> SourceSinkFlow(g) && result.value == Sum(Column(g.flow, g.n - 1))
    ensures result.Some? && g.n >= 2 ==> result.value == Sum(Row(g.flow, 0)) - g.flow[0, 0]
  {
    if HasActive(excess[..]) {
      result := None;
    } else {
      var total := InflowOf(g.flow, g.n - 1);
      NoActiveMeansFlow(g, excess);
      result := Some(total);
    }
  }

  /** One pass of the main loop: `for u in active: if excess[u] > 0:
      discharge(u)`, drawing the discharges' rounds from `fuel`. Unless
      the fuel ran out, each vertex is left without excess when the pass
      moves on from it; a later discharge may push excess back into it,
      but nothing follows the last one, which ends the pass empty. */
  method Sweep(g: Graphic, height: array<ExtInt>, excess: array<int>, seen: array<int>, fuel: nat)
      returns (rest: nat)
    requires g.Valid() && g.NonNegativeCapacities() && Discharging(g, height, excess, seen)
    modifies g.flow, excess, height, seen
    ensures Discharging(g, height, excess, seen)
    ensures rest <= fuel && (rest > 0 && g.n >= 3 ==> excess[g.n - 2] <= 0)
  {
    rest := fuel;
    var u := 1;
    while u < g.n - 1
      invariant g.Valid() && Discharging(g, height, excess, seen)
      invariant excess.Length == g.n && 1 <= u <= g.n && (g.n >= 2 ==> u <= g.n - 1)
      invariant rest <= fuel && (rest > 0 && 1 < u ==> excess[u - 1] <= 0)
    {
      if excess[u] > 0 {
        rest := Discharge(g, height, excess, seen, u, rest);
      }
      u := u + 1;
    }
  }

  /** `sum(m[v][y] for v in range(n))`: the total entering `y`. */
  method InflowOf(m: array2<int>, y: int) returns (total: int)
    requires 0 <= y < m.Length1
    ensures total == Sum(Column(m, y))
  {
    total := 0;
    ghost var column := Column(m, y);
    for x := 0 to m.Length0
      invariant total == Sum(column[..x])
    {
      assert column[..x + 1][..x] == column[..x];
      total := total + m[x, y];
    }
    assert column[..m.Length0] == column;
  }

  /** Once no vertex strictly between the source and the sink holds excess,
      a preflow is a flow from source to sink, and what enters the sink is
      what leaves the source (its own loop aside). */
  lemma NoActiveMeansFlow(g: Graphic, excess: array<int>)
    requires g.Valid() && Preflow(g, excess) && !HasActive(excess[..])
    ensures SourceSinkFlow(g)
    ensures g.n >= 2 ==> Sum(Column(g.flow, g.n - 1)) == Sum(Row(g.flow, 0)) - g.flow[0, 0]
  {
    assert forall u :: 0 < u < g.n - 1 ==> excess[..][u] == excess[u];
    if g.n >= 2 {
      SinkTakesSourceOutflow(g, excess[..]);
    }
  }

  /** When the excesses of a preflow sum to zero and only the source and
      the sink hold any, the sink holds what the source sends out. */
  lemma SinkTakesSourceOutflow(g: Graphic, excess: seq<int>)
    requires g.Valid() && g.n >= 2 && |excess| == g.n && Sum(excess) == 0
    requires forall x, y :: 0 <= x < g.n && 0 <= y < g.n && (x != 0 || y != 0) ==> g.flow[x, y] == -g.flow[y, x]
    requires excess[0] == Sum(Column(g.flow, 0)) - g.flow[0, 0]
    requires excess[g.n - 1] == Sum(Column(g.flow, g.n - 1))
    requires forall u :: 0 < u < g.n - 1 ==> excess[u] == 0
    ensures Sum(Column(g.flow, g.n - 1)) == Sum(Row(g.flow, 0)) - g.flow[0, 0]
  {
    SumOfTwo(excess, g.n - 1);
    ColumnMirrorsRow(g);
  }

  /** With antisymmetric flow away from the source's loop, what enters the
      source and what leaves it add up to twice that loop. */
  lemma ColumnMirrorsRow(g: Graphic)
    requires g.Valid() && g.n >= 1
    requires forall x, y :: 0 <= x < g.n && 0 <= y < g.n && (x != 0 || y != 0) ==> g.flow[x, y] == -g.flow[y, x]
    ensures Sum(Column(g.flow, 0)) + Sum(Row(g.flow, 0)) == 2 * g.flow[0, 0]
  {
    var loop := g.flow[0, 0];
    var both := seq(g.n, i requires 0 <= i < g.n => if i == 0 then 2 * loop else 0);
    SumSingle(both, 0);
    SumPointwise(Column(g.flow, 0), Row(g.flow, 0), both);
  }
}
