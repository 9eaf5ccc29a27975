# Flow engines over a dense residual graph

This project models the flow-computation core of a small operations-research
tool. A graph has `n` vertices, with vertex `0` as the source and vertex
`n - 1` as the sink. It is held as four dense `n x n` integer matrices:
`capacity`, `cost` (possibly absent), `residual` and `flow`. The project models
four engines that run over that state:

- breadth-first search for an augmenting path (`bfs`);
- Ford–Fulkerson / Edmonds–Karp (`ford_fulkerson`, with `get_path_flow` and
  `update_residual_and_flow`);
- generic push–relabel (`push_relabel`, with `push`, `relabel` and `discharge`);
- successive shortest paths for a minimum-cost flow of a given value
  (`min_cost_flow`, with `bellman_ford`).

The graph is a class (`Graph.Graphic`) whose four matrices are `array2<int>`
fields. A missing cost matrix is `null`. Every engine updates the matrices in
place, as the Python does. Python's `float('inf')` sentinels become
`Extended.ExtInt`, an integer or `Infinity`.

The modules follow the program's structure:

- `Extended` holds the `inf` arithmetic and `Sums` holds `sum` over rows and
  columns.
- `Paths` describes parent chains and the net effect of pushing along one.
- `Graph` is the `Graphic` class.
- `MaxFlow` covers `bfs`, `get_path_flow`, `update_residual_and_flow` and
  `ford_fulkerson`.
- `PushRelabel` covers `push_relabel` and its closures.
- `MinCost` covers `bellman_ford` and `min_cost_flow`.

Main results:

- After `bfs` returns `True`, following `parent` back from the sink is an
  augmenting path. When it returns `False`, no augmenting path exists.
- `update_residual_and_flow` shifts every cell by exactly what the path pushes
  through it. It keeps `residual + flow` and `flow[x][y] + flow[y][x]` fixed,
  and it moves `d` units of net outflow from the source to the sink.
- `ford_fulkerson` returns the net flow out of the source. At that point the
  flow is conserved, antisymmetric and within capacity, and no augmenting path
  is left. A ghost record of the run holds the residual matrix before each
  round and the path each round used. Each round pushes that path's
  bottleneck in the matrix before it, and the result is the sum of what the
  rounds pushed.
- The push–relabel initialisation leaves a preflow with total excess zero and
  a valid height labelling: a cell with room never leads down by more than one
  level.
  `push` and `relabel` keep both. A returned value is the flow into the sink,
  equal to the net flow out of the source, and no source-to-sink path through
  cells with room is left.
- After `bellman_ford`, the distances bound every walk of at most `n` vertices.
  The negative-cycle check fires exactly when a negative cycle can be reached
  from the source. Otherwise the distances are least walk costs, and the
  predecessors form a tree whose walks cost exactly the distances.
- Each `min_cost_flow` round pushes at least one unit. It never overshoots the
  target, and it charges the amount pushed times the least cost of a walk to
  the sink.

Bellman–Ford in this code prices a reverse residual step `v -> u` at the
stored `cost[v][u]`. No cost is ever negated, so cancelling flow is not
refunded. The model does the same and does not claim that the flow found has
minimum cost.

## Model

| member | source | states |
|---|---|---|
| Graph.Graphic.constructor | graph.py:5-18 | a new graph has `n x n` all-zero capacity, cost, residual and flow matrices, separate from each other, and it has costs even though they are all zero; `RechercheOperationelle-main/graph.py` lines 2-15 are the same |
| Graph.Graphic.Load | graph.py:27-51 | the loaded graph has the given capacities; it has costs exactly when `n` lines remain, and then those are the costs; residual is a separate copy of capacity and flow is zero; `RechercheOperationelle-main/graph.py` lines 24-48 are the same |
| Graph.Graphic.AddEdge | graph.py:21-23 | `capacity[u][v]` and `residual[u][v]` are overwritten with `c`; every other cell is unchanged and a pristine graph stays pristine; `RechercheOperationelle-main/graph.py` lines 18-20 are the same |
| Graph.Graphic.HasCosts | graph.py:14-18 | the answer is `True` exactly when a cost matrix is attached, whatever its entries |
| Extended.Min | algorithms.py:119 | `min` on possibly infinite values is no larger than either argument and is one of them |
| Extended.MinWith | algorithms.py:57 | `min(flow, residual[u][v])` is finite, no larger than either argument, and is one of them |
| Extended.Plus | algorithms.py:155 | `dist[u] + cost[u][v]` is finite exactly when `dist[u]` is, and adds the cost |
| MaxFlow.SearchStarts | algorithms.py:5-8 | the initial queue `[source]` with only the source visited satisfies the search invariant |
| MaxFlow.DiscoverStep | algorithms.py:13-16 | recording `parent[v] = u`, marking `v` and enqueuing it keep the search invariant |
| MaxFlow.FinishRow | algorithms.py:12-16 | once row `u` is scanned, every positive-residual neighbour of `u` is visited |
| MaxFlow.Discover | algorithms.py:13-16 | the discovery step updates `parent` only at `v` and extends the visit order and the queue by `v` |
| MaxFlow.Scan | algorithms.py:12-18 | scanning `u`'s row in ascending order either reaches the sink, leaving an augmenting parent chain, or finishes the row with the invariant kept |
| MaxFlow.SinkReached | algorithms.py:17-18 | when the sink is discovered, the parent chain from it is an augmenting path from the source |
| MaxFlow.TreePathIsChain | algorithms.py:14 | each discovered vertex's search-tree path is a parent chain with positive residual on every step |
| MaxFlow.VisitedIsClosed | algorithms.py:10-19 | when the queue runs dry, no positive-residual edge leaves the visited set, so an unvisited sink has no augmenting path |
| MaxFlow.OrderIsShort | algorithms.py:6-16 | each vertex is discovered at most once, so at most `n` are |
| MaxFlow.Bfs | algorithms.py:4-19 | `True` means the sink was reached and `parent` holds an augmenting chain to it; `False` means no augmenting path; `parent` only changes on newly discovered vertices |
| Paths.ClosedSetBlocksPaths | algorithms.py:19 | with the source in and the sink out of a closed set, no augmenting path exists |
| Paths.ChainIsDistinct | algorithms.py:55-58 | following `parent` from the sink to the source never revisits a vertex |
| Paths.DistinctIsShort | algorithms.py:55-58 | a walk without repeats visits at most `n` vertices |
| Paths.Simplify | algorithms.py:138-144 | a walk can be cut down to one without repeats, with the same ends and only steps of the original |
| MaxFlow.PathMinIsBottleneck | algorithms.py:52-59 | the minimum residual along the chain is at most every step's residual and equals one of them |
| MaxFlow.GetPathFlow | algorithms.py:52-59 | the result is the minimum residual along the chain (`inf` for the empty chain); it is at least 1 on an augmenting path |
| Paths.ShiftAntisymmetric | algorithms.py:77-80 | the push moves flow antisymmetrically: what cell `(x, y)` gains, `(y, x)` loses |
| Paths.ShiftOffEdges | algorithms.py:73-81 | cells that are neither path steps nor their reverses are untouched |
| Paths.ShiftOnDistinct | algorithms.py:73-81 | on a repeat-free path a cell gains either at most nothing or exactly `d` on one of its steps |
| Paths.ShiftedRowSum | algorithms.py:73-81 | pushing `d` adds `d` to the first vertex's net outflow, takes `d` from the last one's, and leaves others balanced |
| MaxFlow.UpdateResidualAndFlow | algorithms.py:73-81 | each cell moves by the net amount the path pushes; `residual + flow`, antisymmetry, conservation and non-negative residuals (when `d` fits) survive; net outflow moves `d` from source to sink |
| MaxFlow.Augment | algorithms.py:32-36 | one round pushes the chain's bottleneck, which is at least 1: every cell moves by what the chain pushes through it, the value grows by the bottleneck, and the flow invariants hold |
| MaxFlow.NetOutWithinCapacity | algorithms.py:22-39 | while residuals are the non-negative slack, no vertex's net outflow exceeds its total capacity |
| MaxFlow.PristineIsAugmented | graph.py:50 | the loaded graph (residual = capacity, zero flow) satisfies the flow invariants with value 0 |
| MaxFlow.AugmentThenSearch | algorithms.py:29-37 | augmenting pushes the bottleneck (at least 1) through every cell of the chain and adds it to the value; the new search then finds a chain or proves none exists |
| MaxFlow.MirroredBottleneck | algorithms.py:52-59 | the bottleneck `get_path_flow` computes on the residual matrix is the least step of the path in a value holding that matrix, and equals one of its steps |
| MaxFlow.ShiftedSnapshot | algorithms.py:73-81 | once every residual cell has moved by what the path pushes, a value holding the new matrix is the old value shifted by the push |
| MaxFlow.RecordedRound | algorithms.py:29-37 | one round, as `AugmentThenSearch` states it, also turns a value holding the residual matrix before it into one holding the matrix after it; the amount is the path's bottleneck in the value before, at least 1, and the value after is the value before shifted by it |
| MaxFlow.AddRound | algorithms.py:36 | a further round from the last recorded matrix extends the record and adds its amount to the total |
| MaxFlow.RoundAt | algorithms.py:29-37 | round `i` of a record starts from matrix `i`, pushes the bottleneck of path `i` there (at least 1) from the source to the sink, and leaves matrix `i + 1` |
| MaxFlow.RoundsTotal | algorithms.py:36 | the total of a record is the sum of what its rounds pushed |
| MaxFlow.FordFulkerson | algorithms.py:22-39 | the result is the net flow out of the source; the flow is conserved, antisymmetric and within capacity; no augmenting path remains; the ghost record runs from the residual matrix at the start to the one at the end, each round pushing its path's bottleneck, with the result as total |
| PushRelabel.InitPreflow | algorithms.py:99-106 | initialisation saturates the source edges, mirrors them on reverse cells, credits each head its capacity, and yields a preflow whose excesses sum to zero |
| PushRelabel.NothingInitialised | algorithms.py:95-96 | before the first round, zero flow and zero excess match the initialisation invariant |
| PushRelabel.SaturateSourceEdge | algorithms.py:101-106 | one initialisation round extends the initialised region by vertex `v` |
| PushRelabel.SaturateEdge | algorithms.py:102-106 | a positive source edge is saturated, its reverse set to minus it, `v` credited and the source debited |
| PushRelabel.EdgeLeftEmpty | algorithms.py:102 | a source edge with zero capacity is skipped with nothing written |
| PushRelabel.AllInitialised | algorithms.py:99-106 | after the last round the flow is the initial flow, each vertex holds its source capacity, and the state is a preflow |
| PushRelabel.InitialFlowFits | algorithms.py:103-104 | the initial flow is within capacity and antisymmetric away from the source's own loop |
| PushRelabel.InitialInflow | algorithms.py:105-106 | under the initial flow each vertex receives its source capacity and the source receives minus the total sent |
| PushRelabel.SourceCapacities | algorithms.py:105-106 | what the source has sent after visiting the vertices below `v` is their source capacities |
| PushRelabel.SourceCapacitiesStep | algorithms.py:106 | each round adds the visited vertex's source capacity to the total sent |
| PushRelabel.ShiftFlow | algorithms.py:110-111 | `flow[u][v] += delta` and `flow[v][u] -= delta`; no other cell changes; the inflow of `v` grows by `delta` and that of `u` shrinks by it |
| PushRelabel.MoveFlow | algorithms.py:110-111 | within the cell's slack, capacity bounds and antisymmetry survive the flow half of a push |
| PushRelabel.ShiftExcess | algorithms.py:112-113 | `excess[u] -= delta` and `excess[v] += delta` keep the total excess |
| PushRelabel.MoveKeepsSum | algorithms.py:112-113 | moving an amount between two entries keeps the sum |
| PushRelabel.MoveExcess | algorithms.py:112-113 | the excess half brings each excess level with its inflow, keeps the total and keeps non-source excesses non-negative |
| PushRelabel.Push | algorithms.py:108-113 | `delta = min(excess[u], capacity - flow)` is positive, empties `u` or saturates the cell, moves flow and excess by `delta`, leaves every other cell and excess unchanged, and keeps the preflow |
| PushRelabel.LowestNeighbourIsMinimum | algorithms.py:116-119 | the fold is at most every residual neighbour's height, equals one of them, and is `inf` only when there is none |
| PushRelabel.Relabel | algorithms.py:115-120 | `height[u]` becomes one more than the lowest residual neighbour's height and no other height changes |
| PushRelabel.ExcessHasResidualNeighbour | algorithms.py:118 | a non-source vertex with positive excess has a cell with `capacity > flow`, so relabel never meets `inf` |
| PushRelabel.RelabelKeepsHeightsFinite | algorithms.py:120 | relabelling a vertex with excess gives it a finite height |
| PushRelabel.StartLabelling | algorithms.py:99-106 | the initial flow with the source at height `n` and every other vertex at 0 is a valid labelling |
| PushRelabel.RelabelKeepsLabels | algorithms.py:115-120 | relabelling never lowers `u` and keeps the labelling valid |
| PushRelabel.HeightDrop | algorithms.py:143-144 | along a walk through cells with room, the height drops by at most one per step |
| PushRelabel.NoSlackPath | algorithms.py:143-144 | under a valid labelling with the source at `n` and the sink at 0, no path from source to sink uses only cells with room |
| PushRelabel.PushOrSkip | algorithms.py:124-129 | when the cell `(u, seen[u])` has room and leads downhill, exactly the push happens (the amount is positive, empties `u` or saturates the cell, moves flow and excess from `u` to `v`, lowers the reverse cell by it, and leaves every other cell and excess unchanged) and `seen[u]` stays; otherwise `seen[u]` advances by one and flow and excesses are unchanged; the preflow and labelling are kept |
| PushRelabel.PushDownhill | algorithms.py:126-127 | a push along a cell with room that leads downhill empties `u` or saturates the cell, moves the amount from `u` to `v` and off the reverse cell, leaves every other cell and excess unchanged, and keeps both the preflow and the valid labelling |
| PushRelabel.RelabelAndReset | algorithms.py:130-132 | relabelling `u` and resetting `seen[u]` to 0 sets `u` one above its lowest neighbour with room, never lowers it, keeps the labelling valid and touches no other height or counter |
| PushRelabel.DischargeStep | algorithms.py:123-132 | with `seen[u] < n` it keeps `u`'s height and does exactly what `PushOrSkip` states (the whole push when the cell has room and leads downhill, otherwise the skip); with `seen[u] == n` it sets `height[u]` to one more than the lowest neighbour with room, resets `seen[u]` to 0 and changes no flow or excess; other vertices keep their height and counter; invariants kept |
| PushRelabel.Discharge | algorithms.py:122-132 | the loop keeps the preflow and labelling, never lowers `u`, leaves other vertices' heights and counters alone and, unless the budget runs out, ends with `excess[u] <= 0` |
| PushRelabel.Sweep | algorithms.py:139-141 | one pass discharges, in order, each vertex between the source and the sink that holds excess; unless the budget runs out, the last of them ends the pass without excess; preflow, labelling and counters kept |
| PushRelabel.DischargeAll | algorithms.py:138-141 | the main loop keeps the invariants and, unless the budget runs out, stops with no active vertex holding excess |
| PushRelabel.AnyActive | algorithms.py:135-138 | the scan answers `True` exactly when some vertex other than the source and sink holds positive excess |
| PushRelabel.Initialise | algorithms.py:95-106 | fresh `height`, `excess` and `seen` arrays hold a preflow with a valid labelling (source at height `n`, sink at 0) and counters within `0..n` |
| PushRelabel.InflowOf | algorithms.py:144 | `sum(flow[v][sink] for v in range(n))` is the column sum |
| PushRelabel.ColumnMirrorsRow | algorithms.py:104 | with antisymmetry away from the source loop, the source's inflow and outflow add up to twice that loop |
| PushRelabel.SinkTakesSourceOutflow | algorithms.py:144 | when only the source and sink hold excess, the sink receives what the source sends out |
| PushRelabel.NoActiveMeansFlow | algorithms.py:138-144 | with no active excess, the preflow is a source–sink flow and the sink's inflow is the source's net outflow |
| PushRelabel.Outcome | algorithms.py:138-144 | a value is returned exactly when no active vertex holds excess, and then it is the inflow of the sink, equal to the source's outflow |
| PushRelabel.PushRelabel | algorithms.py:90-144 | the flow stays within capacity and antisymmetric; a returned value is the sink's inflow and the source's net outflow under a source–sink flow, and no source-to-sink path through cells with room is left |
| MinCost.WalkExtend | algorithms.py:155-156 | extending a walk by a positive-residual step adds that step's cost |
| MinCost.Relax | algorithms.py:155-157 | only `v` changes; it changes exactly when the step is relaxable, to `dist[u] + cost[u][v]` with `pred[v] = u`; no distance rises; afterwards `v` is within `dist[u] + cost` |
| MinCost.RelaxKeepsLabelled | algorithms.py:155-157 | relaxing keeps the tables' invariant: distances lowered only, predecessor edges recorded, finite distances witnessed by walks |
| MinCost.RelaxKeepsLowered | algorithms.py:156-157 | `pred[v]` is `-1` exactly while `dist[v]` is at its initial value |
| MinCost.RelaxKeepsPredEdges | algorithms.py:157 | every recorded predecessor is a positive-residual step no longer than the distance difference |
| MinCost.RelaxKeepsWitnessed | algorithms.py:156 | each finite distance is the cost of a residual walk from the source |
| MinCost.BoundStart | algorithms.py:148-150 | the initial table bounds the one-vertex walk at the source |
| MinCost.BoundStep | algorithms.py:153-157 | after relaxing `u -> v` every walk whose last step comes no later in the scan is bounded |
| MinCost.NextRow | algorithms.py:153-154 | finishing row `u` bounds the walks ending with a step out of `u` |
| MinCost.NextRound | algorithms.py:152 | a full round bounds every walk with one more vertex |
| MinCost.RelaxRow | algorithms.py:154-157 | scanning row `u` keeps the invariant, raises no distance, and bounds the walks ending in a step out of `u` |
| MinCost.RelaxRound | algorithms.py:153-157 | a round keeps the invariant and bounds walks with one more vertex |
| MinCost.BellmanFord | algorithms.py:147-160 | after `n - 1` rounds, every finite distance is a walk cost and no residual walk from the source with at most `n` vertices is cheaper than its end's distance |
| MinCost.SettledWalk | algorithms.py:174-177 | along a walk none of whose steps is relaxable, the end's distance is at most the start's plus the walk cost |
| MinCost.WalkAppend | algorithms.py:152 | joining walks adds their costs |
| MinCost.WalkSplit | algorithms.py:152 | cutting a walk at a vertex splits its cost |
| MinCost.SplitCycle | algorithms.py:152 | a walk from the source longer than `n` splits into a shorter walk to the same end and a reachable closed walk |
| MinCost.Shortcut | algorithms.py:152 | with no reachable negative cycle, every walk from the source has one of at most `n` vertices to the same end that costs no more |
| MinCost.CycleNotNegative | algorithms.py:174-177 | without a reachable negative cycle every reachable closed walk costs at least 0 |
| MinCost.SettledHasNoNegativeCycle | algorithms.py:174-177 | if the check passes, no negative cycle is reachable |
| MinCost.RelaxableMeansNegativeCycle | algorithms.py:174-177 | if the check fires after Bellman–Ford, a negative cycle is reachable |
| MinCost.HasRelaxableStep | algorithms.py:174-177 | the double loop finds a step exactly when some positive-residual step is still relaxable |
| MinCost.SourceAtZero | algorithms.py:150 | once the check passes, `dist[source]` is 0 and `pred[source]` is `-1` |
| MinCost.SettledIsCheapest | algorithms.py:171-177 | once the check passes, every distance is the least cost of a residual walk from the source |
| MinCost.SettledPredTree | algorithms.py:185-191 | once the check passes, every reached vertex other than the source has a predecessor (never `-1`), across a positive-residual step, with exact distances and an earlier stamp |
| MinCost.PredPathFacts | algorithms.py:185-192 | following `pred` from a reached vertex ends at the source, never meets `-1`, and traces a residual walk costing exactly its distance |
| MinCost.CheapestPaths | algorithms.py:171-177 | negative cycle reported exactly when one is reachable; otherwise cheapest distances with the source at 0 and a predecessor tree |
| MinCost.UnreachableSink | algorithms.py:180-182 | an infinite sink distance means no augmenting path |
| MinCost.ClippedFlow | algorithms.py:184-195 | the amount is the smaller of the cheapest walk's bottleneck residual and the remaining target, so it is between 1 and the remaining target and fits every step of that walk |
| MinCost.ChargeAlong | algorithms.py:198-211 | the total grows by the amount pushed times the walk's cost |
| MinCost.PushAlong | algorithms.py:198-209 | every residual and flow cell moves by exactly what the chain pushes through it, and the flow invariants hold with the counter grown by the amount |
| MinCost.PushedFrom | algorithms.py:214 | the flow invariants and a non-negative source outflow equal to the counter bound the counter by the source's capacity |
| MinCost.AugmentCheapest | algorithms.py:184-214 | a round pushes the bottleneck of the `pred` walk to the sink clipped to the remaining target, moves every cell by what that walk pushes, keeps the invariants, and charges the amount times the least walk cost to the sink |
| MinCost.MinCostFlow | algorithms.py:162-222 | the invariants hold at the end; a total cost means the target (or 0) left the source; `None` means less did and no augmenting path remains; the error means a reachable negative cycle |

## Left out

- Printing and trace output are not modelled: the `display_*` helpers, the `print` calls and `utils.py`. They have no effect on state.
- `main.py`, `complexity.py`, `plot_complexity.py` and `generate_traces.py` are not part of this model. They are interactive, random, plotting or file plumbing.
- Graph.Graphic.Load: takes the already-parsed capacity rows and the remaining lines. Opening the file and parsing integers are I/O.
- `float('inf')` is modelled as `Infinity` of `Extended.ExtInt`, not as a floating-point value.
- PushRelabel.PushRelabel: the `discharge` loop and the main loop draw on a `fuel` budget, and `None` means it ran out. The budget stands in for the termination argument, which is not proved; that the result is `Some` for a large enough budget is not proved either.
- PushRelabel.PushRelabel: maximality is stated as "no source-to-sink path through cells with `capacity > flow`". The max-flow/min-cut theorem that makes this a maximum flow is not proved.
- PushRelabel.PushRelabel: requires a graph with zero flow and non-negative capacities, which is what it gets after loading. The Python does not check this.
- PushRelabel.InitPreflow: a capacity on the source's own loop `(0, 0)` is written twice by lines 103-104. The model does the same, so antisymmetry is stated for every pair except that loop.
- MaxFlow.FordFulkerson: requires the loaded state (`residual == capacity`, zero flow) and non-negative capacities. The Python does not check this.
- MinCost.MinCostFlow: requires the loaded state, non-negative capacities and a cost matrix. With a missing matrix the Python fails as soon as it examines a cell with positive residual; a target of at most 0 returns 0 before that.
- MinCost.MinCostFlow: the `ValueError` raised on a negative cycle is the `NegativeCycle` outcome.
- MinCost.MinCostFlow: the "Invalid path" error (lines 189-190) is not an outcome; `MinCost.PredPathFacts` proves that branch cannot be taken.
- MinCost.MinCostFlow: the push loop (lines 198-211) is modelled as a charging walk along the path followed by a separate residual and flow update. The walk writes neither `residual` nor `flow`, and the update does not write `cost`, so the order does not matter.
- MinCost.MinCostFlow: does not claim the result is a minimum-cost flow. Reverse residual steps are priced at the matrix's own entry `cost[v][u]`, not at `-cost[u][v]`, as the code does.
- MaxFlow.Bfs: does not state that the path found is a shortest one (fewest edges), only that it is an augmenting path; Edmonds–Karp's bound on the number of rounds is not modelled.
- MinCost.MinCostFlow: the running total is related to the cheapest walk cost round by round (`MinCost.AugmentCheapest`), not summed over the whole run.
- Graphs with `n == 0` are excluded: every engine requires `n >= 1`, since sink `n - 1` must be a vertex.
