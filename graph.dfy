/** The graph state every algorithm reads and mutates: `n` vertices (vertex
    0 is the source, vertex `n - 1` the sink) and four dense `n x n` integer
    matrices. A missing cost matrix (Python's `None`) is a null `cost`. */
module Graph {
  import opened Sums

  class Graphic {
    const n: nat
    var capacity: array2<int>
    var cost: array2?<int>
    var residual: array2<int>
    var flow: array2<int>

    /** Every matrix is `n x n`, and the four matrices are separate objects,
        so updating `residual` or `flow` never alters `capacity` or `cost`. */
    ghost predicate Valid()
      reads this
    {
      && capacity.Length0 == n && capacity.Length1 == n
      && residual.Length0 == n && residual.Length1 == n
      && flow.Length0 == n && flow.Length1 == n
      && (cost != null ==> cost.Length0 == n && cost.Length1 == n)
      && capacity != residual && capacity != flow && residual != flow
      && cost != capacity && cost != residual && cost != flow
    }

    /** The state before any algorithm has run: `residual` equals
        `capacity` cell by cell and `flow` is all zero. */
    ghost predicate Pristine()
      requires Valid()
      reads this, capacity, residual, flow
    {
      forall x, y :: 0 <= x < n && 0 <= y < n ==> residual[x, y] == capacity[x, y] && flow[x, y] == 0
    }

    /** No flow on any cell. */
    ghost predicate ZeroFlow()
      requires Valid()
      reads this, flow
    {
      forall x, y :: 0 <= x < n && 0 <= y < n ==> flow[x, y] == 0
    }

    /** Every capacity is non-negative. */
    ghost predicate NonNegativeCapacities()
      requires Valid()
      reads this, capacity
    {
      forall x, y :: 0 <= x < n && 0 <= y < n ==> capacity[x, y] >= 0
    }

    /** The residual capacity of every cell is what its capacity leaves
        over after its flow. */
    ghost predicate ResidualIsSlack()
      requires Valid()
      reads this, capacity, residual, flow
    {
      forall x, y :: 0 <= x < n && 0 <= y < n ==> residual[x, y] + flow[x, y] == capacity[x, y]
    }

    /** Flow is skew-symmetric: what goes one way comes back negated. */
    ghost predicate Antisymmetric()
      requires Valid()
      reads this, flow
    {
      forall x, y :: 0 <= x < n && 0 <= y < n ==> flow[x, y] == -flow[y, x]
    }

    /** No residual capacity is negative. */
    ghost predicate NonNegativeResiduals()
      requires Valid()
      reads this, residual
    {
      forall x, y :: 0 <= x < n && 0 <= y < n ==> residual[x, y] >= 0
    }

    /** The net flow out of vertex `x`: the sum of its row of `flow`. */
    ghost function NetOut(x: int): (r: int)
      requires Valid() && 0 <= x < n
      reads this, flow
    {
      Sum(Row(flow, x))
    }

    /** Every vertex other than `source` and `sink` sends out as much as it
        receives. */
    ghost predicate Conserving(source: int, sink: int)
      requires Valid()
      reads this, flow
    {
      forall x :: 0 <= x < n && x != source && x != sink ==> NetOut(x) == 0
    }

    /** `Graphic(n)`: four all-zero matrices; the cost matrix is present. */
    constructor (n: nat)
      ensures Valid() && this.n == n && Pristine()
      ensures fresh(capacity) && fresh(cost) && fresh(residual) && fresh(flow)
      ensures HasCosts()
      ensures forall x, y :: 0 <= x < n && 0 <= y < n ==> capacity[x, y] == 0 && cost[x, y] == 0
    {
      this.n := n;
      capacity := new int[n, n]((x, y) => 0);
      cost := new int[n, n]((x, y) => 0);
      residual := new int[n, n]((x, y) => 0);
      flow := new int[n, n]((x, y) => 0);
    }

    /** The graph that `read_graph` builds from the parsed capacity rows and
        the lines left after them: those lines are the cost matrix when there
        are exactly `n` of them, and otherwise the graph has no costs.
        `residual` is a separate copy of `capacity`. */
    constructor Load(n: nat, capacityRows: seq<seq<int>>, remaining: seq<seq<int>>)
      requires |capacityRows| == n && forall i :: 0 <= i < n ==> |capacityRows[i]| == n
      requires |remaining| == n ==> forall i :: 0 <= i < n ==> |remaining[i]| == n
      ensures Valid() && this.n == n && Pristine()
      ensures fresh(capacity) && fresh(residual) && fresh(flow) && (cost != null ==> fresh(cost))
      ensures forall x, y :: 0 <= x < n && 0 <= y < n ==> capacity[x, y] == capacityRows[x][y]
      ensures HasCosts() <==> |remaining| == n
      ensures HasCosts() ==> forall x, y :: 0 <= x < n && 0 <= y < n ==> cost[x, y] == remaining[x][y]
    {
      this.n := n;
      var cap := new int[n, n]((x, y) requires 0 <= x < n && 0 <= y < n => capacityRows[x][y]);
      capacity := cap;
      if |remaining| == n {
        cost := new int[n, n]((x, y) requires 0 <= x < n && 0 <= y < n => remaining[x][y]);
      } else {
        cost := null;
      }
      residual := new int[n, n]((x, y) requires 0 <= x < n && 0 <= y < n reads cap => cap[x, y]);
      flow := new int[n, n]((x, y) => 0);
    }

    /** `has_costs`: whether a cost matrix is attached, regardless of its
        contents (an all-zero matrix still counts). */
    function HasCosts(): (r: bool)
      reads this
      ensures r <==> cost != null
    {
      if cost == null then false else true
    }

    /** `add_edge(u, v, c)`: overwrites `capacity[u][v]` and `residual[u][v]`
        with `c`. */
    method AddEdge(u: nat, v: nat, c: int)
      requires Valid() && u < n && v < n
      modifies capacity, residual
      ensures Valid()
      ensures capacity[u, v] == c && residual[u, v] == c
      ensures forall x, y :: 0 <= x < n && 0 <= y < n && (x != u || y != v) ==>
                capacity[x, y] == old(capacity[x, y]) && residual[x, y] == old(residual[x, y])
      ensures old(Pristine()) ==> Pristine()
    {
      capacity[u, v] := c;
      residual[u, v] := c;
    }
  }
}
