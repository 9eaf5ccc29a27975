module MaxFlow {
  import opened Extended
  import opened Sums
  import opened Paths
  import opened Graph

  /** Every positive-residual neighbour of `x` is visited. */
  ghost predicate RowExplored(residual: array2<int>, x: int, visited: seq<bool>)
    reads residual
  {
    forall y :: 0 <= x < residual.Length0 && 0 <= y < residual.Length1 && y < |visited| && residual[x, y] > 0 ==> visited[y]
  }

  /** The first `k` discovered vertices have all their neighbours visited. */
  ghost predicate Explored(residual: array2<int>, order: seq<int>, visited: seq<bool>, k: int)
    reads residual
    decreases k
  {
    k <= 0 || (Explored(residual, order, visited, k - 1) && (k - 1 < |order| ==> RowExplored(residual, order[k - 1], visited)))
  }

  /** What `bfs` knows between steps. `order` lists the discovered vertices
      in discovery order, `index[v]` is the position of `v` in it (negative
      when undiscovered), `via[j]` the position of the vertex `order[j]` was
      discovered from, and `tree` the contents of `parent`, which agrees with
      `tree0` wherever no discovery wrote. */
  ghost predicate Searching(residual: array2<int>, tree0: seq<int>, tree: seq<int>, visited: seq<bool>, queue: seq<int>,
                            order: seq<int>, via: seq<int>, index: seq<int>, head: int, scanned: int, source: int, sink: int)
    reads residual
  {
    && SearchTree(residual, tree, order, via, index, source)
    && |tree0| == |tree| == |visited| && 0 <= sink < residual.Length0
    && (forall v :: 0 <= v < residual.Length0 ==> (visited[v] <==> index[v] >= 0))
    && 0 <= head <= |order| && queue == order[head..]
    && (forall v :: 0 <= v < residual.Length0 && (v == source || !visited[v]) ==> tree[v] == tree0[v])
    && Explored(residual, order, visited, scanned)
  }

  /** `order` lists the discovered vertices without repetition (`index`
      inverts it) starting from `source`, and each later one was discovered,
      as `tree` records, from an earlier one over a positive cell. */
  ghost predicate SearchTree(residual: array2<int>, tree: seq<int>, order: seq<int>, via: seq<int>, index: seq<int>, source: int)
    reads residual
  {
    && |tree| == |index| == residual.Length0 == residual.Length1
    && 0 <= source < residual.Length0
    && |order| == |via| >= 1 && order[0] == source
    && (forall j :: 0 <= j < |order| ==> 0 <= order[j] < residual.Length0 && index[order[j]] == j)
    && (forall v :: 0 <= v < residual.Length0 && index[v] >= 0 ==> index[v] < |order| && order[index[v]] == v)
    && (forall j :: 0 < j < |order| ==>
          && 0 <= via[j] < j
          && tree[order[j]] == order[via[j]]
          && residual[order[via[j]], order[j]] > 0)
  }

  /** Discovering more vertices keeps explored rows explored. */
  lemma {:induction false} ExploredGrows(residual: array2<int>, order: seq<int>, visited: seq<bool>, order': seq<int>, visited': seq<bool>, k: int)
    requires Explored(residual, order, visited, k) && k <= |order| <= |order'| && order'[..|order|] == order
    requires |visited| == |visited'| && forall w :: 0 <= w < |visited| && visited[w] ==> visited'[w]
    ensures Explored(residual, order', visited', k)
    decreases k
  {
    if k > 0 {
      ExploredGrows(residual, order, visited, order', visited', k - 1);
      assert order'[k - 1] == order[k - 1];
    }
  }

  /** Each of the first `k` discovered vertices is explored. */
  lemma {:induction false} ExploredRow(residual: array2<int>, order: seq<int>, visited: seq<bool>, k: int, j: int)
    requires Explored(residual, order, visited, k) && 0 <= j < k && j < |order|
    ensures RowExplored(residual, order[j], visited)
    decreases k
  {
    if j < k - 1 {
      ExploredRow(residual, order, visited, k - 1, j);
    }
  }

  /** One discovery: `v`, unvisited and reached from `u = order[head - 1]`
      over a positive cell, gets `u` as parent, is marked visited and joins
      the queue. */
  lemma {:induction false} DiscoverStep(residual: array2<int>, tree0: seq<int>, tree: seq<int>, visited: seq<bool>, queue: seq<int>,
                                        order: seq<int>, via: seq<int>, index: seq<int>, head: int, source: int, sink: int, v: int)
    requires Searching(residual, tree0, tree, visited, queue, order, via, index, head, head - 1, source, sink)
    requires 0 < head && 0 <= v < residual.Length0 && !visited[v] && residual[order[head - 1], v] > 0
    ensures Searching(residual, tree0, tree[v := order[head - 1]], visited[v := true], queue + [v],
                      order + [v], via + [head - 1], index[v := |order|], head, head - 1, source, sink)
  {
    ExploredGrows(residual, order, visited, order + [v], visited[v := true], head - 1);
  }

  /** Once every neighbour of `order[head - 1]` is visited, the first `head`
      discovered vertices are explored. */
  lemma {:induction false} FinishRow(residual: array2<int>, tree0: seq<int>, tree: seq<int>, visited: seq<bool>, queue: seq<int>,
                                     order: seq<int>, via: seq<int>, index: seq<int>, head: int, source: int, sink: int)
    requires Searching(residual, tree0, tree, visited, queue, order, via, index, head, head - 1, source, sink)
    requires 0 < head && RowExplored(residual, order[head - 1], visited)
    ensures Searching(residual, tree0, tree, visited, queue, order, via, index, head, head, source, sink)
  {
  }

  /** The search-tree path to `order[i]`. */
  ghost function TreePath(order: seq<int>, via: seq<int>, i: int): (p: seq<int>)
    requires 0 <= i < |order| == |via|
    requires forall j :: 0 < j < |via| ==> 0 <= via[j] < j
    ensures |p| >= 1 && p[0] == order[0] && p[|p| - 1] == order[i]
    decreases i
  {
    if i == 0 then [order[0]] else TreePath(order, via, via[i]) + [order[i]]
  }

  /** Every tree path is a parent chain back to the source along positive
      residual cells. */
  lemma {:induction false} TreePathIsChain(residual: array2<int>, tree: seq<int>, order: seq<int>, via: seq<int>, index: seq<int>, source: int, i: int)
    requires SearchTree(residual, tree, order, via, index, source) && 0 <= i < |order|
    ensures ParentChain(tree, TreePath(order, via, i), source, order[i])
    ensures forall k :: 0 <= k < |TreePath(order, via, i)| - 1 ==> residual[TreePath(order, via, i)[k], TreePath(order, via, i)[k + 1]] > 0
    decreases i
  {
    if i > 0 {
      TreePathIsChain(residual, tree, order, via, index, source, via[i]);
      var p := TreePath(order, via, i);
      var q := TreePath(order, via, via[i]);
      assert p == q + [order[i]];
      forall k | 0 < k < |p|
        ensures p[k] != source && tree[p[k]] == p[k - 1]
      {
        if k == |p| - 1 {
          assert index[order[0]] != index[order[i]];
        }
      }
    }
  }

  /** Discovering `sink` (the last vertex of `order`) yields an augmenting
      path that `parent` records as a chain back to `source`. */
  lemma {:induction false} SinkReached(residual: array2<int>, tree0: seq<int>, tree: seq<int>, visited: seq<bool>, queue: seq<int>,
                                       order: seq<int>, via: seq<int>, index: seq<int>, head: int, scanned: int, source: int, sink: int)
    requires Searching(residual, tree0, tree, visited, queue, order, via, index, head, scanned, source, sink)
    requires order[|order| - 1] == sink && sink != source
    ensures |visited| == residual.Length0 && visited[sink] && visited[source]
    ensures forall v :: 0 <= v < |visited| && (v == source || !visited[v]) ==> tree[v] == tree0[v]
    ensures ParentChain(tree, TreePath(order, via, |order| - 1), source, sink)
    ensures AugmentingPath(residual, TreePath(order, via, |order| - 1), source, sink)
  {
    TreePathIsChain(residual, tree, order, via, index, source, |order| - 1);
  }

  /** When the queue is exhausted, no positive cell leaves the visited set;
      so, with `sink` unvisited, no augmenting path reaches it. */
  lemma {:induction false} VisitedIsClosed(residual: array2<int>, tree0: seq<int>, tree: seq<int>, visited: seq<bool>,
                                           order: seq<int>, via: seq<int>, index: seq<int>, source: int, sink: int)
    requires Searching(residual, tree0, tree, visited, [], order, via, index, |order|, |order|, source, sink)
    ensures Closed(residual, set v | 0 <= v < |visited| && visited[v])
    ensures !visited[sink] ==> !Augmentable(residual, source, sink)
  {
    var s := set v | 0 <= v < |visited| && visited[v];
    forall x, y | x in s && 0 <= x < residual.Length0 && 0 <= y < residual.Length1 && residual[x, y] > 0
      ensures y in s
    {
      ExploredRow(residual, order, visited, |order|, index[x]);
    }
    if !visited[sink] {
      assert source in s;
      ClosedSetBlocksPaths(residual, s, source, sink);
    }
  }

  /** The state `bfs` starts from: only `source` is visited and queued. */
  lemma SearchStarts(residual: array2<int>, tree0: seq<int>, source: int, sink: int)
    requires residual.Length0 == residual.Length1 == |tree0|
    requires 0 <= source < |tree0| && 0 <= sink < |tree0|
    ensures Searching(residual, tree0, tree0, seq(|tree0|, v => v == source), [source], [source], [0],
                      seq(|tree0|, v => if v == source then 0 else -1), 0, 0, source, sink)
  {
  }

  /** The search never discovers more vertices than the graph has. */
  lemma {:induction false} OrderIsShort(residual: array2<int>, tree: seq<int>, order: seq<int>, via: seq<int>, index: seq<int>, source: int)
    requires SearchTree(residual, tree, order, via, index, source)
    ensures |order| <= residual.Length0
  {
    assert Distinct(order) by {
      forall i, j | 0 <= i < j < |order|
        ensures order[i] != order[j]
      {
        assert index[order[i]] != index[order[j]];
      }
    }
    DistinctIsShort(order, residual.Length0);
  }

  /** One discovery of `bfs`: `v`, unvisited and reached from `u` over a
      positive residual cell, gets `u` as its parent, is marked visited and
      joins the back of the queue. */
  method Discover(residual: array2<int>, source: int, sink: int, u: int, v: int, parent: array<int>, visited: seq<bool>, queue: seq<int>,
                  ghost tree0: seq<int>, ghost order: seq<int>, ghost via: seq<int>, ghost index: seq<int>, ghost head: int)
    returns (visited': seq<bool>, queue': seq<int>, ghost order': seq<int>, ghost via': seq<int>, ghost index': seq<int>)
    requires Searching(residual, tree0, parent[..], visited, queue, order, via, index, head, head - 1, source, sink)
    requires 0 < head && u == order[head - 1] && 0 <= v < |visited| && !visited[v] && residual[u, v] > 0
    modifies parent
    ensures Searching(residual, tree0, parent[..], visited', queue', order', via', index', head, head - 1, source, sink)
    ensures parent[..] == old(parent[..])[v := u]
    ensures visited' == visited[v := true] && order' == order + [v] && queue' == queue + [v] && u == order'[head - 1]
  {
    DiscoverStep(residual, tree0, parent[..], visited, queue, order, via, index, head, source, sink, v);
    ghost var tree := parent[..];
    parent[v] := u;
    assert parent[..] == tree[v := u];
    visited' := visited[v := true];
    queue' := queue + [v];
    order', via', index' := order + [v], via + [head - 1], index[v := |order|];
  }

  /** The inner loop of `bfs`: scan the neighbours of `u`, the vertex at
      position `head - 1` of the discovery order, in ascending order; an
      unvisited one over a positive residual cell gets `u` as its parent, is
      marked visited and joins the queue, and discovering `sink` ends the
      search. */
  method Scan(residual: array2<int>, source: int, sink: int, u: int, parent: array<int>, visited: seq<bool>, queue: seq<int>,
              ghost tree0: seq<int>, ghost order: seq<int>, ghost via: seq<int>, ghost index: seq<int>, ghost head: int)
    returns (found: bool, visited': seq<bool>, queue': seq<int>, ghost order': seq<int>, ghost via': seq<int>, ghost index': seq<int>, ghost path: seq<int>)
    requires residual.Length0 == residual.Length1 == parent.Length
    requires Searching(residual, tree0, parent[..], visited, queue, order, via, index, head, head - 1, source, sink)
    requires 0 < head && u == order[head - 1]
    requires visited[sink] ==> sink == source
    modifies parent
    ensures found ==> sink != source && |visited'| == |visited| && visited'[sink] && visited'[source]
    ensures found ==> forall v :: 0 <= v < |visited'| && (v == source || !visited'[v]) ==> parent[v] == tree0[v]
    ensures found ==> ParentChain(parent[..], path, source, sink) && AugmentingPath(residual, path, source, sink)
    ensures !found ==> Searching(residual, tree0, parent[..], visited', queue', order', via', index', head, head, source, sink)
    ensures !found ==> (visited'[sink] ==> sink == source)
  {
    var n := residual.Length0;
    found := false;
    path := [];
    visited', queue', order', via', index' := visited, queue, order, via, index;
    ghost var tree := parent[..];
    for v := 0 to n
      invariant parent[..] == tree
      invariant Searching(residual, tree0, tree, visited', queue', order', via', index', head, head - 1, source, sink)
      invariant u == order'[head - 1]
      invariant forall y :: 0 <= y < v && residual[u, y] > 0 ==> visited'[y]
      invariant visited'[sink] ==> sink == source
    {
      if !visited'[v] && residual[u, v] > 0 {
        visited', queue', order', via', index' := Discover(residual, source, sink, u, v, parent, visited', queue', tree0, order', via', index', head);
        tree := tree[v := u];
        if v == sink {
          found := true;
          path := TreePath(order', via', |order'| - 1);
          SinkReached(residual, tree0, tree, visited', queue', order', via', index', head, head - 1, source, sink);
          return;
        }
      }
    }
    FinishRow(residual, tree0, tree, visited', queue', order', via', index', head, source, sink);
  }

  method Bfs(residual: array2<int>, source: int, sink: int, parent: array<int>)
    returns (found: bool, ghost path: seq<int>, ghost reached: seq<bool>)
    requires residual.Length0 == residual.Length1 == parent.Length
    requires 0 <= source < parent.Length && 0 <= sink < parent.Length
    modifies parent
    ensures |reached| == parent.Length && reached[source]
    ensures forall v :: 0 <= v < parent.Length && (v == source || !reached[v]) ==> parent[v] == old(parent[v])
    ensures found ==> sink != source && reached[sink]
    ensures found ==> ParentChain(parent[..], path, source, sink) && AugmentingPath(residual, path, source, sink)
    ensures !found ==> !reached[sink] || sink == source
    ensures !found ==> Closed(residual, set v | 0 <= v < |reached| && reached[v])
    ensures !found && sink != source ==> !Augmentable(residual, source, sink)
  {
    var n := residual.Length0;
    ghost var tree0 := parent[..];
    var visited := seq(n, v => v == source);
    var queue := [source];
    ghost var order := [source];
    ghost var via := [0];
    ghost var index := seq(n, v => if v == source then 0 else -1);
    ghost var head := 0;
    path := [];
    SearchStarts(residual, tree0, source, sink);
    while queue != []
      invariant Searching(residual, tree0, parent[..], visited, queue, order, via, index, head, head, source, sink)
      invariant visited[sink] ==> sink == source
      decreases n - head
    {
      var u := queue[0];
      queue := queue[1..];
      head := head + 1;
      found, visited, queue, order, via, index, path := Scan(residual, source, sink, u, parent, visited, queue, tree0, order, via, index, head);
      if found {
        reached := visited;
        return;
      }
      OrderIsShort(residual, parent[..], order, via, index, source);
    }
    found := false;
    reached := visited;
    VisitedIsClosed(residual, tree0, parent[..], visited, order, via, index, source, sink);
  }

  /** The smallest residual capacity over the steps of `path`, folded from
      the last step backwards as `get_path_flow` walks it; infinite for a
      path without steps. */
  ghost function PathMin(residual: array2<int>, path: seq<int>): (r: ExtInt)
    requires InRange(path, residual.Length0) && InRange(path, residual.Length1)
    reads residual
    decreases |path|
  {
    if |path| < 2 then Infinity else MinWith(PathMin(residual, path[1..]), residual[path[0], path[1]])
  }

  /** The value `s` holds the matrix `m`, row by row. */
  ghost predicate Mirrors(s: seq<seq<int>>, m: array2<int>)
    reads m
  {
    && |s| == m.Length0
    && (forall x {:trigger s[x]} :: 0 <= x < |s| ==> |s[x]| == m.Length1)
    && (forall x, y {:trigger Entry(s, x, y)} :: 0 <= x < m.Length0 && 0 <= y < m.Length1 ==> Entry(s, x, y) == m[x, y])
  }

  /** Entry `(x, y)` of the matrix value `s`, and zero off its edge. */
  ghost function Entry(s: seq<seq<int>>, x: int, y: int): (r: int)
  {
    if 0 <= x < |s| && 0 <= y < |s[x]| then s[x][y] else 0
  }

  /** Every matrix has a value that holds it. */
  lemma TakeSnapshot(m: array2<int>) returns (s: seq<seq<int>>)
    ensures Mirrors(s, m)
  {
    s := seq(m.Length0, x requires 0 <= x < m.Length0 reads m => seq(m.Length1, y requires 0 <= y < m.Length1 reads m => m[x, y]));
  }

  /** Every vertex of `path` names a row of the square matrix value `m`. */
  ghost predicate Indexes(m: seq<seq<int>>, path: seq<int>)
  {
    forall k :: 0 <= k < |path| ==> 0 <= path[k] < |m| && |m[path[k]]| == |m|
  }

  /** The entry of `m` on step `i` of `path`. */
  ghost function StepValue(m: seq<seq<int>>, path: seq<int>, i: int): (r: int)
    requires 0 <= i < |path| - 1
  {
    Entry(m, path[i], path[i + 1])
  }

  /** `d` is the bottleneck of `path` in the matrix value `m`: no step has
      less than `d`, and some step has exactly `d`. */
  ghost predicate BottleneckOf(m: seq<seq<int>>, path: seq<int>, d: int)
  {
    && Indexes(m, path)
    && (forall i :: 0 <= i < |path| - 1 ==> d <= StepValue(m, path, i))
    && (exists i :: 0 <= i < |path| - 1 && d == StepValue(m, path, i))
  }

  /** The matrix value `after` is `before` with `d` units pushed along
      `path`: each cell less what the push moves through it. */
  ghost predicate ShiftedBy(before: seq<seq<int>>, after: seq<seq<int>>, path: seq<int>, d: int)
  {
    && |after| == |before|
    && (forall x {:trigger after[x]} :: 0 <= x < |before| ==> |after[x]| == |before[x]|)
    && (forall x, y {:trigger Entry(after, x, y)} :: 0 <= x < |before| && 0 <= y < |before[x]| ==>
          Entry(after, x, y) == Entry(before, x, y) - Shift(path, d, x, y))
  }

  /** Once every cell of `m` is that of `before` less what pushing `d`
      along `path` moves through it, some value holding `m` is `before`
      shifted by the push. */
  lemma ShiftedSnapshot(before: seq<seq<int>>, m: array2<int>, path: seq<int>, d: int) returns (after: seq<seq<int>>)
    requires |before| == m.Length0 && forall x :: 0 <= x < |before| ==> |before[x]| == m.Length1
    requires forall x, y :: 0 <= x < m.Length0 && 0 <= y < m.Length1 ==> m[x, y] == Entry(before, x, y) - Shift(path, d, x, y)
    ensures Mirrors(after, m) && ShiftedBy(before, after, path, d)
  {
    after := TakeSnapshot(m);
  }

  /** The bottleneck `PathMin` computes, read off a value holding the
      matrix. */
  lemma MirroredBottleneck(s: seq<seq<int>>, m: array2<int>, path: seq<int>)
    requires Mirrors(s, m) && m.Length0 == m.Length1 && InRange(path, m.Length0) && |path| >= 2
    ensures PathMin(m, path).Finite? && BottleneckOf(s, path, PathMin(m, path).value)
  {
    PathMinIsBottleneck(m, path);
    assert Indexes(s, path);
    forall i | 0 <= i < |path| - 1
      ensures StepValue(s, path, i) == m[path[i], path[i + 1]]
    {
    }
    var i :| 0 <= i < |path| - 1 && PathMin(m, path).value == m[path[i], path[i + 1]];
    assert StepValue(s, path, i) == PathMin(m, path).value;
  }

  /** The bottleneck of a path with at least one step is finite, no larger
      than any step's residual and equal to one of them. */
  lemma {:induction false} PathMinIsBottleneck(residual: array2<int>, path: seq<int>)
    requires InRange(path, residual.Length0) && InRange(path, residual.Length1) && |path| >= 2
    ensures PathMin(residual, path).Finite?
    ensures forall i :: 0 <= i < |path| - 1 ==> PathMin(residual, path).value <= residual[path[i], path[i + 1]]
    ensures exists i :: 0 <= i < |path| - 1 && PathMin(residual, path).value == residual[path[i], path[i + 1]]
    decreases |path|
  {
    var tail := path[1..];
    if |tail| >= 2 {
      PathMinIsBottleneck(residual, tail);
      forall i | 0 < i < |path| - 1
        ensures PathMin(residual, path).value <= residual[path[i], path[i + 1]]
      {
        assert path[i] == tail[i - 1] && path[i + 1] == tail[i - 1 + 1];
      }
      if PathMin(residual, path) != PathMin(residual, tail) {
        assert PathMin(residual, path).value == residual[path[0], path[0 + 1]];
      } else {
        var i :| 0 <= i < |tail| - 1 && PathMin(residual, tail).value == residual[tail[i], tail[i + 1]];
        assert path[i + 1] == tail[i] && path[i + 1 + 1] == tail[i + 1];
      }
    } else {
      assert PathMin(residual, path).value == residual[path[0], path[0 + 1]];
    }
  }

  /** `get_path_flow`: walk `parent` from `sink` back to `source`, taking
      the minimum residual capacity of the steps met. On the chain `bfs`
      leaves behind the result is the path's bottleneck: infinite when
      `sink == source`, and otherwise a capacity that bounds every step
      and is attained on one of them, hence at least 1 on an augmenting
      path. */
  method GetPathFlow(residual: array2<int>, parent: seq<int>, source: int, sink: int, ghost path: seq<int>)
    returns (flow: ExtInt, ghost step: int)
    requires ParentChain(parent, path, source, sink)
    requires InRange(path, residual.Length0) && InRange(path, residual.Length1)
    ensures flow == PathMin(residual, path)
    ensures |path| == 1 ==> flow == Infinity
    ensures |path| >= 2 ==> flow.Finite? && FitsPath(residual, path, flow.value)
    ensures |path| >= 2 ==> 0 <= step < |path| - 1 && flow.value == residual[path[step], path[step + 1]]
    ensures AugmentingPath(residual, path, source, sink) ==> flow.Finite? && flow.value >= 1
  {
    flow, step := Infinity, 0;
    var v := sink;
    ghost var i := |path| - 1;
    while v != source
      invariant 0 <= i < |path| && v == path[i]
      invariant flow == PathMin(residual, path[i..])
      decreases i
    {
      // `v` is not the source, so it is not the first vertex of the chain.
      assert i > 0;
      var u := parent[v];
      assert u == parent[path[i]] == path[i - 1];
      assert path[i - 1..][1..] == path[i..];
      flow := MinWith(flow, residual[u, v]);
      v := u;
      i := i - 1;
    }
    assert path[i..] == path;
    if |path| >= 2 {
      PathMinIsBottleneck(residual, path);
      step :| 0 <= step < |path| - 1 && flow.value == residual[path[step], path[step + 1]];
    }
  }

  /** `update_residual_and_flow`: walk `parent` from `sink` back to
      `source` and, for every step `u -> v` met, move `d` units from
      `residual[u][v]` to `residual[v][u]` and the mirror amount in `flow`.
      Every cell ends shifted by exactly the net amount the path pushes
      through it, and nothing else in the graph changes. */
  method UpdateResidualAndFlow(g: Graphic, parent: seq<int>, source: int, sink: int, d: int, ghost path: seq<int>)
    requires g.Valid() && ParentChain(parent, path, source, sink) && InRange(path, g.n)
    modifies g.residual, g.flow
    ensures forall x, y {:trigger Shift(path, d, x, y)} :: 0 <= x < g.n && 0 <= y < g.n ==>
              g.residual[x, y] == old(g.residual[x, y]) - Shift(path, d, x, y) &&
              g.flow[x, y] == old(g.flow[x, y]) + Shift(path, d, x, y)
    ensures forall x, y {:trigger AvoidsCell(path, x, y)} :: 0 <= x < g.n && 0 <= y < g.n && AvoidsCell(path, x, y) ==>
              g.residual[x, y] == old(g.residual[x, y]) && g.flow[x, y] == old(g.flow[x, y])
    ensures old(g.ResidualIsSlack()) ==> g.ResidualIsSlack()
    ensures old(g.Antisymmetric()) ==> g.Antisymmetric()
    ensures forall x :: 0 <= x < g.n ==>
              g.NetOut(x) == old(g.NetOut(x)) + (if x == source then d else 0) - (if x == sink then d else 0)
    ensures old(g.Conserving(source, sink)) ==> g.Conserving(source, sink)
    ensures && old(g.NonNegativeResiduals()) && 0 <= d
            && old(FitsPath(g.residual, path, d))
            ==> g.NonNegativeResiduals()
  {
    var v := sink;
    ghost var i := |path| - 1;
    while v != source
      invariant 0 <= i < |path| && v == path[i]
      invariant forall x, y {:trigger Shift(path[i..], d, x, y)} :: 0 <= x < g.n && 0 <= y < g.n ==>
                  g.residual[x, y] == old(g.residual[x, y]) - Shift(path[i..], d, x, y) &&
                  g.flow[x, y] == old(g.flow[x, y]) + Shift(path[i..], d, x, y)
      decreases i
    {
      label top:
      assert i > 0;
      var u := parent[v];
      assert u == parent[path[i]] == path[i - 1];
      g.residual[u, v] := g.residual[u, v] - d;
      g.residual[v, u] := g.residual[v, u] + d;
      g.flow[u, v] := g.flow[u, v] + d;
      g.flow[v, u] := g.flow[v, u] - d;
      forall x, y | 0 <= x < g.n && 0 <= y < g.n
        ensures g.residual[x, y] == old(g.residual[x, y]) - Shift(path[i - 1..], d, x, y)
        ensures g.flow[x, y] == old(g.flow[x, y]) + Shift(path[i - 1..], d, x, y)
      {
        ShiftPrepend(path, i, d, x, y);
        assert old@top(g.residual[x, y]) == old(g.residual[x, y]) - Shift(path[i..], d, x, y);
      }
      v := u;
      i := i - 1;
    }
    assert path[i..] == path;
    forall x, y | 0 <= x < g.n && 0 <= y < g.n
      ensures g.residual[x, y] + g.flow[x, y] == old(g.residual[x, y] + g.flow[x, y])
      ensures g.flow[x, y] + g.flow[y, x] == old(g.flow[x, y] + g.flow[y, x])
      ensures AvoidsCell(path, x, y) ==> Shift(path, d, x, y) == 0
    {
      ShiftAntisymmetric(path, d, x, y);
      if AvoidsCell(path, x, y) {
        ShiftOffEdges(path, d, x, y);
      }
    }
    forall x | 0 <= x < g.n
      ensures g.NetOut(x) == old(g.NetOut(x)) + (if x == source then d else 0) - (if x == sink then d else 0)
    {
      ShiftedRowSum(old(Row(g.flow, x)), Row(g.flow, x), path, d, x);
    }
    if old(g.NonNegativeResiduals()) && 0 <= d && old(FitsPath(g.residual, path, d)) {
      ChainIsDistinct(parent, path, source, sink);
      forall x, y | 0 <= x < g.n && 0 <= y < g.n
        ensures g.residual[x, y] >= 0
      {
        ShiftOnDistinct(path, d, x, y);
      }
    }
  }

  /** What `ford_fulkerson` keeps true between augmentations: `residual` is
      the slack `capacity - flow` and never negative, flow is antisymmetric
      and conserved away from `source` and `sink`, and `value` is the net
      flow leaving `source`, bounded by the capacity out of it. */
  ghost predicate Augmented(g: Graphic, source: int, sink: int, value: int)
    requires g.Valid() && 0 <= source < g.n
    reads g, g.capacity, g.residual, g.flow
  {
    && g.ResidualIsSlack() && g.Antisymmetric() && g.NonNegativeResiduals()
    && g.Conserving(source, sink)
    && value == g.NetOut(source)
    && 0 <= value <= Sum(Row(g.capacity, source))
  }

  /** One round of `ford_fulkerson` after `bfs` found `path`: push the
      bottleneck along it and add it to the flow value. The push is the
      path's bottleneck, at least one unit; every cell moves by what the
      path pushes through it, and the flow invariants survive. */
  method Augment(g: Graphic, parent: seq<int>, source: int, sink: int, value: int, ghost path: seq<int>)
    returns (value': int, pathFlow: int)
    requires g.Valid() && 0 <= source < g.n && 0 <= sink < g.n && Augmented(g, source, sink, value)
    requires ParentChain(parent, path, source, sink) && AugmentingPath(g.residual, path, source, sink)
    modifies g.residual, g.flow
    ensures old(PathMin(g.residual, path)) == Finite(pathFlow) && pathFlow >= 1
    ensures value' == value + pathFlow && Augmented(g, source, sink, value')
    ensures forall x, y {:trigger Shift(path, pathFlow, x, y)} :: 0 <= x < g.n && 0 <= y < g.n ==>
              g.residual[x, y] == old(g.residual[x, y]) - Shift(path, pathFlow, x, y) &&
              g.flow[x, y] == old(g.flow[x, y]) + Shift(path, pathFlow, x, y)
  {
    ghost var step;
    var bottleneck;
    bottleneck, step := GetPathFlow(g.residual, parent, source, sink, path);
    pathFlow := bottleneck.value;
    UpdateResidualAndFlow(g, parent, source, sink, pathFlow, path);
    value' := value + pathFlow;
    NetOutWithinCapacity(g, source);
  }

  /** While every residual is the non-negative slack of its cell, no vertex
      sends out more than the capacity of its outgoing edges. */
  lemma {:induction false} NetOutWithinCapacity(g: Graphic, x: int)
    requires g.Valid() && 0 <= x < g.n && g.ResidualIsSlack() && g.NonNegativeResiduals()
    ensures g.NetOut(x) <= Sum(Row(g.capacity, x))
  {
    SumNonNegative(Row(g.residual, x));
    SumPointwise(Row(g.residual, x), Row(g.flow, x), Row(g.capacity, x));
  }

  /** A graph fresh from loading, with non-negative capacities, satisfies
      the invariants of `ford_fulkerson` with flow value zero. */
  lemma {:induction false} PristineIsAugmented(g: Graphic, source: int, sink: int)
    requires g.Valid() && 0 <= source < g.n && g.Pristine() && g.NonNegativeCapacities()
    ensures Augmented(g, source, sink, 0)
  {
    forall x | 0 <= x < g.n
      ensures g.NetOut(x) == 0
    {
      SumZero(Row(g.flow, x));
    }
    SumNonNegative(Row(g.capacity, source));
  }

  /** One pass of the `ford_fulkerson` loop: augment along the path the
      last `bfs` found, then search again. The flow value grows by the
      path's bottleneck, every cell moves by what the path pushes through
      it, the invariants hold, and the new search either records an
      augmenting path in `parent` or shows that none is left. */
  method AugmentThenSearch(g: Graphic, parent: array<int>, source: int, sink: int, value: int, ghost path: seq<int>)
    returns (value': int, pathFlow: int, found: bool, ghost path': seq<int>)
    requires g.Valid() && 0 <= source < g.n && 0 <= sink < g.n && parent.Length == g.n && Augmented(g, source, sink, value)
    requires ParentChain(parent[..], path, source, sink) && AugmentingPath(g.residual, path, source, sink)
    modifies g.residual, g.flow, parent
    ensures old(PathMin(g.residual, path)) == Finite(pathFlow) && pathFlow >= 1
    ensures value' == value + pathFlow && Augmented(g, source, sink, value')
    ensures forall x, y {:trigger Shift(path, pathFlow, x, y)} :: 0 <= x < g.n && 0 <= y < g.n ==>
              g.residual[x, y] == old(g.residual[x, y]) - Shift(path, pathFlow, x, y) &&
              g.flow[x, y] == old(g.flow[x, y]) + Shift(path, pathFlow, x, y)
    ensures found ==> ParentChain(parent[..], path', source, sink) && AugmentingPath(g.residual, path', source, sink)
    ensures !found && sink != source ==> !Augmentable(g.residual, source, sink)
  {
    value', pathFlow := Augment(g, parent[..], source, sink, value, path);
    ghost var reached;
    found, path', reached := Bfs(g.residual, source, sink, parent);
  }

  /** `AugmentThenSearch` with the round recorded: given a value `before`
      holding `residual`, it also returns one holding the new `residual`,
      and the two make a round: the amount pushed is the path's bottleneck
      in `before`, and `after` is `before` shifted by it. */
  method RecordedRound(g: Graphic, parent: array<int>, source: int, sink: int, value: int, ghost path: seq<int>,
                       ghost before: seq<seq<int>>)
    returns (value': int, pathFlow: int, found: bool, ghost path': seq<int>, ghost after: seq<seq<int>>)
    requires g.Valid() && 0 <= source < g.n && 0 <= sink < g.n && parent.Length == g.n && Augmented(g, source, sink, value)
    requires ParentChain(parent[..], path, source, sink) && AugmentingPath(g.residual, path, source, sink)
    requires Mirrors(before, g.residual)
    modifies g.residual, g.flow, parent
    ensures value' == value + pathFlow && Augmented(g, source, sink, value')
    ensures found ==> ParentChain(parent[..], path', source, sink) && AugmentingPath(g.residual, path', source, sink)
    ensures !found && sink != source ==> !Augmentable(g.residual, source, sink)
    ensures Mirrors(after, g.residual) && Round(before, after, path, pathFlow, source, sink)
  {
    MirroredBottleneck(before, g.residual, path);
    value', pathFlow, found, path' := AugmentThenSearch(g, parent, source, sink, value, path);
    after := ShiftedSnapshot(before, g.residual, path, pathFlow);
  }

  /** The rounds of `ford_fulkerson` so far, told from the last one back:
      the last round starts from the residual matrix before the last one
      in `residuals`, pushes the last of `pushes` along the last of `paths`
      and leaves the last matrix, after the rounds before it; `total` is
      what the rounds pushed altogether. */
  ghost predicate Rounds(residuals: seq<seq<seq<int>>>, paths: seq<seq<int>>, pushes: seq<int>,
                         source: int, sink: int, total: int)
    decreases |paths|
  {
    && |residuals| == |paths| + 1 && |pushes| == |paths|
    && if paths == [] then total == 0
       else
         var k := |paths| - 1;
         && Round(residuals[k], residuals[k + 1], paths[k], pushes[k], source, sink)
         && Rounds(residuals[..k + 1], paths[..k], pushes[..k], source, sink, total - pushes[k])
  }

  /** Round `i` of a record: it starts from `residuals[i]`, pushes
      `pushes[i]` units, the bottleneck of `paths[i]` there, and leaves
      `residuals[i + 1]`. */
  lemma {:induction false} RoundAt(residuals: seq<seq<seq<int>>>, paths: seq<seq<int>>, pushes: seq<int>,
                                   source: int, sink: int, total: int, i: int)
    requires Rounds(residuals, paths, pushes, source, sink, total) && 0 <= i < |paths|
    ensures Round(residuals[i], residuals[i + 1], paths[i], pushes[i], source, sink)
    decreases |paths|
  {
    var k := |paths| - 1;
    if i < k {
      RoundAt(residuals[..k + 1], paths[..k], pushes[..k], source, sink, total - pushes[k], i);
    }
  }

  /** What the rounds of a record pushed adds up to its total. */
  lemma {:induction false} RoundsTotal(residuals: seq<seq<seq<int>>>, paths: seq<seq<int>>, pushes: seq<int>,
                                       source: int, sink: int, total: int)
    requires Rounds(residuals, paths, pushes, source, sink, total)
    ensures total == Sum(pushes)
    decreases |paths|
  {
    if paths != [] {
      var k := |paths| - 1;
      RoundsTotal(residuals[..k + 1], paths[..k], pushes[..k], source, sink, total - pushes[k]);
      SumAppend(pushes[..k], pushes[k]);
      assert pushes[..k] + [pushes[k]] == pushes;
    }
  }

  /** One round: `d`, at least one unit, is the bottleneck in `before` of
      the walk `path` from `source` to `sink`, and pushing it along that
      walk turns `before` into `after`. */
  ghost predicate Round(before: seq<seq<int>>, after: seq<seq<int>>, path: seq<int>, d: int, source: int, sink: int)
  {
    && d >= 1
    && |path| >= 2 && path[0] == source && path[|path| - 1] == sink
    && BottleneckOf(before, path, d)
    && ShiftedBy(before, after, path, d)
  }

  /** A further round that pushes the bottleneck `d`, at least one unit,
      of a walk from `source` to `sink` in the last matrix and leaves
      `after` extends the record, whose total becomes `total + d`. */
  lemma AddRound(residuals: seq<seq<seq<int>>>, paths: seq<seq<int>>, pushes: seq<int>, source: int, sink: int,
                 total: int, path: seq<int>, d: int, after: seq<seq<int>>, total': int)
      returns (residuals': seq<seq<seq<int>>>, paths': seq<seq<int>>, pushes': seq<int>)
    requires Rounds(residuals, paths, pushes, source, sink, total)
    requires Round(residuals[|residuals| - 1], after, path, d, source, sink) && total' == total + d
    ensures residuals' == residuals + [after] && paths' == paths + [path] && pushes' == pushes + [d]
    ensures Rounds(residuals', paths', pushes', source, sink, total')
  {
    residuals', paths', pushes' := residuals + [after], paths + [path], pushes + [d];
    assert residuals'[..|paths| + 1] == residuals && paths'[..|paths|] == paths && pushes'[..|paths|] == pushes;
  }

  /** `ford_fulkerson`: from vertex 0 to vertex `n - 1`, augment along the
      path `bfs` finds until it finds none, reusing one `parent` array
      throughout. Starting from `residual = capacity` and zero flow, the
      result is the net flow out of the source; the flow is conserved,
      antisymmetric and within capacity, and the final residual graph has
      no augmenting path. The ghost record of the rounds runs from the
      residual matrix at the start to the one at the end; by `RoundAt`
      each round pushes the bottleneck of its path in the matrix before
      it, at least one unit, and by `RoundsTotal` the result is the sum
      of what the rounds pushed. */
  method FordFulkerson(g: Graphic)
      returns (maxFlow: int, ghost residuals: seq<seq<seq<int>>>, ghost paths: seq<seq<int>>, ghost pushes: seq<int>)
    requires g.Valid() && g.n >= 1 && g.Pristine() && g.NonNegativeCapacities()
    modifies g.residual, g.flow
    ensures Augmented(g, 0, g.n - 1, maxFlow)
    ensures Rounds(residuals, paths, pushes, 0, g.n - 1, maxFlow)
    ensures old(Mirrors(residuals[0], g.residual)) && Mirrors(residuals[|residuals| - 1], g.residual)
    ensures g.n >= 2 ==> !Augmentable(g.residual, 0, g.n - 1)
  {
    var source := 0;
    var sink := g.n - 1;
    var parent := new int[g.n](_ => -1);
    maxFlow := 0;
    ghost var start := TakeSnapshot(g.residual);
    residuals, paths, pushes := [start], [], [];
    PristineIsAugmented(g, source, sink);
    var found;
    ghost var path, reached;
    found, path, reached := Bfs(g.residual, source, sink, parent);
    ghost var bound := Sum(Row(g.capacity, source));
    while found
      invariant g.Valid() && Augmented(g, source, sink, maxFlow)
      invariant found ==> ParentChain(parent[..], path, source, sink) && AugmentingPath(g.residual, path, source, sink)
      invariant !found && sink != source ==> !Augmentable(g.residual, source, sink)
      invariant bound == Sum(Row(g.capacity, source))
      invariant Rounds(residuals, paths, pushes, source, sink, maxFlow)
      invariant residuals[0] == start && Mirrors(residuals[|residuals| - 1], g.residual)
      decreases bound - maxFlow
    {
      var value', pathFlow;
      ghost var path', after;
      value', pathFlow, found, path', after := RecordedRound(g, parent, source, sink, maxFlow, path, residuals[|residuals| - 1]);
      residuals, paths, pushes := AddRound(residuals, paths, pushes, source, sink, maxFlow, path, pathFlow, after, value');
      maxFlow, path := value', path';
    }
  }
}
