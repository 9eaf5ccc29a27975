/** Paths through the residual graph: the chains that a `parent` (or `pred`)
    array describes, and the effect of pushing flow along one of them. */
module Paths {
  import opened Sums

  /** No vertex occurs twice. */
  predicate Distinct(p: seq<int>)
  {
    forall i, j :: 0 <= i < j < |p| ==> p[i] != p[j]
  }

  /** Every vertex of `p` is an index below `n`. */
  predicate InRange(p: seq<int>, n: int)
  {
    forall i :: 0 <= i < |p| ==> 0 <= p[i] < n
  }

  /** `path` (listed from source to sink) is what one visits by following
      `parent` from `sink` until `source` is met: the walk that
      get_path_flow and update_residual_and_flow make. */
  predicate ParentChain(parent: seq<int>, path: seq<int>, source: int, sink: int)
  {
    && |path| >= 1
    && path[0] == source
    && path[|path| - 1] == sink
    && InRange(path, |parent|)
    && forall i :: 0 < i < |path| ==> path[i] != source && parent[path[i]] == path[i - 1]
  }

  /** Every vertex of `path` indexes the matrix and every step of it has
      positive residual capacity. */
  ghost predicate PositivePath(residual: array2<int>, path: seq<int>)
    reads residual
  {
    && InRange(path, residual.Length0)
    && InRange(path, residual.Length1)
    && forall i :: 0 <= i < |path| - 1 ==> residual[path[i], path[i + 1]] > 0
  }

  /** Every step of `path` indexes the matrix and has residual capacity of
      at least `d`. */
  ghost predicate FitsPath(residual: array2<int>, path: seq<int>, d: int)
    reads residual
  {
    && InRange(path, residual.Length0)
    && InRange(path, residual.Length1)
    && forall i :: 0 <= i < |path| - 1 ==> d <= residual[path[i], path[i + 1]]
  }

  /** A path from `source` to a different `sink` in the residual graph. */
  ghost predicate AugmentingPath(residual: array2<int>, path: seq<int>, source: int, sink: int)
    reads residual
  {
    |path| >= 2 && path[0] == source && path[|path| - 1] == sink && PositivePath(residual, path)
  }

  /** The residual graph has an augmenting path from `source` to `sink`. */
  ghost predicate Augmentable(residual: array2<int>, source: int, sink: int)
    reads residual
  {
    exists path :: AugmentingPath(residual, path, source, sink)
  }

  /** `path` neither takes the step `x -> y` nor the step `y -> x`. */
  predicate AvoidsCell(path: seq<int>, x: int, y: int)
  {
    forall i :: 0 <= i < |path| - 1 ==> !(path[i] == x && path[i + 1] == y) && !(path[i] == y && path[i + 1] == x)
  }

  /** No positive-residual edge leaves the vertex set `s`. */
  ghost predicate Closed(residual: array2<int>, s: set<int>)
    reads residual
  {
    forall x, y :: x in s && 0 <= x < residual.Length0 && 0 <= y < residual.Length1 && residual[x, y] > 0 ==> y in s
  }

  /** The net amount that pushing `d` units along `path` adds to cell
      `(x, y)` of the flow matrix (and takes from the residual matrix):
      `d` for every step `x -> y`, minus `d` for every step `y -> x`. */
  function Shift(path: seq<int>, d: int, x: int, y: int): (r: int)
    decreases |path|
  {
    if |path| < 2 then 0
    else
      var forward := if path[0] == x && path[1] == y then d else 0;
      var backward := if path[0] == y && path[1] == x then d else 0;
      forward - backward + Shift(path[1..], d, x, y)
  }

  /** Taking one more step at the front of a suffix of the path adds that
      step's own contribution to the shift. */
  lemma ShiftPrepend(path: seq<int>, i: int, d: int, x: int, y: int)
    requires 0 < i < |path|
    ensures Shift(path[i - 1..], d, x, y) ==
            (if path[i - 1] == x && path[i] == y then d else 0) -
            (if path[i - 1] == y && path[i] == x then d else 0) +
            Shift(path[i..], d, x, y)
  {
    assert path[i - 1..][1..] == path[i..];
  }

  /** Row `x` of the shift, over `n` columns. */
  function ShiftRow(path: seq<int>, d: int, x: int, n: nat): (r: seq<int>)
    ensures |r| == n
  {
    seq(n, y => Shift(path, d, x, y))
  }

  /** A chain obtained by following parents until the source is met never
      repeats a vertex. */
  lemma {:induction false} ChainIsDistinct(parent: seq<int>, path: seq<int>, source: int, sink: int)
    requires ParentChain(parent, path, source, sink)
    ensures Distinct(path)
  {
    forall i, j | 0 <= i < j < |path|
      ensures path[i] != path[j]
    {
      ChainStepsDiffer(parent, path, source, sink, i, j);
    }
  }

  /** A sequence of distinct vertices below `n` has at most `n` entries:
      a parent chain, a search order, can never outgrow the graph. */
  lemma {:induction false} DistinctIsShort(p: seq<int>, n: nat)
    requires Distinct(p) && InRange(p, n)
    ensures |p| <= n
    decreases |p|
  {
    if p != [] {
      var last := p[|p| - 1];
      // Renaming the vertex `n - 1` to `last` keeps the rest distinct and
      // below `n - 1`.
      var rest := seq(|p| - 1, i requires 0 <= i < |p| - 1 => if p[i] == n - 1 then last else p[i]);
      DistinctIsShort(rest, n - 1);
    }
  }

  lemma {:induction false} ChainStepsDiffer(parent: seq<int>, path: seq<int>, source: int, sink: int, i: int, j: int)
    requires ParentChain(parent, path, source, sink)
    requires 0 <= i < j < |path|
    ensures path[i] != path[j]
    decreases i
  {
    if i > 0 {
      ChainStepsDiffer(parent, path, source, sink, i - 1, j - 1);
    }
  }

  /** Every step of `p` is a pair in `steps`. */
  predicate StepsIn(p: seq<int>, steps: set<(int, int)>)
  {
    forall i :: 0 <= i < |p| - 1 ==> (p[i], p[i + 1]) in steps
  }

  /** A walk whose steps lie in `steps` can be cut down to one with the
      same ends, its steps still in `steps`, its vertices taken from the
      walk, and no vertex repeated. */
  lemma {:induction false} Simplify(p: seq<int>, steps: set<(int, int)>) returns (q: seq<int>)
    requires |p| >= 1 && StepsIn(p, steps)
    ensures |q| >= 1 && q[0] == p[0] && q[|q| - 1] == p[|p| - 1]
    ensures StepsIn(q, steps) && Distinct(q)
    ensures forall k :: 0 <= k < |q| ==> q[k] in p
    decreases |p|
  {
    if Distinct(p) {
      q := p;
    } else {
      // Cut out the closed walk between two visits of one vertex.
      var i, j :| 0 <= i < j < |p| && p[i] == p[j];
      var r := p[..i] + p[j..];
      forall k | 0 <= k < |r| - 1
        ensures (r[k], r[k + 1]) in steps
      {
        if k < i {
          assert r[k] == p[k] && r[k + 1] == p[k + 1];
        } else {
          assert r[k] == p[k + (j - i)] && r[k + 1] == p[k + (j - i) + 1];
        }
      }
      q := Simplify(r, steps);
      forall k | 0 <= k < |q|
        ensures q[k] in p
      {
        var m :| 0 <= m < |r| && r[m] == q[k];
        if m < i {
          assert r[m] == p[m];
        } else {
          assert r[m] == p[m + (j - i)];
        }
      }
    }
  }

  /** Pushing along a path moves flow antisymmetrically. */
  lemma {:induction false} ShiftAntisymmetric(path: seq<int>, d: int, x: int, y: int)
    ensures Shift(path, d, x, y) == -Shift(path, d, y, x)
    decreases |path|
  {
    if |path| >= 2 {
      ShiftAntisymmetric(path[1..], d, x, y);
    }
  }

  /** A vertex that is not on the path sees no change in its row. */
  lemma {:induction false} ShiftOffPath(path: seq<int>, d: int, x: int, y: int)
    requires forall i :: 0 <= i < |path| ==> path[i] != x
    ensures Shift(path, d, x, y) == 0
    decreases |path|
  {
    if |path| >= 2 {
      ShiftOffPath(path[1..], d, x, y);
    }
  }

  /** A cell that is neither a step of the path nor the reverse of one is
      not changed by pushing along it. */
  lemma {:induction false} ShiftOffEdges(path: seq<int>, d: int, x: int, y: int)
    requires AvoidsCell(path, x, y)
    ensures Shift(path, d, x, y) == 0
    decreases |path|
  {
    if |path| >= 2 {
      ShiftOffEdges(path[1..], d, x, y);
    }
  }

  /** On a path without repeated vertices, a cell either gains nothing or is
      a step of the path and gains exactly `d`. */
  lemma {:induction false} ShiftOnDistinct(path: seq<int>, d: int, x: int, y: int)
    requires Distinct(path) && d >= 0
    ensures Shift(path, d, x, y) <= 0 ||
            (Shift(path, d, x, y) == d && exists i :: 0 <= i < |path| - 1 && path[i] == x && path[i + 1] == y)
    decreases |path|
  {
    if |path| >= 2 {
      var tail := path[1..];
      assert Distinct(tail);
      ShiftOnDistinct(tail, d, x, y);
      if path[0] == x && path[1] == y {
        ShiftOffPath(tail, d, x, y);
        assert path[0] == x && path[0 + 1] == y;
      } else if Shift(tail, d, x, y) > 0 {
        var i :| 0 <= i < |tail| - 1 && tail[i] == x && tail[i + 1] == y;
        assert path[i + 1] == x && path[i + 1 + 1] == y;
      }
    }
  }

  /** Pushing `d` along a path from `path[0]` to its last vertex raises the
      net outflow of the first vertex by `d`, lowers that of the last by `d`
      and leaves every other vertex balanced. */
  lemma {:induction false} ShiftRowSum(path: seq<int>, d: int, x: int, n: nat)
    requires |path| >= 1 && InRange(path, n)
    ensures Sum(ShiftRow(path, d, x, n)) ==
            (if x == path[0] then d else 0) - (if x == path[|path| - 1] then d else 0)
    decreases |path|
  {
    var row := ShiftRow(path, d, x, n);
    if |path| == 1 {
      SumZero(row);
    } else {
      var p0, p1 := path[0], path[1];
      var tail := path[1..];
      ShiftRowSum(tail, d, x, n);
      var out := seq(n, y => if p0 == x && y == p1 then d else 0);
      var back := seq(n, y => if y == p0 && p1 == x then -d else 0);
      var step := seq(n, y requires 0 <= y < n => out[y] + back[y]);
      SumSingle(out, p1);
      SumSingle(back, p0);
      SumPointwise(out, back, step);
      SumPointwise(step, ShiftRow(tail, d, x, n), row);
    }
  }

  /** A walk that starts inside a set no positive-residual edge leaves stays
      inside it. */
  lemma {:induction false} ClosedSetTrapsPath(residual: array2<int>, s: set<int>, path: seq<int>)
    requires |path| >= 1 && path[0] in s
    requires PositivePath(residual, path) && Closed(residual, s)
    ensures forall i :: 0 <= i < |path| ==> path[i] in s
    decreases |path|
  {
    if |path| > 1 {
      var front := path[..|path| - 1];
      assert PositivePath(residual, front);
      ClosedSetTrapsPath(residual, s, front);
      var k := |path| - 2;
      assert path[k] in s && residual[path[k], path[k + 1]] > 0;
    }
  }

  /** With the source inside and the sink outside a closed set, the
      residual graph has no augmenting path. */
  lemma {:induction false} ClosedSetBlocksPaths(residual: array2<int>, s: set<int>, source: int, sink: int)
    requires source in s && sink !in s && Closed(residual, s)
    ensures !Augmentable(residual, source, sink)
  {
    forall path | AugmentingPath(residual, path, source, sink)
      ensures false
    {
      ClosedSetTrapsPath(residual, s, path);
    }
  }

  /** A row that gains the shift of a push along `path` gains `d` in total
      at the path's first vertex, loses `d` at its last, and keeps its
      total everywhere else. */
  lemma {:induction false} ShiftedRowSum(before: seq<int>, after: seq<int>, path: seq<int>, d: int, x: int)
    requires |before| == |after| && |path| >= 1 && InRange(path, |after|)
    requires forall y :: 0 <= y < |after| ==> after[y] == before[y] + Shift(path, d, x, y)
    ensures Sum(after) == Sum(before) + (if x == path[0] then d else 0) - (if x == path[|path| - 1] then d else 0)
  {
    ShiftRowSum(path, d, x, |after|);
    SumPointwise(before, ShiftRow(path, d, x, |after|), after);
  }
}
