/** Sums over rows and columns of the dense `n x n` matrices. */
module Sums {

  /** `sum(s)`, accumulated left to right as Python's `sum` does. */
  function Sum(s: seq<int>): (r: int)
  {
    if s == [] then 0 else Sum(s[..|s| - 1]) + s[|s| - 1]
  }

  /** Row `x` of a square matrix, as a sequence. */
  ghost function Row(m: array2<int>, x: int): (r: seq<int>)
    requires 0 <= x < m.Length0
    reads m
    ensures |r| == m.Length1
    ensures forall y :: 0 <= y < m.Length1 ==> r[y] == m[x, y]
  {
    seq(m.Length1, y requires 0 <= y < m.Length1 reads m => m[x, y])
  }

  /** Column `y` of a matrix, as a sequence. */
  ghost function Column(m: array2<int>, y: int): (r: seq<int>)
    requires 0 <= y < m.Length1
    reads m
    ensures |r| == m.Length0
    ensures forall x :: 0 <= x < m.Length0 ==> r[x] == m[x, y]
  {
    seq(m.Length0, x requires 0 <= x < m.Length0 reads m => m[x, y])
  }

  /** Replacing one entry changes the sum by the difference. */
  lemma {:induction false} SumUpdate(s: seq<int>, i: int, v: int)
    requires 0 <= i < |s|
    ensures Sum(s[i := v]) == Sum(s) - s[i] + v
    decreases |s|
  {
    var t := s[i := v];
    if i < |s| - 1 {
      assert t[..|t| - 1] == s[..|s| - 1][i := v];
      SumUpdate(s[..|s| - 1], i, v);
    } else {
      assert t[..|t| - 1] == s[..|s| - 1];
    }
  }

  /** Summing is additive over pointwise sums. */
  lemma {:induction false} SumPointwise(a: seq<int>, b: seq<int>, c: seq<int>)
    requires |a| == |b| == |c|
    requires forall i :: 0 <= i < |c| ==> c[i] == a[i] + b[i]
    ensures Sum(c) == Sum(a) + Sum(b)
    decreases |c|
  {
    if c != [] {
      var k := |c| - 1;
      SumPointwise(a[..k], b[..k], c[..k]);
    }
  }

  /** A sequence that is zero except at `k` sums to its entry at `k`. */
  lemma {:induction false} SumSingle(s: seq<int>, k: int)
    requires 0 <= k < |s|
    requires forall i :: 0 <= i < |s| && i != k ==> s[i] == 0
    ensures Sum(s) == s[k]
    decreases |s|
  {
    var m := |s| - 1;
    if k < m {
      SumSingle(s[..m], k);
    } else {
      SumZero(s[..m]);
    }
  }

  /** An all-zero sequence sums to zero. */
  lemma {:induction false} SumZero(s: seq<int>)
    requires forall i :: 0 <= i < |s| ==> s[i] == 0
    ensures Sum(s) == 0
    decreases |s|
  {
    if s != [] {
      SumZero(s[..|s| - 1]);
    }
  }

  /** A sum that is positive has a positive entry. */
  lemma {:induction false} PositiveEntry(s: seq<int>) returns (i: int)
    requires Sum(s) > 0
    ensures 0 <= i < |s| && s[i] > 0
    decreases |s|
  {
    var m := |s| - 1;
    if s[m] > 0 {
      i := m;
    } else {
      i := PositiveEntry(s[..m]);
    }
  }

  /** A sequence of non-negative entries has a non-negative sum. */
  lemma {:induction false} SumNonNegative(s: seq<int>)
    requires forall i :: 0 <= i < |s| ==> s[i] >= 0
    ensures Sum(s) >= 0
    decreases |s|
  {
    if s != [] {
      SumNonNegative(s[..|s| - 1]);
    }
  }

  /** Appending an entry adds it to the sum. */
  lemma SumAppend(s: seq<int>, x: int)
    ensures Sum(s + [x]) == Sum(s) + x
  {
    assert (s + [x])[..|s|] == s;
  }

  /** A sequence that is zero except at `0` and at `k` sums to those two
      entries. */
  lemma SumOfTwo(s: seq<int>, k: int)
    requires 0 < k < |s|
    requires forall i :: 0 < i < |s| && i != k ==> s[i] == 0
    ensures Sum(s) == s[0] + s[k]
  {
    var first := seq(|s|, i requires 0 <= i < |s| => if i == 0 then s[0] else 0);
    var rest := seq(|s|, i requires 0 <= i < |s| => if i == 0 then 0 else s[i]);
    SumSingle(first, 0);
    SumSingle(rest, k);
    SumPointwise(first, rest, s);
  }
}
