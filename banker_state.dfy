/**
 * The data the deadlock simulator works on: one snapshot of a resource-allocation
 * system (live process identifiers, the allocation and maximum-claim matrices and the
 * available vector), together with the vector arithmetic the safety check and the
 * recovery loop perform on it.
 */
module BankerState {

  /** One row per process, one column per resource type. */
  type Matrix = seq<seq<int>>

  /** The identifiers `0 .. n-1`, as `list(range(n))` builds them. */
  function Range(n: nat): (r: seq<int>)
    ensures |r| == n
    ensures forall k :: 0 <= k < n ==> r[k] == k
  {
    seq(n, k => k)
  }

  /** No element occurs twice. */
  predicate Distinct<T(==)>(s: seq<T>) {
    forall a, b :: 0 <= a < b < |s| ==> s[a] != s[b]
  }

  /** Every row has exactly `m` columns. */
  predicate Rectangular(a: Matrix, m: nat) {
    forall i :: 0 <= i < |a| ==> |a[i]| == m
  }

  /** Every entry is a non-negative number of units. */
  predicate NonNegative(a: Matrix) {
    forall i, j :: 0 <= i < |a| && 0 <= j < |a[i]| ==> a[i][j] >= 0
  }

  /**
   * A snapshot of the system. Row `i` of `alloc` and `maxm` belongs to the process
   * `processes[i]`; `avail` holds the free units of each resource type.
   */
  datatype Snapshot = Snapshot(processes: seq<int>, alloc: Matrix, maxm: Matrix, avail: seq<int>)
  {
    /** The shape the input form guarantees: n rows in both matrices, each with m = |avail| columns. */
    predicate Valid() {
      && |alloc| == |processes|
      && |maxm| == |processes|
      && Rectangular(alloc, |avail|)
      && Rectangular(maxm, |avail|)
    }

    /** Number of live processes. */
    function N(): nat { |processes| }

    /** Number of resource types. */
    function M(): nat { |avail| }
  }

  /** Component-wise sum of two vectors of the same length. */
  function VecAdd(a: seq<int>, b: seq<int>): (r: seq<int>)
    requires |a| == |b|
    ensures |r| == |a|
    ensures forall j :: 0 <= j < |a| ==> r[j] == a[j] + b[j]
  {
    seq(|a|, j requires 0 <= j < |a| => a[j] + b[j])
  }

  /** `need[j] <= work[j]` for every resource j: the demand can be met from `work`. */
  predicate Fits(need: seq<int>, work: seq<int>)
    requires |need| == |work|
  {
    forall j :: 0 <= j < |work| ==> need[j] <= work[j]
  }

  /** Units of resource `j` held by the processes at the given rows, summed in order. */
  function RowsSum(alloc: Matrix, rows: seq<nat>, j: nat): (sum: int)
    requires forall k :: 0 <= k < |rows| ==> rows[k] < |alloc| && j < |alloc[rows[k]]|
    decreases |rows|
  {
    if rows == [] then 0
    else RowsSum(alloc, rows[..|rows| - 1], j) + alloc[rows[|rows| - 1]][j]
  }

  /** The free units after the processes at `rows` have finished and given back their allocation. */
  function Released(avail: seq<int>, alloc: Matrix, rows: seq<nat>): (r: seq<int>)
    requires Rectangular(alloc, |avail|)
    requires forall k :: 0 <= k < |rows| ==> rows[k] < |alloc|
    ensures |r| == |avail|
  {
    seq(|avail|, j requires 0 <= j < |avail| => avail[j] + RowsSum(alloc, rows, j))
  }

  /** Units of resource `j` held by all processes of the matrix. */
  function Held(alloc: Matrix, j: nat): (held: int)
    requires forall i :: 0 <= i < |alloc| ==> j < |alloc[i]|
  {
    if alloc == [] then 0
    else Held(alloc[..|alloc| - 1], j) + alloc[|alloc| - 1][j]
  }

  /** The units held by all processes are the row sum over every row index, in order. */
  lemma {:induction false} HeldIsRowsSum(alloc: Matrix, j: nat)
    requires forall i :: 0 <= i < |alloc| ==> j < |alloc[i]|
    ensures Held(alloc, j) == RowsSum(alloc, seq(|alloc|, i => i), j)
  {
    if alloc != [] {
      var n := |alloc|;
      var front := alloc[..n - 1];
      HeldIsRowsSum(front, j);
      assert seq(n, i => i)[..n - 1] == seq(n - 1, i => i);
      RowsSumPrefix(alloc, front, seq(n - 1, i => i), j);
    }
  }

  /** Extra rows after the ones summed do not change a row sum. */
  lemma {:induction false} RowsSumPrefix(alloc: Matrix, front: Matrix, rows: seq<nat>, j: nat)
    requires |front| <= |alloc| && front == alloc[..|front|]
    requires forall k :: 0 <= k < |rows| ==> rows[k] < |front| && j < |front[rows[k]]|
    ensures RowsSum(alloc, rows, j) == RowsSum(front, rows, j)
    decreases |rows|
  {
    if rows != [] {
      RowsSumPrefix(alloc, front, rows[..|rows| - 1], j);
    }
  }

  /** Releasing one more process adds its allocation row to the free units. */
  lemma ReleasedSnoc(avail: seq<int>, alloc: Matrix, rows: seq<nat>, i: nat)
    requires Rectangular(alloc, |avail|)
    requires forall k :: 0 <= k < |rows| ==> rows[k] < |alloc|
    requires i < |alloc|
    ensures Released(avail, alloc, rows + [i]) == VecAdd(Released(avail, alloc, rows), alloc[i])
  {
    assert (rows + [i])[..|rows|] == rows;
  }

  /** Summing over a concatenation is summing over each part. */
  lemma {:induction false} RowsSumConcat(alloc: Matrix, xs: seq<nat>, ys: seq<nat>, j: nat)
    requires forall k :: 0 <= k < |xs| ==> xs[k] < |alloc| && j < |alloc[xs[k]]|
    requires forall k :: 0 <= k < |ys| ==> ys[k] < |alloc| && j < |alloc[ys[k]]|
    ensures RowsSum(alloc, xs + ys, j) == RowsSum(alloc, xs, j) + RowsSum(alloc, ys, j)
    decreases |ys|
  {
    if ys == [] {
      assert xs + ys == xs;
    } else {
      var last := |ys| - 1;
      assert (xs + ys)[..|xs + ys| - 1] == xs + ys[..last];
      RowsSumConcat(alloc, xs, ys[..last], j);
    }
  }

  /** With non-negative allocations, a sum over rows is never negative. */
  lemma {:induction false} RowsSumNonNegative(alloc: Matrix, rows: seq<nat>, j: nat)
    requires NonNegative(alloc)
    requires forall k :: 0 <= k < |rows| ==> rows[k] < |alloc| && j < |alloc[rows[k]]|
    ensures RowsSum(alloc, rows, j) >= 0
    decreases |rows|
  {
    if rows != [] {
      RowsSumNonNegative(alloc, rows[..|rows| - 1], j);
    }
  }

  /** Taking row `ys[q]` out of a sum subtracts exactly that row's units. */
  lemma RowsSumRemove(alloc: Matrix, ys: seq<nat>, q: nat, j: nat)
    requires forall k :: 0 <= k < |ys| ==> ys[k] < |alloc| && j < |alloc[ys[k]]|
    requires q < |ys|
    ensures RowsSum(alloc, ys, j) == RowsSum(alloc, ys[..q] + ys[q + 1..], j) + alloc[ys[q]][j]
  {
    assert ys == ys[..q] + [ys[q]] + ys[q + 1..];
    RowsSumConcat(alloc, ys[..q] + [ys[q]], ys[q + 1..], j);
    RowsSumConcat(alloc, ys[..q], [ys[q]], j);
    RowsSumConcat(alloc, ys[..q], ys[q + 1..], j);
    assert [ys[q]][..0] == [];
  }

  /** Removing one element of a sequence without duplicates keeps every other element, once. */
  lemma RemoveKeepsOthers<T>(ys: seq<T>, q: nat)
    requires Distinct(ys) && q < |ys|
    ensures Distinct(ys[..q] + ys[q + 1..])
    ensures forall r :: 0 <= r < |ys| && r != q ==> ys[r] in ys[..q] + ys[q + 1..]
  {
    var ys' := ys[..q] + ys[q + 1..];
    forall a, b | 0 <= a < b < |ys'| ensures ys'[a] != ys'[b] {
      var a' := if a < q then a else a + 1;
      var b' := if b < q then b else b + 1;
      assert ys'[a] == ys[a'] && ys'[b] == ys[b'];
    }
    forall r | 0 <= r < |ys| && r != q ensures ys[r] in ys' {
      if r < q { assert ys'[r] == ys[r]; } else { assert ys'[r - 1] == ys[r]; }
    }
  }

  /**
   * With non-negative allocations, the units held by a set of distinct rows are at most
   * those held by any larger set of distinct rows, whatever the order of either.
   */
  lemma {:induction false} RowsSumSubset(alloc: Matrix, xs: seq<nat>, ys: seq<nat>, j: nat)
    requires NonNegative(alloc)
    requires forall k :: 0 <= k < |ys| ==> ys[k] < |alloc| && j < |alloc[ys[k]]|
    requires Distinct(xs) && Distinct(ys)
    requires forall k :: 0 <= k < |xs| ==> xs[k] in ys
    ensures forall k :: 0 <= k < |xs| ==> xs[k] < |alloc| && j < |alloc[xs[k]]|
    ensures RowsSum(alloc, xs, j) <= RowsSum(alloc, ys, j)
    decreases |xs|
  {
    if xs == [] {
      RowsSumNonNegative(alloc, ys, j);
    } else {
      var x := xs[|xs| - 1];
      var xs' := xs[..|xs| - 1];
      var q :| 0 <= q < |ys| && ys[q] == x;
      var ys' := ys[..q] + ys[q + 1..];
      RemoveKeepsOthers(ys, q);
      forall k | 0 <= k < |xs'| ensures xs'[k] in ys' {
        assert xs'[k] != x;
        var r :| 0 <= r < |ys| && ys[r] == xs'[k];
      }
      RowsSumSubset(alloc, xs', ys', j);
      RowsSumRemove(alloc, ys, q, j);
    }
  }
}
