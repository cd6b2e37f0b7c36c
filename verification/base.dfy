/** Shared vocabulary of the grid layout model: optional values, Python
    truthiness of optional numbers, sums over lengths and the None-tolerant
    maximum used by the sizing passes. */
module Base {

  /** An optional value; `None` plays the role of Python's `None`. */
  datatype Option<+T> = None | Some(value: T)

  /** Python truthiness of an optional number: `None` and `0` are falsy. */
  predicate Truthy(o: Option<real>) {
    o.Some? && o.value != 0.0
  }

  function Max(a: real, b: real): real {
    if a >= b then a else b
  }

  function Min(a: int, b: int): int {
    if a <= b then a else b
  }

  /** Sum of a sequence of lengths, folded from the left as Python's `sum`. */
  function Sum(s: seq<real>): real {
    if |s| == 0 then 0.0 else Sum(s[..|s| - 1]) + s[|s| - 1]
  }

  /** Distance covered by the first `n` slots when every slot is followed by
      a gap of `gap`: the sum over j < n of (s[j] + gap). */
  function Offset(s: seq<real>, n: nat, gap: real): real
    requires n <= |s|
  {
    if n == 0 then 0.0 else Offset(s, n - 1, gap) + s[n - 1] + gap
  }

  /** The maximum of an optional current value and a new one (`nmax` with
      its `None` arguments dropped). */
  function NMax(a: Option<real>, b: real): (r: real)
    ensures r >= b
    ensures a.Some? ==> r >= a.value
    ensures r == b || a == Some(r)
  {
    if a.None? || a.value <= b then b else a.value
  }

  lemma {:induction false} SumMonotone(s: seq<real>, t: seq<real>)
    requires |s| == |t|
    requires forall i :: 0 <= i < |s| ==> s[i] <= t[i]
    ensures Sum(s) <= Sum(t)
  {
    if |s| > 0 {
      SumMonotone(s[..|s| - 1], t[..|t| - 1]);
    }
  }

  lemma {:induction false} SumOfNonNegative(s: seq<real>)
    requires forall i :: 0 <= i < |s| ==> s[i] >= 0.0
    ensures Sum(s) >= 0.0
  {
    if |s| > 0 {
      SumOfNonNegative(s[..|s| - 1]);
    }
  }

  /** Offset grows with the number of slots when lengths and gap are not negative. */
  lemma {:induction false} OffsetMonotone(s: seq<real>, m: nat, n: nat, gap: real)
    requires m <= n <= |s|
    requires gap >= 0.0
    requires forall i :: 0 <= i < |s| ==> s[i] >= 0.0
    ensures Offset(s, m, gap) <= Offset(s, n, gap)
    decreases n
  {
    if m < n {
      OffsetMonotone(s, m, n - 1, gap);
    }
  }

  lemma MulAtLeast(a: int, n: int)
    requires a >= 1 && n > 0
    ensures a * n >= n
  {
  }

  /** Row-major cell numbering: cell (r, c) of a grid with `ncols` columns
      is number r * ncols + c, and division recovers the pair. */
  lemma RowMajor(r: nat, c: nat, ncols: nat)
    requires c < ncols
    ensures (r * ncols + c) / ncols == r
    ensures (r * ncols + c) % ncols == c
  {
    var k := r * ncols + c;
    var q, m := k / ncols, k % ncols;
    assert k == q * ncols + m;
    var d := q - r;
    assert d * ncols == q * ncols - r * ncols;
    assert d * ncols == c - m;
    if d >= 1 {
      MulAtLeast(d, ncols);
    } else if d <= -1 {
      MulAtLeast(-d, ncols);
    }
    assert d == 0;
  }

  /** A cell number below ncols * nrows names a row below nrows. */
  lemma CellInGrid(k: nat, ncols: nat, nrows: nat)
    requires ncols > 0 && k < ncols * nrows
    ensures k / ncols < nrows
  {
    var q := k / ncols;
    assert q * ncols <= k;
  }

  lemma GridBound(r: nat, c: nat, ncols: nat, nrows: nat)
    requires r < nrows && c < ncols
    ensures r * ncols + c < ncols * nrows
  {
    assert (r + 1) * ncols <= nrows * ncols;
  }

  /** Row-major order: a later cell is in a later row, or in the same row
      and a later column. */
  lemma RowMajorOrder(j: nat, k: nat, ncols: nat)
    requires ncols > 0 && j < k
    ensures j / ncols <= k / ncols
    ensures j / ncols == k / ncols ==> j % ncols < k % ncols
  {
    var qj, mj, qk, mk := j / ncols, j % ncols, k / ncols, k % ncols;
    assert j == qj * ncols + mj && k == qk * ncols + mk;
    var d := qj - qk;
    assert d * ncols == qj * ncols - qk * ncols;
    if d >= 1 {
      MulAtLeast(d, ncols);
    }
  }

  /** A cell number is fixed by its row and column. */
  lemma SameCell(i: nat, k: nat, ncols: nat)
    requires ncols > 0 && i / ncols == k / ncols && i % ncols == k % ncols
    ensures i == k
  {
    assert i == (i / ncols) * ncols + i % ncols;
    assert k == (k / ncols) * ncols + k % ncols;
  }

  /** The row and column of a cell number inside the grid. */
  lemma CellRowColumn(k: nat, ncols: nat, nrows: nat) returns (r: nat, c: nat)
    requires ncols > 0 && k < ncols * nrows
    ensures r == k / ncols && c == k % ncols && r < nrows && c < ncols && k == r * ncols + c
  {
    CellInGrid(k, ncols, nrows);
    r, c := k / ncols, k % ncols;
  }
}
