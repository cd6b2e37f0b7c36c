/** The recycled grid's viewport queries: the column and row boundaries kept
    after a layout pass, the lookup of the data index under a point, and the
    data indices that a viewport rectangle shows. */
module Viewport {
  import opened Base
  import Placer

  /** Column boundaries: the first is the layout's x, every later one sits
      in the middle of the gap before its column. */
  function ColsPos(cols: seq<real>, x: real, padLeft: real, spacingX: real): (p: seq<real>)
    requires |cols| > 0
    ensures |p| == |cols|
  {
    seq(|cols|, i requires 0 <= i < |cols| =>
      if i == 0 then x else x + padLeft + Offset(cols, i, spacingX) - spacingX / 2.0)
  }

  /** Row boundaries, stored bottom to top: entry |rows| - 1 - i sits in the
      middle of the gap below row i (rows counted from the top). */
  function RowsPos(rows: seq<real>, top: real, padTop: real, spacingY: real): (p: seq<real>)
    requires |rows| > 0
    ensures |p| == |rows|
  {
    seq(|rows|, j requires 0 <= j < |rows| =>
      top - padTop - Offset(rows, |rows| - j, spacingY) + spacingY / 2.0)
  }

  /** The boundary loops as written: a running edge advanced by each slot
      and its gap, columns left to right, rows top to bottom. */
  method Boundaries(cols: seq<real>, rows: seq<real>, x: real, top: real,
                    padLeft: real, padTop: real, spacingX: real, spacingY: real)
    returns (colsPos: seq<real>, rowsPos: seq<real>)
    requires |cols| > 0 && |rows| > 0
    ensures colsPos == ColsPos(cols, x, padLeft, spacingX)
    ensures rowsPos == RowsPos(rows, top, padTop, spacingY)
  {
    var cp := [x];
    var last := x + padLeft + cols[0] + spacingX / 2.0;
    var i := 1;
    while i < |cols|
      invariant 1 <= i <= |cols| && |cp| == i
      invariant last == x + padLeft + Offset(cols, i, spacingX) - spacingX / 2.0
      invariant forall j :: 0 <= j < i ==> cp[j] == ColsPos(cols, x, padLeft, spacingX)[j]
    {
      cp := cp + [last];
      last := last + cols[i] + spacingX;
      i := i + 1;
    }
    colsPos := cp;

    var n := |rows|;
    var rp := seq(n, _ => 0.0);
    last := top - padTop - rows[0] - spacingY / 2.0;
    rp := rp[n - 1 := last];
    i := 1;
    while i < n
      invariant 1 <= i <= n && |rp| == n
      invariant last == top - padTop - Offset(rows, i, spacingY) + spacingY / 2.0
      invariant forall j :: n - i <= j < n ==> rp[j] == RowsPos(rows, top, padTop, spacingY)[j]
    {
      last := last - (spacingY + rows[i]);
      rp := rp[n - 1 - i := last];
      i := i + 1;
    }
    rowsPos := rp;
  }

  /** Every column boundary after the first lies half a gap left of its
      column's left edge and half a gap right of the previous column's right
      edge; likewise every row boundary below its row and above the next. */
  lemma BoundariesSplitGaps(cols: seq<real>, rows: seq<real>, x: real, top: real,
                            padLeft: real, padTop: real, spacingX: real, spacingY: real)
    requires |cols| > 0 && |rows| > 0
    ensures var p := ColsPos(cols, x, padLeft, spacingX);
            forall i :: 1 <= i < |cols| ==>
              p[i] + spacingX / 2.0 == x + padLeft + Offset(cols, i, spacingX)
              && p[i] - spacingX / 2.0 == x + padLeft + Offset(cols, i - 1, spacingX) + cols[i - 1]
    ensures var p := RowsPos(rows, top, padTop, spacingY);
            forall i :: 0 <= i < |rows| ==>
              p[|rows| - 1 - i] + spacingY / 2.0 == top - padTop - Offset(rows, i, spacingY) - rows[i]
  {
    var p := RowsPos(rows, top, padTop, spacingY);
    forall i | 0 <= i < |rows|
      ensures p[|rows| - 1 - i] + spacingY / 2.0 == top - padTop - Offset(rows, i, spacingY) - rows[i]
    {
      assert Offset(rows, i + 1, spacingY) == Offset(rows, i, spacingY) + rows[i] + spacingY;
    }
  }

  ghost predicate Ascending(p: seq<real>) {
    forall i, j :: 0 <= i <= j < |p| ==> p[i] <= p[j]
  }

  lemma {:induction false} AscendingFromSteps(p: seq<real>)
    requires forall i :: 0 <= i < |p| - 1 ==> p[i] <= p[i + 1]
    ensures Ascending(p)
  {
    forall i, j | 0 <= i <= j < |p|
      ensures p[i] <= p[j]
    {
      var k := i;
      while k < j
        invariant i <= k <= j && p[i] <= p[k]
      {
        k := k + 1;
      }
    }
  }

  /** With non-negative sizes, spacing and padding both boundary lists ascend. */
  lemma BoundariesAscend(cols: seq<real>, rows: seq<real>, x: real, top: real,
                         padLeft: real, padTop: real, spacingX: real, spacingY: real)
    requires |cols| > 0 && |rows| > 0
    requires padLeft >= 0.0 && spacingX >= 0.0 && spacingY >= 0.0
    requires forall i :: 0 <= i < |cols| ==> cols[i] >= 0.0
    requires forall i :: 0 <= i < |rows| ==> rows[i] >= 0.0
    ensures Ascending(ColsPos(cols, x, padLeft, spacingX))
    ensures Ascending(RowsPos(rows, top, padTop, spacingY))
  {
    var cp, rp := ColsPos(cols, x, padLeft, spacingX), RowsPos(rows, top, padTop, spacingY);
    forall i | 0 <= i < |cp| - 1
      ensures cp[i] <= cp[i + 1]
    {
      OffsetMonotone(cols, i, i + 1, spacingX);
    }
    AscendingFromSteps(cp);
    forall j | 0 <= j < |rp| - 1
      ensures rp[j] <= rp[j + 1]
    {
      OffsetMonotone(rows, |rows| - j - 1, |rows| - j, spacingY);
    }
    AscendingFromSteps(rp);
  }

  /** The scan loop: starting at boundary `j`, how far `v` reaches before
      the first boundary above it; the result is one less than that boundary. */
  function Reach(pos: seq<real>, v: real, j: nat): (ix: nat)
    requires 1 <= j <= |pos|
    ensures j - 1 <= ix < |pos|
    ensures forall i :: j <= i <= ix ==> pos[i] <= v
    ensures ix + 1 < |pos| ==> v < pos[ix + 1]
    decreases |pos| - j
  {
    if j == |pos| || v < pos[j] then j - 1 else Reach(pos, v, j + 1)
  }

  /** The lookup along one axis: at or past the last boundary gives the last
      slot, otherwise the number of boundaries after the first that `v`
      reaches in a row. */
  function Scan(pos: seq<real>, v: real): (ix: nat)
    requires |pos| > 0
    ensures ix < |pos|
    ensures v >= pos[|pos| - 1] ==> ix == |pos| - 1
    ensures v < pos[|pos| - 1] ==> forall i :: 1 <= i <= ix ==> pos[i] <= v
    ensures ix + 1 < |pos| ==> v < pos[ix + 1]
  {
    if v >= pos[|pos| - 1] then |pos| - 1 else Reach(pos, v, 1)
  }

  /** The slot whose interval between boundaries holds `v` (the first slot
      extends down and the last one up without bound). */
  ghost predicate Holds(pos: seq<real>, v: real, ix: nat) {
    ix < |pos| && (ix == 0 || pos[ix] <= v) && (ix + 1 == |pos| || v < pos[ix + 1])
  }

  /** On ascending boundaries the scan finds exactly the slot holding `v`. */
  lemma ScanLocates(pos: seq<real>, v: real, ix: nat)
    requires |pos| > 0 && Ascending(pos)
    ensures Scan(pos, v) == ix <==> Holds(pos, v, ix)
  {
    var s := Scan(pos, v);
    assert Holds(pos, v, s);
  }

  /** On ascending boundaries the scan is monotone. */
  lemma ScanMonotone(pos: seq<real>, v: real, w: real)
    requires |pos| > 0 && Ascending(pos) && v <= w
    ensures Scan(pos, v) <= Scan(pos, w)
  {
    var a, b := Scan(pos, v), Scan(pos, w);
    ScanLocates(pos, v, a);
    ScanLocates(pos, w, b);
  }

  /** The boundaries of the last layout pass; `None` before the first. The
      grid has as many columns and rows as boundaries. */
  datatype Bounds = Bounds(colsPos: seq<real>, rowsPos: seq<real>)

  predicate Ready(b: Option<Bounds>) {
    b.Some? && |b.value.colsPos| > 0 && |b.value.rowsPos| > 0
  }

  /** The data index under a point: column from the x scan, row from the y
      scan turned to count from the top. 0 when there are no boundaries. */
  function IndexAt(b: Option<Bounds>, x: real, y: real): (i: nat)
    ensures !Ready(b) ==> i == 0
    ensures Ready(b) ==> var ncols, nrows := |b.value.colsPos|, |b.value.rowsPos|;
      i < ncols * nrows
      && i % ncols == Scan(b.value.colsPos, x)
      && i / ncols == nrows - 1 - Scan(b.value.rowsPos, y)
  {
    if !Ready(b) then 0
    else
      var ncols, nrows := |b.value.colsPos|, |b.value.rowsPos|;
      var ix := Scan(b.value.colsPos, x);
      var iy := nrows - Scan(b.value.rowsPos, y) - 1;
      RowMajor(iy, ix, ncols);
      GridBound(iy, ix, ncols, nrows);
      iy * ncols + ix
  }

  /** `range(lo, hi)`. */
  function Range(lo: int, hi: int): (r: seq<int>)
    ensures |r| == if lo < hi then hi - lo else 0
    ensures forall k :: 0 <= k < |r| ==> r[k] == lo + k
  {
    if lo < hi then seq(hi - lo, k => lo + k) else []
  }

  lemma RangeHas(lo: int, hi: int, v: int)
    ensures v in Range(lo, hi) <==> lo <= v < hi
  {
    if lo <= v < hi {
      assert Range(lo, hi)[v - lo] == v;
    }
  }

  /** The rows of the visible block: for s in range(start, stop, step), the
      indices from s up to s + width, clipped to the n data items. */
  function Rows(start: int, stop: int, step: nat, n: nat, width: int): (r: seq<int>)
    requires step > 0 && start >= 0 && width <= step
    ensures forall k :: 0 <= k < |r| ==> start <= r[k] < n
    ensures forall j, k :: 0 <= j < k < |r| ==> r[j] < r[k]
    decreases stop - start
  {
    if start >= stop then []
    else
      var here := Range(Min(start, n), Min(n, start + width));
      var rest := Rows(start + step, stop, step, n, width);
      assert forall k :: 0 <= k < |here| ==> here[k] < start + step;
      here + rest
  }

  /** The data indices a viewport (x, y, w, h) shows: the block between the
      cells under its bottom-left, bottom-right and top-left corners. */
  function VisibleViews(b: Option<Bounds>, n: nat, x: real, y: real, w: real, h: real): (r: seq<int>)
    ensures forall k :: 0 <= k < |r| ==> 0 <= r[k] < n
    ensures forall j, k :: 0 <= j < k < |r| ==> r[j] < r[k]
    ensures !Ready(b) ==> r == []
  {
    if !Ready(b) then []
    else
      var ncols := |b.value.colsPos|;
      Block(IndexAt(b, x, y + h), IndexAt(b, x, y), IndexAt(b, x + w, y), ncols, n)
  }

  /** The loop over the block's rows: from the top-left cell tl down to the
      bottom-left cell bl, each row as wide as the span from bl to br. */
  function Block(tl: nat, bl: nat, br: nat, ncols: nat, n: nat): (r: seq<int>)
    requires ncols > 0 && bl / ncols == br / ncols
    ensures forall k :: 0 <= k < |r| ==> 0 <= r[k] < n
    ensures forall j, k :: 0 <= j < k < |r| ==> r[j] < r[k]
  {
    SameRowWidth(bl, br, ncols);
    Rows(tl, bl + 1, ncols, n, br - bl + 1)
  }

  /** Two cell numbers in the same row are at most a row apart. */
  lemma SameRowWidth(bl: nat, br: nat, ncols: nat)
    requires ncols > 0 && bl / ncols == br / ncols
    ensures br - bl + 1 <= ncols
    ensures br - bl == br % ncols - bl % ncols
  {
    var q := bl / ncols;
    assert bl == q * ncols + bl % ncols && br == q * ncols + br % ncols;
  }

  /** Membership in the visible block, in row and column terms: the rows of
      the block start at start's row, their first column is start's column,
      and row q is in the block when q's cell in that column is before `stop`. */
  lemma {:induction false} RowsMembers(start: nat, stop: int, step: nat, n: nat, width: int, i: nat)
    requires step > 0 && width <= step - start % step
    ensures var q0, c0 := start / step, start % step;
      i in Rows(start, stop, step, n, width) <==>
        i < n && q0 <= i / step && (i / step) * step + c0 < stop && c0 <= i % step < c0 + width
    decreases stop - start
  {
    var q0, c0 := start / step, start % step;
    assert start == q0 * step + c0;
    RowMajor(q0 + 1, c0, step);
    assert start + step == (q0 + 1) * step + c0;
    InWindow(q0, c0, width, step, i);
    RangeHas(Min(start, n), Min(n, start + width), i);
    if start < stop {
      RowsMembers(start + step, stop, step, n, width, i);
      if i / step == q0 {
        assert (i / step) * step + c0 == start;
      } else if i / step > q0 {
        assert i / step >= q0 + 1;
        MulMonotone(q0 + 1, i / step, step);
      }
    } else if i / step >= q0 {
      MulMonotone(q0, i / step, step);
    }
  }

  lemma MulMonotone(a: nat, b: nat, c: nat)
    requires a <= b
    ensures a * c <= b * c
  {
  }

  /** A window of `width` columns starting at column c0 of row q. */
  lemma InWindow(q: nat, c0: nat, width: int, ncols: nat, i: nat)
    requires ncols > 0 && c0 + width <= ncols && c0 < ncols
    ensures (q * ncols + c0 <= i < q * ncols + c0 + width) <==> (i / ncols == q && c0 <= i % ncols < c0 + width)
  {
    if q * ncols + c0 <= i < q * ncols + c0 + width {
      var d := i - q * ncols;
      RowMajor(q, d, ncols);
    }
    assert i == (i / ncols) * ncols + i % ncols;
  }

  lemma MulCancel(a: nat, b: nat, c: nat)
    requires c > 0
    ensures a * c <= b * c <==> a <= b
  {
    if a > b {
      MulMonotone(b + 1, a, c);
    } else {
      MulMonotone(a, b, c);
    }
  }

  /** The block of cells a viewport covers: columns from the one under its
      left edge to the one under its right edge, rows (counted from the top)
      from the one under its top edge to the one under its bottom edge. */
  ghost predicate InBlock(b: Bounds, x: real, y: real, w: real, h: real, i: nat)
    requires |b.colsPos| > 0 && |b.rowsPos| > 0
  {
    var ncols, nrows := |b.colsPos|, |b.rowsPos|;
    Scan(b.colsPos, x) <= i % ncols <= Scan(b.colsPos, x + w)
    && nrows - 1 - Scan(b.rowsPos, y + h) <= i / ncols <= nrows - 1 - Scan(b.rowsPos, y)
  }

  /** The visible indices are exactly the data indices inside the block. */
  lemma VisibleIsBlock(b: Option<Bounds>, n: nat, x: real, y: real, w: real, h: real, i: nat)
    requires Ready(b)
    ensures i in VisibleViews(b, n, x, y, w, h) <==> i < n && InBlock(b.value, x, y, w, h, i)
  {
    var ncols, nrows := |b.value.colsPos|, |b.value.rowsPos|;
    var left, right := Scan(b.value.colsPos, x), Scan(b.value.colsPos, x + w);
    var bottom, top := nrows - 1 - Scan(b.value.rowsPos, y), nrows - 1 - Scan(b.value.rowsPos, y + h);
    var bl, br, tl := Corners(b, x, y, w, h);
    assert VisibleViews(b, n, x, y, w, h) == Block(tl, bl, br, ncols, n);
    BlockFromCorners(tl, bl, br, ncols, n, i);
    assert InBlock(b.value, x, y, w, h, i) <==> left <= i % ncols <= right && top <= i / ncols <= bottom;
  }

  /** The cells under the bottom-left, bottom-right and top-left corners of
      a viewport, in row and column terms, and the visible rows they span. */
  lemma Corners(b: Option<Bounds>, x: real, y: real, w: real, h: real) returns (bl: nat, br: nat, tl: nat)
    requires Ready(b)
    ensures var ncols, nrows := |b.value.colsPos|, |b.value.rowsPos|;
      bl == IndexAt(b, x, y) && br == IndexAt(b, x + w, y) && tl == IndexAt(b, x, y + h)
      && bl % ncols == Scan(b.value.colsPos, x) && tl % ncols == Scan(b.value.colsPos, x)
      && br % ncols == Scan(b.value.colsPos, x + w)
      && bl / ncols == nrows - 1 - Scan(b.value.rowsPos, y) && br / ncols == bl / ncols
      && tl / ncols == nrows - 1 - Scan(b.value.rowsPos, y + h)
      && br - bl < ncols
  {
    bl, br, tl := IndexAt(b, x, y), IndexAt(b, x + w, y), IndexAt(b, x, y + h);
    SameRowWidth(bl, br, |b.value.colsPos|);
  }

  /** The integer core of `VisibleIsBlock`: the block spanned by a top-left,
      a bottom-left and a bottom-right cell number. */
  lemma BlockFromCorners(tl: nat, bl: nat, br: nat, ncols: nat, n: nat, i: nat)
    requires ncols > 0 && tl % ncols == bl % ncols && bl / ncols == br / ncols && br - bl < ncols
    ensures i in Block(tl, bl, br, ncols, n) <==>
              i < n && tl / ncols <= i / ncols <= bl / ncols && bl % ncols <= i % ncols <= br % ncols
  {
    SameRowWidth(bl, br, ncols);
    var c0, q, qb := tl % ncols, i / ncols, bl / ncols;
    RowsMembers(tl, bl + 1, ncols, n, br - bl + 1, i);
    assert bl == qb * ncols + c0;
    MulCancel(q, qb, ncols);
    assert q * ncols + c0 < bl + 1 <==> q <= qb;
    assert c0 + (br - bl + 1) == br % ncols + 1;
  }

  /** On ascending boundaries, the data cell under any point of the viewport
      is among the visible indices. */
  lemma PointIsVisible(b: Option<Bounds>, n: nat, x: real, y: real, w: real, h: real, px: real, py: real)
    requires Ready(b) && Ascending(b.value.colsPos) && Ascending(b.value.rowsPos)
    requires x <= px <= x + w && y <= py <= y + h
    requires IndexAt(b, px, py) < n
    ensures IndexAt(b, px, py) in VisibleViews(b, n, x, y, w, h)
  {
    ScanMonotone(b.value.colsPos, x, px);
    ScanMonotone(b.value.colsPos, px, x + w);
    ScanMonotone(b.value.rowsPos, y, py);
    ScanMonotone(b.value.rowsPos, py, y + h);
    VisibleIsBlock(b, n, x, y, w, h, IndexAt(b, px, py));
  }

  /** A point inside column c, from its left edge up to its right edge, scans
      to column c. */
  lemma ColumnUnderPoint(cols: seq<real>, x: real, padLeft: real, spacingX: real, c: nat, px: real)
    requires c < |cols| && padLeft >= 0.0 && spacingX >= 0.0
    requires forall i :: 0 <= i < |cols| ==> cols[i] >= 0.0
    requires x + padLeft + Offset(cols, c, spacingX) <= px < x + padLeft + Offset(cols, c, spacingX) + cols[c]
    ensures Scan(ColsPos(cols, x, padLeft, spacingX), px) == c
  {
    var cp := ColsPos(cols, x, padLeft, spacingX);
    BoundariesAscend(cols, [0.0], x, 0.0, padLeft, 0.0, spacingX, 0.0);
    if c > 0 {
      OffsetMonotone(cols, 0, c, spacingX);
    }
    if c + 1 < |cols| {
      assert Offset(cols, c + 1, spacingX) == Offset(cols, c, spacingX) + cols[c] + spacingX;
    }
    assert Holds(cp, px, c);
    ScanLocates(cp, px, c);
  }

  /** A point inside row r (counted from the top), from its bottom edge up to
      its top edge, scans to boundary |rows| - 1 - r. */
  lemma RowUnderPoint(rows: seq<real>, top: real, padTop: real, spacingY: real, r: nat, py: real)
    requires r < |rows| && spacingY >= 0.0
    requires forall i :: 0 <= i < |rows| ==> rows[i] >= 0.0
    requires top - padTop - Offset(rows, r, spacingY) - rows[r] <= py < top - padTop - Offset(rows, r, spacingY)
    ensures Scan(RowsPos(rows, top, padTop, spacingY), py) == |rows| - 1 - r
  {
    var rp := RowsPos(rows, top, padTop, spacingY);
    BoundariesAscend([0.0], rows, 0.0, top, 0.0, padTop, 0.0, spacingY);
    var j := |rows| - 1 - r;
    assert Offset(rows, r + 1, spacingY) == Offset(rows, r, spacingY) + rows[r] + spacingY;
    assert rp[j] == top - padTop - Offset(rows, r + 1, spacingY) + spacingY / 2.0;
    if j + 1 < |rows| {
      assert |rows| - (j + 1) == r;
      assert rp[j + 1] == top - padTop - Offset(rows, r, spacingY) + spacingY / 2.0;
    }
    assert Holds(rp, py, j);
    ScanLocates(rp, py, j);
  }

  /** The lookup inverts the placement: a point inside flow cell k, as the
      layout pass places it from the padded top-left corner, maps back to
      index k under the boundaries of the same slots. */
  lemma CellUnderPoint(cols: seq<real>, rows: seq<real>, x: real, top: real, padLeft: real, padTop: real,
                       spacingX: real, spacingY: real, count: nat, k: nat, px: real, py: real)
    requires |cols| > 0 && |rows| > 0 && k < |cols| * |rows|
    requires padLeft >= 0.0 && spacingX >= 0.0 && spacingY >= 0.0
    requires forall i :: 0 <= i < |cols| ==> cols[i] >= 0.0
    requires forall i :: 0 <= i < |rows| ==> rows[i] >= 0.0
    requires var p := Placer.Cell(count, cols, rows, x + padLeft, top - padTop, spacingX, spacingY, k);
      p.x <= px < p.x + p.width && p.y <= py < p.y + p.height
    ensures IndexAt(Some(Bounds(ColsPos(cols, x, padLeft, spacingX), RowsPos(rows, top, padTop, spacingY))), px, py) == k
  {
    var r, c := CellRowColumn(k, |cols|, |rows|);
    Placer.CellAt(count, cols, rows, x + padLeft, top - padTop, spacingX, spacingY, r, c, k);
    ColumnUnderPoint(cols, x, padLeft, spacingX, c, px);
    RowUnderPoint(rows, top, padTop, spacingY, r, py);
    var b := Some(Bounds(ColsPos(cols, x, padLeft, spacingX), RowsPos(rows, top, padTop, spacingY)));
    SameCell(IndexAt(b, px, py), k, |cols|);
  }

  /** Every data item whose placed cell meets the viewport is visible: if
      some point lies inside the k-th of the triples `ps` a pass over n
      items places, and inside the viewport, k is among the visible indices
      under the boundaries `b` of the same slots. */
  lemma CellIsVisible(cols: seq<real>, rows: seq<real>, x: real, top: real, padLeft: real, padTop: real,
                      spacingX: real, spacingY: real, n: nat, k: nat, ps: seq<Placer.Placement>, b: Bounds,
                      vx: real, vy: real, w: real, h: real, px: real, py: real)
    requires |cols| > 0 && |rows| > 0 && k < n <= |cols| * |rows|
    requires padLeft >= 0.0 && spacingX >= 0.0 && spacingY >= 0.0
    requires forall i :: 0 <= i < |cols| ==> cols[i] >= 0.0
    requires forall i :: 0 <= i < |rows| ==> rows[i] >= 0.0
    requires ps == Placer.Placements(n, cols, rows, x + padLeft, top - padTop, spacingX, spacingY)
    requires b == Bounds(ColsPos(cols, x, padLeft, spacingX), RowsPos(rows, top, padTop, spacingY))
    requires k < |ps| && ps[k].x <= px < ps[k].x + ps[k].width && ps[k].y <= py < ps[k].y + ps[k].height
    requires vx <= px <= vx + w && vy <= py <= vy + h
    ensures k in VisibleViews(Some(b), n, vx, vy, w, h)
  {
    Placer.PlacementsAt(n, cols, rows, x + padLeft, top - padTop, spacingX, spacingY, k);
    CellUnderPoint(cols, rows, x, top, padLeft, padTop, spacingX, spacingY, n, k, px, py);
    BoundariesAscend(cols, rows, x, top, padLeft, padTop, spacingX, spacingY);
    PointIsVisible(Some(b), n, vx, vy, w, h, px, py);
  }
}
