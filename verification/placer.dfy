/** Flow placement: the generator that walks the grid row by row, top to
    bottom and left to right, handing out (children index, position, size)
    for each cell until the items run out, and the write-back of a cell's
    size onto an item, which touches only the axes the item stretches on. */
module Placer {
  import opened Base

  /** One emitted triple: the index into the stored children list, the
      cell's bottom-left corner and the cell's size. */
  datatype Placement = Placement(index: int, x: real, y: real, width: real, height: real)

  /** The placement of flow cell k: column k % ncols, row k / ncols. `left`
      is the padded left edge, `top` the padded top edge; the vertical axis
      points up, so a row's y is its top minus its height. */
  function Cell(count: nat, cols: seq<real>, rows: seq<real>, left: real, top: real,
                spacingX: real, spacingY: real, k: nat): (p: Placement)
    requires |cols| > 0 && k < |cols| * |rows|
    ensures p.index == count - 1 - k
    ensures k % |cols| == 0 ==> p.x == left
    ensures k < |cols| ==> p.y + p.height == top
  {
    CellInGrid(k, |cols|, |rows|);
    var r, c := k / |cols|, k % |cols|;
    Placement(count - 1 - k,
              left + Offset(cols, c, spacingX),
              top - Offset(rows, r, spacingY) - rows[r],
              cols[c], rows[r])
  }

  /** Consecutive cells follow the loop's steps: within row r the next
      column starts one column width plus the spacing further right, and the
      first cell of row r + 1 starts at the left edge, with its top one
      spacing below the bottom of row r. */
  lemma CellSteps(count: nat, cols: seq<real>, rows: seq<real>, left: real, top: real,
                  spacingX: real, spacingY: real, r: nat, c: nat)
    requires c < |cols| && r < |rows|
    ensures var n := |cols|;
      r * n + c < n * |rows|
      && var p := Cell(count, cols, rows, left, top, spacingX, spacingY, r * n + c);
      (c + 1 < n ==>
         r * n + c + 1 < n * |rows|
         && var q := Cell(count, cols, rows, left, top, spacingX, spacingY, r * n + c + 1);
         q.x == p.x + p.width + spacingX && q.y == p.y && q.height == p.height)
      && (c + 1 == n && r + 1 < |rows| ==>
         (r + 1) * n < n * |rows|
         && var q := Cell(count, cols, rows, left, top, spacingX, spacingY, (r + 1) * n);
         q.x == left && q.y + q.height == p.y - spacingY)
  {
    var n := |cols|;
    GridBound(r, c, n, |rows|);
    CellAt(count, cols, rows, left, top, spacingX, spacingY, r, c, r * n + c);
    if c + 1 < n {
      GridBound(r, c + 1, n, |rows|);
      CellAt(count, cols, rows, left, top, spacingX, spacingY, r, c + 1, r * n + c + 1);
    }
    if c + 1 == n && r + 1 < |rows| {
      GridBound(r + 1, 0, n, |rows|);
      CellAt(count, cols, rows, left, top, spacingX, spacingY, r + 1, 0, (r + 1) * n);
    }
  }

  /** All triples of a layout pass: one per item, as long as there are cells.
      Children are stored last-added first, so flow cell k receives child
      count - 1 - k and the indices run down from count - 1 without repeats. */
  function Placements(count: nat, cols: seq<real>, rows: seq<real>, left: real, top: real,
                      spacingX: real, spacingY: real): (ps: seq<Placement>)
    requires |cols| > 0
    ensures |ps| == Min(count, |cols| * |rows|)
    ensures forall k :: 0 <= k < |ps| ==> 0 <= ps[k].index < count && ps[k].index == count - 1 - k
    ensures forall j, k :: 0 <= j < k < |ps| ==> ps[j].index > ps[k].index
  {
    seq(Min(count, |cols| * |rows|),
        k requires 0 <= k < Min(count, |cols| * |rows|) => Cell(count, cols, rows, left, top, spacingX, spacingY, k))
  }

  /** Triple k of a layout pass is flow cell k. */
  lemma PlacementsAt(count: nat, cols: seq<real>, rows: seq<real>, left: real, top: real,
                     spacingX: real, spacingY: real, k: nat)
    requires |cols| > 0 && k < count <= |cols| * |rows|
    ensures var ps := Placements(count, cols, rows, left, top, spacingX, spacingY);
      k < |ps| && ps[k] == Cell(count, cols, rows, left, top, spacingX, spacingY, k)
  {
  }

  /** Flow cell k has its column's width and its row's height. */
  lemma CellSize(count: nat, cols: seq<real>, rows: seq<real>, left: real, top: real,
                 spacingX: real, spacingY: real, k: nat)
    requires |cols| > 0 && k < count && count <= |cols| * |rows|
    ensures var ps := Placements(count, cols, rows, left, top, spacingX, spacingY);
      k < |ps| && k / |cols| < |rows| && ps[k].width == cols[k % |cols|] && ps[k].height == rows[k / |cols|]
  {
    var ps := Placements(count, cols, rows, left, top, spacingX, spacingY);
    assert ps[k] == Cell(count, cols, rows, left, top, spacingX, spacingY, k);
    CellInGrid(k, |cols|, |rows|);
  }

  /** Column c of row r is flow cell r * ncols + c. */
  lemma CellAt(count: nat, cols: seq<real>, rows: seq<real>, left: real, top: real,
               spacingX: real, spacingY: real, r: nat, c: nat, k: nat)
    requires c < |cols| && r < |rows| && k == r * |cols| + c && k < |cols| * |rows|
    ensures Cell(count, cols, rows, left, top, spacingX, spacingY, k)
         == Placement(count - 1 - k, left + Offset(cols, c, spacingX),
                      top - Offset(rows, r, spacingY) - rows[r], cols[c], rows[r])
  {
    RowMajor(r, c, |cols|);
  }

  /** The triples up to flow cell n are those up to n - 1 followed by cell n. */
  lemma PlacementsStep(count: nat, cols: seq<real>, rows: seq<real>, left: real, top: real,
                       spacingX: real, spacingY: real, n: nat)
    requires |cols| > 0 && n < Min(count, |cols| * |rows|)
    ensures var all := Placements(count, cols, rows, left, top, spacingX, spacingY);
      n < |all| && all[..n + 1] == all[..n] + [Cell(count, cols, rows, left, top, spacingX, spacingY, n)]
  {
    var all := Placements(count, cols, rows, left, top, spacingX, spacingY);
    assert all[n] == Cell(count, cols, rows, left, top, spacingX, spacingY, n);
    assert all[..n + 1] == all[..n] + [all[n]];
  }

  /** The generator as written: an outer loop over row heights, an inner
      loop over column widths, stopping each row once the index drops below 0. */
  method IterateLayout(count: nat, cols: seq<real>, rows: seq<real>, left: real, top: real,
                       spacingX: real, spacingY: real) returns (ps: seq<Placement>)
    requires |cols| > 0
    ensures ps == Placements(count, cols, rows, left, top, spacingX, spacingY)
  {
    ghost var all := Placements(count, cols, rows, left, top, spacingX, spacingY);
    var ncols, nrows := |cols|, |rows|;
    ps := [];
    var i: int := count - 1;
    var y := top;
    var r := 0;
    while r < nrows
      invariant 0 <= r <= nrows
      invariant y == top - Offset(rows, r, spacingY)
      invariant |ps| == Min(count, r * ncols) && |ps| <= |all|
      invariant i == count - 1 - |ps|
      invariant ps == all[..|ps|]
    {
      var x := left;
      var c := 0;
      ghost var base := r * ncols;
      while c < ncols
        invariant 0 <= c <= ncols
        invariant x == left + Offset(cols, c, spacingX)
        invariant |ps| == Min(count, base + c) && |ps| <= |all|
        invariant i == count - 1 - |ps|
        invariant ps == all[..|ps|]
      {
        if i < 0 {
          break;
        }
        GridBound(r, c, ncols, nrows);
        CellAt(count, cols, rows, left, top, spacingX, spacingY, r, c, base + c);
        PlacementsStep(count, cols, rows, left, top, spacingX, spacingY, base + c);
        ps := ps + [Placement(i, x, y - rows[r], cols[c], rows[r])];
        i := i - 1;
        x := x + cols[c] + spacingX;
        c := c + 1;
      }
      assert (r + 1) * ncols == base + ncols;
      y := y - (rows[r] + spacingY);
      r := r + 1;
    }
    assert nrows * ncols == ncols * nrows;
  }

  /** With non-negative sizes and spacing, cells of one row are laid out
      left to right without overlap, and each row lies below the previous one. */
  lemma CellsDoNotOverlap(count: nat, cols: seq<real>, rows: seq<real>, left: real, top: real,
                          spacingX: real, spacingY: real, j: nat, k: nat)
    requires |cols| > 0 && j < k < |cols| * |rows|
    requires spacingX >= 0.0 && spacingY >= 0.0
    requires forall i :: 0 <= i < |cols| ==> cols[i] >= 0.0
    requires forall i :: 0 <= i < |rows| ==> rows[i] >= 0.0
    ensures var a, b := Cell(count, cols, rows, left, top, spacingX, spacingY, j),
                        Cell(count, cols, rows, left, top, spacingX, spacingY, k);
            if j / |cols| == k / |cols| then a.x + a.width <= b.x
            else b.y + b.height <= a.y
  {
    CellInGrid(j, |cols|, |rows|);
    CellInGrid(k, |cols|, |rows|);
    RowMajorOrder(j, k, |cols|);
    var rj, cj, rk, ck := j / |cols|, j % |cols|, k / |cols|, k % |cols|;
    if rj == rk {
      OffsetMonotone(cols, cj + 1, ck, spacingX);
    } else {
      OffsetMonotone(rows, rj + 1, rk, spacingY);
    }
  }

  /** A cell's size written back onto an item, as the static grid does it:
      an item without hints keeps its size, a one-axis hint sets that axis
      only, two hints set both. Returns the item's new (width, height). */
  function WriteBack(hintX: Option<real>, hintY: Option<real>, width: real, height: real,
                     cellWidth: real, cellHeight: real): (r: (real, real))
    ensures r.0 == if hintX.None? then width else cellWidth
    ensures r.1 == if hintY.None? then height else cellHeight
  {
    if hintX.None? then
      if hintY.Some? then (width, cellHeight) else (width, height)
    else
      if hintY.None? then (cellWidth, height) else (cellWidth, cellHeight)
  }

  /** The recycled grid's write-back: each axis independently keeps the old
      length without a hint and takes the cell's with one. It agrees with
      the static grid's. */
  function RecycleWriteBack(hintX: Option<real>, hintY: Option<real>, width: real, height: real,
                            cellWidth: real, cellHeight: real): (r: (real, real))
    ensures r == WriteBack(hintX, hintY, width, height, cellWidth, cellHeight)
  {
    (if hintX.None? then width else cellWidth, if hintY.None? then height else cellHeight)
  }
}
