/** The recycled grid's layout pass over the view options of its data
    (kept in flow order): the capacity check, the decision to skip when the
    reported changes can be patched into the histograms, and otherwise a full
    pass that also rebuilds the histograms and the viewport boundaries. */
module Recycle {
  import opened Base
  import opened Shape
  import opened Sizer
  import opened Placer
  import opened Incremental
  import Viewport
  import Layout

  /** What a full pass leaves behind: the minimum size, the cache for the
      next pass, the resized views, the triples and the boundaries. */
  datatype Pass = Pass(minWidth: real, minHeight: real, cache: Cache, views: seq<Item>,
                       placements: seq<Placement>, bounds: Viewport.Bounds)

  /** How a recycled pass ends. `Skipped` carries the cache as the batch of
      changes left it; `Cleared` is the unconfigured grid, whose minimum size
      is the padding. */
  datatype Outcome =
    | TooManyChildren
    | Skipped(cache: Option<Cache>)
    | UpdateIndexError
    | Cleared(minWidth: real, minHeight: real)
    | BadOverride
    | RowIndexError
    | Laid(pass: Pass)

  /** The view options after the write-back: flow cell k's triple names
      view k, which takes the cell's length on each axis it stretches on. */
  function ResizeViews(data: seq<Item>, ps: seq<Placement>): (r: seq<Item>)
    requires |ps| == |data|
    ensures |r| == |data|
    ensures forall k :: 0 <= k < |data| ==> r[k] == Layout.SizeTo(data[k], ps[k])
  {
    seq(|data|, k requires 0 <= k < |data| =>
      var size := RecycleWriteBack(data[k].hintX, data[k].hintY, data[k].width, data[k].height,
                                   ps[k].width, ps[k].height);
      data[k].(width := size.0, height := size.1))
  }

  /** The seed axes a sizing starts from. */
  function Seeds(cfg: Config, shape: GridShape): (r: (Axis, Axis))
    requires Seed(cfg.colDefault, shape.ncols, cfg.colsMinimum).Some?
    requires Seed(cfg.rowDefault, shape.nrows, cfg.rowsMinimum).Some?
    ensures |r.0.sizes| == shape.ncols && |r.1.sizes| == shape.nrows
  {
    (Layout.SeedAxis(Seed(cfg.colDefault, shape.ncols, cfg.colsMinimum).value),
     Layout.SeedAxis(Seed(cfg.rowDefault, shape.nrows, cfg.rowsMinimum).value))
  }

  /** The full pass: sizing, placement, write-back, histograms and boundaries. */
  function FullPass(cfg: Config, data: seq<Item>, x: real, y: real, width: real, height: real): (r: Outcome)
    requires Layout.HintsNonNegative(data)
    ensures r.Cleared? || r.BadOverride? || r.RowIndexError? || r.Laid?
    ensures r.Cleared? <==> !Given(cfg.cols) && !Given(cfg.rows)
    ensures r.Cleared? ==> r == Cleared(cfg.padLeft + cfg.padRight, cfg.padTop + cfg.padBottom)
    ensures r.Laid? <==> Layout.Sizable(cfg, |data|)
    ensures r.Laid? ==> var p, n := r.pass, |data|;
      |p.placements| == n && |p.views| == n
      && (forall k :: 0 <= k < n ==> p.placements[k].index == n - 1 - k)
      && (forall k :: 0 <= k < n ==> p.views[k] == Layout.SizeTo(data[k], p.placements[k]))
      && Shaped(p.cache)
      && |p.bounds.colsPos| == |p.cache.cols| && |p.bounds.rowsPos| == |p.cache.rows|
      && Viewport.Ready(Some(p.bounds))
    ensures r.Laid? ==>
      Layout.SizePass(cfg, data, width, height).Sized?
      && var p, s := r.pass, Layout.SizePass(cfg, data, width, height).sizing;
      p.minWidth == s.minWidth && p.minHeight == s.minHeight && p.cache.cols == s.cols && p.cache.rows == s.rows
      && p.placements == Placements(|data|, s.cols, s.rows, x + cfg.padLeft, y + height - cfg.padTop,
                                    cfg.spacingX, cfg.spacingY)
      && p.bounds.colsPos == Viewport.ColsPos(s.cols, x, cfg.padLeft, cfg.spacingX)
      && p.bounds.rowsPos == Viewport.RowsPos(s.rows, y + height, cfg.padTop, cfg.spacingY)
  {
    match Layout.SizePass(cfg, data, width, height)
    case NotConfigured => Cleared(cfg.padLeft + cfg.padRight, cfg.padTop + cfg.padBottom)
    case OverrideOutOfRange => BadOverride
    case RowOutOfRange => RowIndexError
    case Sized(s) =>
      Layout.SizedFills(cfg, data, width, height);
      var seeds := Seeds(cfg, s.shape);
      var n := |data|;
      var ps := Placements(n, s.cols, s.rows, x + cfg.padLeft, y + height - cfg.padTop, cfg.spacingX, cfg.spacingY);
      var cache := RecycleFill(seeds.0, seeds.1, data).(cols := s.cols, rows := s.rows);
      var bounds := Viewport.Bounds(Viewport.ColsPos(s.cols, x, cfg.padLeft, cfg.spacingX),
                                    Viewport.RowsPos(s.rows, y + height, cfg.padTop, cfg.spacingY));
      Laid(Pass(s.minWidth, s.minHeight, cache, ResizeViews(data, ps), ps, bounds))
  }

  /** The recycled grid's pass over `data` for a widget at (x, y) of the
      given size. `changed` is None when the adapter reports no change list
      (nothing to do), and otherwise the views that changed since `prev`. */
  function ComputeLayout(cfg: Config, prev: Option<Cache>, data: seq<Item>, changed: Option<seq<Change>>,
                         x: real, y: real, width: real, height: real): (r: Outcome)
    requires Layout.HintsNonNegative(data)
    requires changed.Some? && |changed.value| > 0 ==> prev.Some? && Shaped(prev.value)
    ensures r == TooManyChildren <==> !AcceptsChildren(cfg, |data|)
    ensures AcceptsChildren(cfg, |data|) && changed.None? ==> r == Skipped(prev)
    ensures changed == Some([]) ==> !r.Skipped?
    ensures r.Skipped? && changed.Some? ==>
      prev.Some? && r.cache.Some? && r.cache.value.cols == prev.value.cols && r.cache.value.rows == prev.value.rows
    ensures r.UpdateIndexError? ==> changed.Some? && |changed.value| > 0
    ensures AcceptsChildren(cfg, |data|) && changed == Some([]) ==> r == FullPass(cfg, data, x, y, width, height)
    ensures AcceptsChildren(cfg, |data|) && changed.Some? && |changed.value| > 0 ==>
      var batch := UpdateBatch(prev.value, changed.value);
      (r.Skipped? <==> batch.0 == Patched)
      && (batch.0 == Patched ==> r == Skipped(Some(batch.1)))
      && (batch.0 == Recompute ==> r == FullPass(cfg, data, x, y, width, height))
      && (batch.0 == IndexError ==> r == UpdateIndexError)
  {
    if !AcceptsChildren(cfg, |data|) then TooManyChildren
    else if changed.None? then Skipped(prev)
    else if |changed.value| == 0 then FullPass(cfg, data, x, y, width, height)
    else
      var batch := UpdateBatch(prev.value, changed.value);
      match batch.0
      case Patched => Skipped(Some(batch.1))
      case IndexError => UpdateIndexError
      case Recompute => FullPass(cfg, data, x, y, width, height)
  }

  /** A batch of changes that change nothing skips the pass and leaves the
      cache exactly as the previous pass left it. */
  lemma NoOpBatchSkips(cfg: Config, prev: Cache, data: seq<Item>, changes: seq<Change>,
                       x: real, y: real, width: real, height: real)
    requires Layout.HintsNonNegative(data) && Shaped(prev) && |changes| > 0
    requires AcceptsChildren(cfg, |data|)
    requires forall i :: 0 <= i < |changes| ==> NoOp(changes[i])
    ensures ComputeLayout(cfg, Some(prev), data, Some(changes), x, y, width, height) == Skipped(Some(prev))
  {
  }

  /** After a full pass with neither forced defaults nor any stretch hint,
      the cache agrees with the views: the stored sizes are the filled ones
      and the histograms track every fixed length. */
  lemma FullPassConsistent(cfg: Config, data: seq<Item>, x: real, y: real, width: real, height: real)
    requires Layout.HintsNonNegative(data)
    requires !cfg.colForce && !cfg.rowForce
    requires forall k :: 0 <= k < |data| ==> data[k].hintX.None? && data[k].hintY.None?
    requires Layout.Sizable(cfg, |data|)
    ensures var s := Layout.SizePass(cfg, data, width, height);
      s.Sized? && Seed(cfg.colDefault, s.sizing.shape.ncols, cfg.colsMinimum).Some?
      && Seed(cfg.rowDefault, s.sizing.shape.nrows, cfg.rowsMinimum).Some?
      && var seeds := Seeds(cfg, s.sizing.shape);
      Consistent(FullPass(cfg, data, x, y, width, height).pass.cache, seeds.0, seeds.1, data)
  {
    Layout.SizedFills(cfg, data, width, height);
    FullPassCache(cfg, data, x, y, width, height);
    UnhintedSlotsKept(cfg, data, width, height);
  }

  /** With neither forced defaults nor any stretch hint, the finalised slots
      are the filled ones. */
  lemma UnhintedSlotsKept(cfg: Config, data: seq<Item>, width: real, height: real)
    requires Layout.HintsNonNegative(data)
    requires !cfg.colForce && !cfg.rowForce
    requires forall k :: 0 <= k < |data| ==> data[k].hintX.None? && data[k].hintY.None?
    requires Layout.Sizable(cfg, |data|)
    ensures var s := Layout.SizePass(cfg, data, width, height).sizing;
      s.cols == s.colsFill.sizes && s.rows == s.rowsFill.sizes
  {
    var s := Layout.SizePass(cfg, data, width, height).sizing;
    Layout.SizedFills(cfg, data, width, height);
    Layout.SizedFinalizes(cfg, data, width, height);
    var seeds := Seeds(cfg, s.shape);
    var ncols := s.shape.ncols;
    var ce, re := ColEntries(data, ncols), RowEntries(data, ncols);
    NoStretchAfterFill(seeds.0, ce);
    NoStretchAfterFill(seeds.1, re);
    NoStretchKeepsSizes(cfg.colDefault, cfg.colsMinimum, s.colsFill, width, s.minWidth);
    NoStretchKeepsSizes(cfg.rowDefault, cfg.rowsMinimum, s.rowsFill, height, s.minHeight);
  }

  /** The recycled grid lays its views out as the static grid lays out the
      same items stored in reverse: the same triples, minimum size, final
      slots and write-back, with boundaries taken from those slots. */
  lemma FullPassLikeStatic(cfg: Config, data: seq<Item>, x: real, y: real, width: real, height: real)
    requires Layout.HintsNonNegative(data) && |data| > 0 && Layout.Sizable(cfg, |data|)
    ensures Layout.HintsNonNegative(Layout.Reverse(data))
    ensures var r := FullPass(cfg, data, x, y, width, height);
            var d := Layout.DoLayout(cfg, Layout.Reverse(data), x, y, width, height);
      r.Laid? && d.Placed?
      && r.pass.placements == d.layout.placements
      && r.pass.minWidth == d.layout.minWidth && r.pass.minHeight == d.layout.minHeight
      && r.pass.cache.cols == d.layout.cols && r.pass.cache.rows == d.layout.rows
      && r.pass.bounds.colsPos == Viewport.ColsPos(d.layout.cols, x, cfg.padLeft, cfg.spacingX)
      && r.pass.bounds.rowsPos == Viewport.RowsPos(d.layout.rows, y + height, cfg.padTop, cfg.spacingY)
      && forall k :: 0 <= k < |data| ==> r.pass.views[k] == d.layout.children[|data| - 1 - k]
  {
    StaticOfReversed(cfg, data, x, y, width, height);
    PlaceLikeFullPass(cfg, data, x, y, width, height);
    PlaceViewsLikeFullPass(cfg, data, x, y, width, height);
  }

  /** The static placement of `data` stored in reverse, with the sizing of
      `data`, has the full pass's triples, sizes and slots. */
  lemma PlaceLikeFullPass(cfg: Config, data: seq<Item>, x: real, y: real, width: real, height: real)
    requires Layout.HintsNonNegative(data) && Layout.Sizable(cfg, |data|)
    ensures var r, s := FullPass(cfg, data, x, y, width, height), Layout.SizePass(cfg, data, width, height).sizing;
            var l := Layout.Place(cfg, Layout.Reverse(data), s, x, y, height);
      r.Laid? && r.pass.placements == l.placements
      && r.pass.minWidth == l.minWidth && r.pass.minHeight == l.minHeight
      && r.pass.cache.cols == l.cols && r.pass.cache.rows == l.rows
      && r.pass.bounds.colsPos == Viewport.ColsPos(l.cols, x, cfg.padLeft, cfg.spacingX)
      && r.pass.bounds.rowsPos == Viewport.RowsPos(l.rows, y + height, cfg.padTop, cfg.spacingY)
  {
  }

  /** View k of the full pass is stored child |data| - 1 - k of that placement. */
  lemma PlaceViewsLikeFullPass(cfg: Config, data: seq<Item>, x: real, y: real, width: real, height: real)
    requires Layout.HintsNonNegative(data) && Layout.Sizable(cfg, |data|)
    ensures var r, s := FullPass(cfg, data, x, y, width, height), Layout.SizePass(cfg, data, width, height).sizing;
            var l := Layout.Place(cfg, Layout.Reverse(data), s, x, y, height);
      r.Laid? && forall k :: 0 <= k < |data| ==> r.pass.views[k] == l.children[|data| - 1 - k]
  {
    var sizing := Layout.SizePass(cfg, data, width, height).sizing;
    var l := Layout.Place(cfg, Layout.Reverse(data), sizing, x, y, height);
    var p := FullPass(cfg, data, x, y, width, height).pass;
    PlaceLikeFullPass(cfg, data, x, y, width, height);
    PlaceReversed(cfg, data, sizing, x, y, height);
    ResizedAlike(data, p.placements, l.placements, p.views, l.children);
  }

  /** Placing `data` stored in reverse resizes item k of `data` by the
      k-th triple. */
  lemma PlaceReversed(cfg: Config, data: seq<Item>, s: Layout.Sizing, x: real, y: real, height: real)
    requires |s.cols| > 0 && |data| <= |s.cols| * |s.rows|
    ensures var l := Layout.Place(cfg, Layout.Reverse(data), s, x, y, height);
      forall k :: 0 <= k < |data| ==> l.children[|data| - 1 - k] == Layout.SizeTo(data[k], l.placements[k])
  {
    var stored := Layout.Reverse(data);
    var l := Layout.Place(cfg, stored, s, x, y, height);
    assert |stored| == |data|;
    forall k | 0 <= k < |data|
      ensures l.children[|data| - 1 - k] == Layout.SizeTo(data[k], l.placements[k])
    {
      assert stored[|stored| - 1 - k] == data[k];
      assert l.children[|stored| - 1 - k] == Layout.SizeTo(stored[|stored| - 1 - k], l.placements[k]);
    }
  }

  /** Two resizes of the same items by the same triples, one kept in order
      and one stored in reverse, agree item by item. */
  lemma ResizedAlike(data: seq<Item>, ps: seq<Placement>, qs: seq<Placement>, views: seq<Item>, children: seq<Item>)
    requires |ps| == |views| == |children| == |data| && ps == qs
    requires forall k :: 0 <= k < |data| ==> views[k] == Layout.SizeTo(data[k], ps[k])
    requires forall k :: 0 <= k < |data| ==> children[|data| - 1 - k] == Layout.SizeTo(data[k], qs[k])
    ensures forall k :: 0 <= k < |data| ==> views[k] == children[|data| - 1 - k]
  {
  }

  /** The static pass over `data` stored in reverse sizes `data` itself. */
  lemma StaticOfReversed(cfg: Config, data: seq<Item>, x: real, y: real, width: real, height: real)
    requires Layout.HintsNonNegative(data) && |data| > 0 && Layout.Sizable(cfg, |data|)
    ensures Layout.HintsNonNegative(Layout.Reverse(data))
    ensures var d, s := Layout.DoLayout(cfg, Layout.Reverse(data), x, y, width, height),
                        Layout.SizePass(cfg, data, width, height);
      d.Placed? && s.Sized? && d.layout == Layout.Place(cfg, Layout.Reverse(data), s.sizing, x, y, height)
  {
    Layout.ReverseReverse(data);
    assert Layout.HintsNonNegative(Layout.Reverse(data));
  }

  /** Every data item whose cell, as the full pass places it, meets the
      viewport (vx, vy, w, h) is among the visible indices the pass's
      boundaries give, provided padding, spacing and slot sizes are not
      negative. */
  lemma FullPassCellVisible(cfg: Config, data: seq<Item>, x: real, y: real, width: real, height: real,
                            k: nat, vx: real, vy: real, w: real, h: real, px: real, py: real)
    requires Layout.HintsNonNegative(data) && Layout.Sizable(cfg, |data|) && k < |data|
    requires cfg.padLeft >= 0.0 && cfg.spacingX >= 0.0 && cfg.spacingY >= 0.0
    requires var c := FullPass(cfg, data, x, y, width, height).pass.cache;
      (forall i :: 0 <= i < |c.cols| ==> c.cols[i] >= 0.0) && (forall i :: 0 <= i < |c.rows| ==> c.rows[i] >= 0.0)
    requires var p := FullPass(cfg, data, x, y, width, height).pass.placements[k];
      p.x <= px < p.x + p.width && p.y <= py < p.y + p.height
    requires vx <= px <= vx + w && vy <= py <= vy + h
    ensures k in Viewport.VisibleViews(Some(FullPass(cfg, data, x, y, width, height).pass.bounds), |data|, vx, vy, w, h)
  {
    var s := Layout.SizePass(cfg, data, width, height).sizing;
    var stored := Layout.Reverse(data);
    PlaceLikeFullPass(cfg, data, x, y, width, height);
    assert |stored| == |data|;
    PlacedCellVisible(cfg, stored, s, x, y, height, k, vx, vy, w, h, px, py);
    assert FullPass(cfg, data, x, y, width, height).pass.bounds
        == Viewport.Bounds(Viewport.ColsPos(s.cols, x, cfg.padLeft, cfg.spacingX),
                           Viewport.RowsPos(s.rows, y + height, cfg.padTop, cfg.spacingY));
  }

  /** The same over the static placement of any sizing: a point of flow
      cell k inside the viewport makes k visible under the boundaries of
      the sizing's slots. */
  lemma PlacedCellVisible(cfg: Config, children: seq<Item>, s: Layout.Sizing, x: real, y: real, height: real,
                          k: nat, vx: real, vy: real, w: real, h: real, px: real, py: real)
    requires |s.cols| > 0 && |s.rows| > 0 && k < |children| <= |s.cols| * |s.rows|
    requires cfg.padLeft >= 0.0 && cfg.spacingX >= 0.0 && cfg.spacingY >= 0.0
    requires forall i :: 0 <= i < |s.cols| ==> s.cols[i] >= 0.0
    requires forall i :: 0 <= i < |s.rows| ==> s.rows[i] >= 0.0
    requires var p := Layout.Place(cfg, children, s, x, y, height).placements[k];
      p.x <= px < p.x + p.width && p.y <= py < p.y + p.height
    requires vx <= px <= vx + w && vy <= py <= vy + h
    ensures k in Viewport.VisibleViews(Some(Viewport.Bounds(Viewport.ColsPos(s.cols, x, cfg.padLeft, cfg.spacingX),
                                                            Viewport.RowsPos(s.rows, y + height, cfg.padTop, cfg.spacingY))),
                                       |children|, vx, vy, w, h)
  {
    var b := Viewport.Bounds(Viewport.ColsPos(s.cols, x, cfg.padLeft, cfg.spacingX),
                             Viewport.RowsPos(s.rows, y + height, cfg.padTop, cfg.spacingY));
    Viewport.CellIsVisible(s.cols, s.rows, x, y + height, cfg.padLeft, cfg.padTop, cfg.spacingX, cfg.spacingY,
                           |children|, k, Layout.Place(cfg, children, s, x, y, height).placements, b,
                           vx, vy, w, h, px, py);
  }

  /** The cache a full pass leaves: the recycled fill over the seeded axes,
      with the finalised slots in place of the filled ones. */
  lemma FullPassCache(cfg: Config, data: seq<Item>, x: real, y: real, width: real, height: real)
    requires Layout.HintsNonNegative(data) && Layout.Sizable(cfg, |data|)
    ensures var s := Layout.SizePass(cfg, data, width, height).sizing;
      Seed(cfg.colDefault, s.shape.ncols, cfg.colsMinimum).Some?
      && Seed(cfg.rowDefault, s.shape.nrows, cfg.rowsMinimum).Some?
      && var seeds := Seeds(cfg, s.shape);
      Fits(seeds.0, ColEntries(data, |seeds.0.sizes|)) && Fits(seeds.1, RowEntries(data, |seeds.0.sizes|))
      && FullPass(cfg, data, x, y, width, height).pass.cache
         == RecycleFill(seeds.0, seeds.1, data).(cols := s.cols, rows := s.rows)
  {
    Layout.SizedFills(cfg, data, width, height);
  }

  /** Entries without any hint leave every weight unset. */
  lemma NoStretchAfterFill(a: Axis, es: seq<Entry>)
    requires Fits(a, es)
    requires forall i :: 0 <= i < |a.hints| ==> a.hints[i].None?
    requires forall j :: 0 <= j < |es| ==> es[j].hint.None?
    ensures NonNegativeHints(Fill(a, es).hints) && !AnyStretch(Fill(a, es).hints)
  {
    var w := Fill(a, es).hints;
    forall s | 0 <= s < |w|
      ensures w[s].None?
    {
      FillIsSlotMax(a, es, s);
    }
  }

  /** A skipped pass after a batch of reported changes keeps a consistent
      cache consistent with the views as the batch left them, provided no
      view of the batch was handed back to the adapter. */
  lemma SkipSound(cfg: Config, prev: Cache, seedCols: Axis, seedRows: Axis, before: seq<Item>,
                  data: seq<Item>, changes: seq<Change>, x: real, y: real, width: real, height: real)
    requires Layout.HintsNonNegative(data) && |changes| > 0
    requires Consistent(prev, seedCols, seedRows, before)
    requires DescribesAll(before, changes) && ApplyAll(before, changes) == data
    requires forall i :: 0 <= i < |changes| ==> !Removed(changes[i])
    requires ComputeLayout(cfg, Some(prev), data, Some(changes), x, y, width, height).Skipped?
    ensures var r := ComputeLayout(cfg, Some(prev), data, Some(changes), x, y, width, height);
            r.cache.Some? && Consistent(r.cache.value, seedCols, seedRows, data)
  {
    BatchSound(prev, seedCols, seedRows, before, changes);
  }
}
