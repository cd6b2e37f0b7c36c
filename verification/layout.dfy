/** The two layout passes built from the shared pieces: the static grid's
    pass over its stored children, and the recycled grid's pass over the
    view options of its data, which may skip the work when an in-place patch
    of the histograms is enough. */
module Layout {
  import opened Base
  import opened Shape
  import opened Sizer
  import opened Placer
  import Incremental
  import Viewport

  ghost predicate HintsNonNegative(items: seq<Item>) {
    forall k :: 0 <= k < |items| ==>
      (items[k].hintX.Some? ==> items[k].hintX.value >= 0.0) && (items[k].hintY.Some? ==> items[k].hintY.value >= 0.0)
  }

  function Reverse<T>(s: seq<T>): (r: seq<T>)
    ensures |r| == |s| && forall k :: 0 <= k < |s| ==> r[k] == s[|s| - 1 - k]
  {
    seq(|s|, k requires 0 <= k < |s| => s[|s| - 1 - k])
  }

  /** Reversing twice gives back the sequence. */
  lemma ReverseReverse<T>(s: seq<T>)
    ensures Reverse(Reverse(s)) == s
  {
    var r := Reverse(Reverse(s));
    forall k | 0 <= k < |s|
      ensures r[k] == s[k]
    {
      assert r[k] == Reverse(s)[|s| - 1 - k];
    }
  }

  /** Replacing stored element i replaces element |s| - 1 - i of the reversal. */
  lemma ReverseUpdate<T>(s: seq<T>, i: nat, v: T)
    requires i < |s|
    ensures Reverse(s[i := v]) == Reverse(s)[|s| - 1 - i := v]
  {
    var a, b := Reverse(s[i := v]), Reverse(s)[|s| - 1 - i := v];
    forall k | 0 <= k < |s|
      ensures a[k] == b[k]
    {
      if k == |s| - 1 - i {
        assert a[k] == v;
      } else {
        assert a[k] == s[|s| - 1 - k];
      }
    }
  }

  /** Base sizes of one axis with no stretch weight yet. */
  function SeedAxis(sizes: seq<real>): (a: Axis)
    ensures a.sizes == sizes && |a.hints| == |sizes| && forall i :: 0 <= i < |sizes| ==> a.hints[i].None?
  {
    Axis(sizes, seq(|sizes|, _ => None))
  }

  /** Everything the sizing passes compute: the shape, both filled axes,
      the minimum size and the final column widths and row heights. */
  datatype Sizing = Sizing(shape: GridShape, colsFill: Axis, rowsFill: Axis,
                           minWidth: real, minHeight: real, cols: seq<real>, rows: seq<real>)

  /** How the sizing passes end: no shape, an override key outside the
      slots, an item whose row does not exist, or sizes. */
  datatype Sized = NotConfigured | OverrideOutOfRange | RowOutOfRange | Sized(sizing: Sizing)

  lemma RowsFit(flow: seq<Item>, ncols: nat, nrows: nat)
    requires ncols > 0 && |flow| <= ncols * nrows
    ensures forall k :: 0 <= k < |flow| ==> k / ncols < nrows
  {
    forall k | 0 <= k < |flow|
      ensures k / ncols < nrows
    {
      CellInGrid(k, ncols, nrows);
    }
  }

  /** The configurations the sizing passes succeed on for `count` items:
      a shape exists, every override index is inside it, and it has a cell
      for every item. */
  ghost predicate Sizable(cfg: Config, count: nat) {
    ResolveShape(cfg, count).Some?
    && var s := ResolveShape(cfg, count).value;
    (forall k :: k in cfg.colsMinimum ==> k < s.ncols)
    && (forall k :: k in cfg.rowsMinimum ==> k < s.nrows)
    && count <= s.ncols * s.nrows
  }

  /** Shape, seeds, fill, minimum size and finalize on items in flow order,
      with the widget's width and height as the space to fill. */
  function SizePass(cfg: Config, flow: seq<Item>, width: real, height: real): (r: Sized)
    requires HintsNonNegative(flow)
    ensures r.NotConfigured? <==> !Given(cfg.cols) && !Given(cfg.rows)
    ensures r.OverrideOutOfRange? <==>
      (ResolveShape(cfg, |flow|).Some? &&
       var s := ResolveShape(cfg, |flow|).value;
       exists k :: (k in cfg.colsMinimum && k >= s.ncols) || (k in cfg.rowsMinimum && k >= s.nrows))
    ensures r.RowOutOfRange? ==> var s := ResolveShape(cfg, |flow|).value; |flow| > s.ncols * s.nrows
    ensures r.Sized? <==> Sizable(cfg, |flow|)
    ensures r.Sized? ==> var s := r.sizing;
      ResolveShape(cfg, |flow|) == Some(s.shape) && |flow| <= s.shape.ncols * s.shape.nrows
      && |s.cols| == s.shape.ncols && |s.rows| == s.shape.nrows
      && |s.colsFill.sizes| == s.shape.ncols && |s.rowsFill.sizes| == s.shape.nrows
    ensures r.Sized? ==> var s := r.sizing;
      |s.colsFill.hints| == |s.colsFill.sizes| >= 1 && |s.rowsFill.hints| == |s.rowsFill.sizes| >= 1
      && (forall k :: k in cfg.colsMinimum ==> k < |s.colsFill.sizes|)
      && (forall k :: k in cfg.rowsMinimum ==> k < |s.rowsFill.sizes|)
      && NonNegativeHints(s.colsFill.hints) && NonNegativeHints(s.rowsFill.hints)
  {
    var shape := ResolveShape(cfg, |flow|);
    if shape.None? then NotConfigured
    else
      var ncols, nrows := shape.value.ncols, shape.value.nrows;
      var sc, sr := Seed(cfg.colDefault, ncols, cfg.colsMinimum), Seed(cfg.rowDefault, nrows, cfg.rowsMinimum);
      if sc.None? || sr.None? then OverrideOutOfRange
      else if |flow| > ncols * nrows then RowOutOfRange
      else Sized(SizeGrid(cfg, flow, shape.value, sc.value, sr.value, width, height))
  }

  /** Fill, minimum size and finalize on a resolved shape whose seeds exist
      and which holds every item. */
  function SizeGrid(cfg: Config, flow: seq<Item>, shape: GridShape, sc: seq<real>, sr: seq<real>,
                    width: real, height: real): (s: Sizing)
    requires HintsNonNegative(flow) && shape.ncols >= 1 && shape.nrows >= 1 && |flow| <= shape.ncols * shape.nrows
    requires |sc| == shape.ncols && |sr| == shape.nrows
    requires forall k :: k in cfg.colsMinimum ==> k < shape.ncols
    requires forall k :: k in cfg.rowsMinimum ==> k < shape.nrows
    ensures s.shape == shape && |s.cols| == shape.ncols && |s.rows| == shape.nrows
    ensures |s.colsFill.hints| == |s.colsFill.sizes| == shape.ncols
    ensures |s.rowsFill.hints| == |s.rowsFill.sizes| == shape.nrows
    ensures NonNegativeHints(s.colsFill.hints) && NonNegativeHints(s.rowsFill.hints)
  {
    var ce, re := ColEntries(flow, shape.ncols), RowEntries(flow, shape.ncols);
    RowsFit(flow, shape.ncols, shape.nrows);
    var ca, ra := Fill(SeedAxis(sc), ce), Fill(SeedAxis(sr), re);
    FillHintsNonNegative(SeedAxis(sc), ce);
    FillHintsNonNegative(SeedAxis(sr), re);
    var mw := MinimumLength(cfg.padLeft, cfg.padRight, cfg.spacingX, ca.sizes);
    var mh := MinimumLength(cfg.padTop, cfg.padBottom, cfg.spacingY, ra.sizes);
    Sizing(shape, ca, ra, mw, mh,
           Finalize(cfg.colForce, cfg.colDefault, cfg.colsMinimum, ca, width, mw),
           Finalize(cfg.rowForce, cfg.rowDefault, cfg.rowsMinimum, ra, height, mh))
  }

  // ---------------------------------------------------------------------
  // The static grid

  /** A child after the write-back of its cell's size. */
  function SizeTo(c: Item, p: Placement): (r: Item)
    ensures r.hintX == c.hintX && r.hintY == c.hintY
    ensures r.width == (if c.hintX.None? then c.width else p.width)
    ensures r.height == (if c.hintY.None? then c.height else p.height)
  {
    var size := WriteBack(c.hintX, c.hintY, c.width, c.height, p.width, p.height);
    c.(width := size.0, height := size.1)
  }

  /** The placement loop's effect on the children: each triple writes its
      cell's size onto the child it names. */
  function Resize(children: seq<Item>, ps: seq<Placement>): (r: seq<Item>)
    requires forall k :: 0 <= k < |ps| ==> 0 <= ps[k].index < |children|
    ensures |r| == |children|
    ensures forall i :: 0 <= i < |children| ==> r[i].hintX == children[i].hintX && r[i].hintY == children[i].hintY
  {
    if |ps| == 0 then children
    else
      var p := ps[|ps| - 1];
      var r0 := Resize(children, ps[..|ps| - 1]);
      r0[p.index := SizeTo(r0[p.index], p)]
  }

  /** When the triples name distinct children, each named child ends up
      sized to its own cell and the others are left as they were. */
  lemma {:induction false} ResizeEffect(children: seq<Item>, ps: seq<Placement>, i: nat)
    requires forall k :: 0 <= k < |ps| ==> 0 <= ps[k].index < |children|
    requires forall j, k :: 0 <= j < k < |ps| ==> ps[j].index > ps[k].index
    requires i < |children|
    ensures (forall k :: 0 <= k < |ps| ==> ps[k].index != i) ==> Resize(children, ps)[i] == children[i]
    ensures forall k :: 0 <= k < |ps| && ps[k].index == i ==> Resize(children, ps)[i] == SizeTo(children[i], ps[k])
  {
    if |ps| > 0 {
      var init := ps[..|ps| - 1];
      ResizeEffect(children, init, i);
      var last := ps[|ps| - 1];
      if last.index == i {
        assert forall k :: 0 <= k < |init| ==> init[k].index != i;
      }
    }
  }

  /** The result of a static layout pass. */
  datatype Layout = Layout(minWidth: real, minHeight: real, cols: seq<real>, rows: seq<real>,
                           children: seq<Item>, placements: seq<Placement>)

  /** How a static layout pass ends. Without children or without a shape
      only the minimum size is set, to the padding. */
  datatype Outcome = Unconfigured(minWidth: real, minHeight: real) | BadOverride | RowIndexError | Placed(layout: Layout)

  /** The placement part of the static pass for a computed sizing: every
      child gets the triple of its flow cell and the size written back. */
  function Place(cfg: Config, children: seq<Item>, s: Sizing, x: real, y: real, height: real): (l: Layout)
    requires |s.cols| > 0 && |children| <= |s.cols| * |s.rows|
    ensures l.placements == Placements(|children|, s.cols, s.rows, x + cfg.padLeft, y + height - cfg.padTop,
                                       cfg.spacingX, cfg.spacingY)
    ensures l.cols == s.cols && l.rows == s.rows && l.minWidth == s.minWidth && l.minHeight == s.minHeight
    ensures var n := |children|;
      |l.placements| == n && |l.children| == n
      && (forall k :: 0 <= k < n ==> l.placements[k].index == n - 1 - k)
      && (forall k :: 0 <= k < n ==> l.children[n - 1 - k] == SizeTo(children[n - 1 - k], l.placements[k]))
  {
    var n := |children|;
    var ps := Placements(n, s.cols, s.rows, x + cfg.padLeft, y + height - cfg.padTop, cfg.spacingX, cfg.spacingY);
    var resized := Resize(children, ps);
    forall k | 0 <= k < n
      ensures resized[n - 1 - k] == SizeTo(children[n - 1 - k], ps[k])
    {
      ResizeEffect(children, ps, n - 1 - k);
    }
    Layout(s.minWidth, s.minHeight, s.cols, s.rows, resized, ps)
  }

  /** The static grid's pass over its children (stored last-added first),
      for a widget at (x, y) of the given width and height. */
  function DoLayout(cfg: Config, children: seq<Item>, x: real, y: real, width: real, height: real): (r: Outcome)
    requires HintsNonNegative(children)
    ensures |children| == 0 || (!Given(cfg.cols) && !Given(cfg.rows)) ==>
      r == Unconfigured(cfg.padLeft + cfg.padRight, cfg.padTop + cfg.padBottom)
    ensures r.Placed? <==> |children| > 0 && Sizable(cfg, |children|)
    ensures |children| > 0 ==>
      (HintsNonNegative(Reverse(children))
       && (r.BadOverride? <==> SizePass(cfg, Reverse(children), width, height).OverrideOutOfRange?)
       && (r.RowIndexError? <==> SizePass(cfg, Reverse(children), width, height).RowOutOfRange?))
    ensures r.Placed? ==>
      (HintsNonNegative(Reverse(children))
       && var sp := SizePass(cfg, Reverse(children), width, height);
       sp.Sized? && r.layout == Place(cfg, children, sp.sizing, x, y, height))
  {
    if |children| == 0 then Unconfigured(cfg.padLeft + cfg.padRight, cfg.padTop + cfg.padBottom)
    else
      var flow := Reverse(children);
      assert HintsNonNegative(flow);
      match SizePass(cfg, flow, width, height)
      case NotConfigured => Unconfigured(cfg.padLeft + cfg.padRight, cfg.padTop + cfg.padBottom)
      case OverrideOutOfRange => BadOverride
      case RowOutOfRange => RowIndexError
      case Sized(s) => Placed(Place(cfg, children, s, x, y, height))
  }

  /** Without forced defaults the final sizes are at least the filled ones. */
  lemma SizedGrows(cfg: Config, flow: seq<Item>, width: real, height: real, i: nat)
    requires HintsNonNegative(flow)
    requires Sizable(cfg, |flow|)
    ensures var s := SizePass(cfg, flow, width, height).sizing;
            (!cfg.colForce && i < s.shape.ncols ==> s.cols[i] >= s.colsFill.sizes[i])
            && (!cfg.rowForce && i < s.shape.nrows ==> s.rows[i] >= s.rowsFill.sizes[i])
  {
  }

  /** The filled axes of a sizing are the fill passes over the seeds. */
  lemma SizedFills(cfg: Config, flow: seq<Item>, width: real, height: real)
    requires HintsNonNegative(flow)
    requires Sizable(cfg, |flow|)
    ensures var s := SizePass(cfg, flow, width, height).sizing;
            var sc := Seed(cfg.colDefault, s.shape.ncols, cfg.colsMinimum);
            var sr := Seed(cfg.rowDefault, s.shape.nrows, cfg.rowsMinimum);
            var ce, re := ColEntries(flow, s.shape.ncols), RowEntries(flow, s.shape.ncols);
            sc.Some? && sr.Some? && Fits(SeedAxis(sc.value), ce) && Fits(SeedAxis(sr.value), re)
            && s.colsFill == Fill(SeedAxis(sc.value), ce) && s.rowsFill == Fill(SeedAxis(sr.value), re)
  {
    var s := SizePass(cfg, flow, width, height).sizing;
    RowsFit(flow, s.shape.ncols, s.shape.nrows);
  }

  /** The minimum size of a sizing is the padding, the spacing and the
      filled slots; its final slots are the finalize pass over the filled
      axes with the widget's size as the space to fill. */
  lemma SizedFinalizes(cfg: Config, flow: seq<Item>, width: real, height: real)
    requires HintsNonNegative(flow)
    requires Sizable(cfg, |flow|)
    ensures var s := SizePass(cfg, flow, width, height).sizing;
      s.minWidth == MinimumLength(cfg.padLeft, cfg.padRight, cfg.spacingX, s.colsFill.sizes)
      && s.minHeight == MinimumLength(cfg.padTop, cfg.padBottom, cfg.spacingY, s.rowsFill.sizes)
      && s.cols == Finalize(cfg.colForce, cfg.colDefault, cfg.colsMinimum, s.colsFill, width, s.minWidth)
      && s.rows == Finalize(cfg.rowForce, cfg.rowDefault, cfg.rowsMinimum, s.rowsFill, height, s.minHeight)
  {
  }

  /** A fixed item's width is at most its column's filled width. */
  lemma FillHoldsFixedWidth(cfg: Config, flow: seq<Item>, width: real, height: real, k: nat)
    requires HintsNonNegative(flow)
    requires Sizable(cfg, |flow|) && k < |flow|
    ensures var s := SizePass(cfg, flow, width, height).sizing;
            flow[k].hintX.None? ==> flow[k].width <= s.colsFill.sizes[k % s.shape.ncols]
  {
    var s := SizePass(cfg, flow, width, height).sizing;
    SizedFills(cfg, flow, width, height);
    if flow[k].hintX.None? {
      var sc := Seed(cfg.colDefault, s.shape.ncols, cfg.colsMinimum).value;
      FixedFitsSlot(SeedAxis(sc), ColEntries(flow, s.shape.ncols), k);
    }
  }

  /** A fixed item's height is at most its row's filled height. */
  lemma FillHoldsFixedHeight(cfg: Config, flow: seq<Item>, width: real, height: real, k: nat)
    requires HintsNonNegative(flow)
    requires Sizable(cfg, |flow|) && k < |flow|
    ensures var s := SizePass(cfg, flow, width, height).sizing;
            k / s.shape.ncols < s.shape.nrows
            && (flow[k].hintY.None? ==> flow[k].height <= s.rowsFill.sizes[k / s.shape.ncols])
  {
    var s := SizePass(cfg, flow, width, height).sizing;
    SizedFills(cfg, flow, width, height);
    CellInGrid(k, s.shape.ncols, s.shape.nrows);
    if flow[k].hintY.None? {
      var sr := Seed(cfg.rowDefault, s.shape.nrows, cfg.rowsMinimum).value;
      FixedFitsSlot(SeedAxis(sr), RowEntries(flow, s.shape.ncols), k);
    }
  }

  /** With non-forced columns (rows), an item of fixed width (height) is
      no wider (taller) than the final size of its column (row). */
  lemma SizedFixedFits(cfg: Config, flow: seq<Item>, width: real, height: real, k: nat)
    requires HintsNonNegative(flow)
    requires Sizable(cfg, |flow|) && k < |flow|
    ensures var s := SizePass(cfg, flow, width, height).sizing;
            k / s.shape.ncols < s.shape.nrows
            && (!cfg.colForce && flow[k].hintX.None? ==> flow[k].width <= s.cols[k % s.shape.ncols])
            && (!cfg.rowForce && flow[k].hintY.None? ==> flow[k].height <= s.rows[k / s.shape.ncols])
  {
    var s := SizePass(cfg, flow, width, height).sizing;
    FillHoldsFixedWidth(cfg, flow, width, height, k);
    FillHoldsFixedHeight(cfg, flow, width, height, k);
    SizedGrows(cfg, flow, width, height, k % s.shape.ncols);
    SizedGrows(cfg, flow, width, height, k / s.shape.ncols);
  }

  /** Widening one fixed-width item never lowers the sizing's minimum width. */
  lemma SizedWiderMinimum(cfg: Config, flow: seq<Item>, width: real, height: real, j: nat, wider: real)
    requires HintsNonNegative(flow)
    requires Sizable(cfg, |flow|) && j < |flow| && flow[j].hintX.None? && wider >= flow[j].width
    ensures HintsNonNegative(flow[j := flow[j].(width := wider)])
    ensures SizePass(cfg, flow, width, height).sizing.minWidth
         <= SizePass(cfg, flow[j := flow[j].(width := wider)], width, height).sizing.minWidth
  {
    var flow2 := flow[j := flow[j].(width := wider)];
    assert HintsNonNegative(flow2) by {
      forall k | 0 <= k < |flow2|
        ensures flow2[k].hintX == flow[k].hintX && flow2[k].hintY == flow[k].hintY
      {
      }
    }
    SizedFills(cfg, flow, width, height);
    SizedFills(cfg, flow2, width, height);
    SizedFinalizes(cfg, flow, width, height);
    SizedFinalizes(cfg, flow2, width, height);
    var s := SizePass(cfg, flow, width, height).sizing;
    var sc := Seed(cfg.colDefault, s.shape.ncols, cfg.colsMinimum).value;
    MinimumWidthMonotone(SeedAxis(sc), flow, s.shape.ncols, j, wider, cfg.padLeft, cfg.padRight, cfg.spacingX);
  }

  /** Making one fixed-height item taller never lowers the sizing's minimum height. */
  lemma SizedTallerMinimum(cfg: Config, flow: seq<Item>, width: real, height: real, j: nat, taller: real)
    requires HintsNonNegative(flow)
    requires Sizable(cfg, |flow|) && j < |flow| && flow[j].hintY.None? && taller >= flow[j].height
    ensures HintsNonNegative(flow[j := flow[j].(height := taller)])
    ensures SizePass(cfg, flow, width, height).sizing.minHeight
         <= SizePass(cfg, flow[j := flow[j].(height := taller)], width, height).sizing.minHeight
  {
    var flow2 := flow[j := flow[j].(height := taller)];
    assert HintsNonNegative(flow2) by {
      forall k | 0 <= k < |flow2|
        ensures flow2[k].hintX == flow[k].hintX && flow2[k].hintY == flow[k].hintY
      {
      }
    }
    SizedFills(cfg, flow, width, height);
    SizedFills(cfg, flow2, width, height);
    SizedFinalizes(cfg, flow, width, height);
    SizedFinalizes(cfg, flow2, width, height);
    var s := SizePass(cfg, flow, width, height).sizing;
    var sr := Seed(cfg.rowDefault, s.shape.nrows, cfg.rowsMinimum).value;
    MinimumHeightMonotone(SeedAxis(sr), flow, s.shape.ncols, j, taller, cfg.padTop, cfg.padBottom, cfg.spacingY);
  }

  /** A placed pass reports the minimum size of the sizing of its flow. */
  lemma PlacedMinimum(cfg: Config, children: seq<Item>, x: real, y: real, width: real, height: real)
    requires HintsNonNegative(children)
    requires |children| > 0 && Sizable(cfg, |children|)
    ensures HintsNonNegative(Reverse(children))
    ensures var r, s := DoLayout(cfg, children, x, y, width, height), SizePass(cfg, Reverse(children), width, height);
            r.Placed? && s.Sized?
            && r.layout.minWidth == s.sizing.minWidth && r.layout.minHeight == s.sizing.minHeight
  {
  }

  /** Widening a stored child of fixed width never lowers the minimum
      width the layout pass reports. */
  lemma WiderChildMinimum(cfg: Config, children: seq<Item>, x: real, y: real, width: real, height: real,
                          i: nat, wider: real)
    requires HintsNonNegative(children)
    requires |children| > 0 && Sizable(cfg, |children|)
    requires i < |children| && children[i].hintX.None? && wider >= children[i].width
    ensures HintsNonNegative(children[i := children[i].(width := wider)])
    ensures var r1 := DoLayout(cfg, children, x, y, width, height);
            var r2 := DoLayout(cfg, children[i := children[i].(width := wider)], x, y, width, height);
            r1.Placed? && r2.Placed? && r1.layout.minWidth <= r2.layout.minWidth
  {
    var c2 := children[i := children[i].(width := wider)];
    ReversedWiderMinimum(cfg, children, width, height, i, wider);
    PlacedMinimum(cfg, children, x, y, width, height);
    PlacedMinimum(cfg, c2, x, y, width, height);
  }

  /** The sizing-level step of `WiderChildMinimum`, on the reversed children. */
  lemma ReversedWiderMinimum(cfg: Config, children: seq<Item>, width: real, height: real, i: nat, wider: real)
    requires HintsNonNegative(children)
    requires Sizable(cfg, |children|)
    requires i < |children| && children[i].hintX.None? && wider >= children[i].width
    ensures HintsNonNegative(Reverse(children)) && HintsNonNegative(Reverse(children[i := children[i].(width := wider)]))
    ensures SizePass(cfg, Reverse(children), width, height).sizing.minWidth
         <= SizePass(cfg, Reverse(children[i := children[i].(width := wider)]), width, height).sizing.minWidth
  {
    var flow, j := Reverse(children), |children| - 1 - i;
    assert HintsNonNegative(flow);
    var v := children[i].(width := wider);
    assert flow[j] == children[i] && flow[j].(width := wider) == v;
    ReverseUpdate(children, i, v);
    assert Reverse(children[i := v]) == flow[j := flow[j].(width := wider)];
    SizedWiderMinimum(cfg, flow, width, height, j, wider);
  }

  /** Making a stored child of fixed height taller never lowers the
      minimum height the layout pass reports. */
  lemma TallerChildMinimum(cfg: Config, children: seq<Item>, x: real, y: real, width: real, height: real,
                           i: nat, taller: real)
    requires HintsNonNegative(children)
    requires |children| > 0 && Sizable(cfg, |children|)
    requires i < |children| && children[i].hintY.None? && taller >= children[i].height
    ensures HintsNonNegative(children[i := children[i].(height := taller)])
    ensures var r1 := DoLayout(cfg, children, x, y, width, height);
            var r2 := DoLayout(cfg, children[i := children[i].(height := taller)], x, y, width, height);
            r1.Placed? && r2.Placed? && r1.layout.minHeight <= r2.layout.minHeight
  {
    var c2 := children[i := children[i].(height := taller)];
    ReversedTallerMinimum(cfg, children, width, height, i, taller);
    PlacedMinimum(cfg, children, x, y, width, height);
    PlacedMinimum(cfg, c2, x, y, width, height);
  }

  /** The sizing-level step of `TallerChildMinimum`, on the reversed children. */
  lemma ReversedTallerMinimum(cfg: Config, children: seq<Item>, width: real, height: real, i: nat, taller: real)
    requires HintsNonNegative(children)
    requires Sizable(cfg, |children|)
    requires i < |children| && children[i].hintY.None? && taller >= children[i].height
    ensures HintsNonNegative(Reverse(children)) && HintsNonNegative(Reverse(children[i := children[i].(height := taller)]))
    ensures SizePass(cfg, Reverse(children), width, height).sizing.minHeight
         <= SizePass(cfg, Reverse(children[i := children[i].(height := taller)]), width, height).sizing.minHeight
  {
    var flow, j := Reverse(children), |children| - 1 - i;
    assert HintsNonNegative(flow);
    var v := children[i].(height := taller);
    assert flow[j] == children[i] && flow[j].(height := taller) == v;
    ReverseUpdate(children, i, v);
    assert Reverse(children[i := v]) == flow[j := flow[j].(height := taller)];
    SizedTallerMinimum(cfg, flow, width, height, j, taller);
  }

  /** With non-forced columns (rows), a child of fixed width (height) keeps
      it, and it fits in the cell it is placed in. */
  lemma FixedChildFits(cfg: Config, children: seq<Item>, x: real, y: real, width: real, height: real, k: nat)
    requires HintsNonNegative(children)
    requires Sizable(cfg, |children|) && k < |children|
    ensures DoLayout(cfg, children, x, y, width, height).Placed?
    ensures var l, n := DoLayout(cfg, children, x, y, width, height).layout, |children|;
            var c := children[n - 1 - k];
            (!cfg.colForce && c.hintX.None? ==> l.children[n - 1 - k].width == c.width <= l.placements[k].width)
            && (!cfg.rowForce && c.hintY.None? ==> l.children[n - 1 - k].height == c.height <= l.placements[k].height)
  {
    var flow := Reverse(children);
    assert HintsNonNegative(flow);
    ChildFitsSizing(cfg, children, flow, width, height, k);
    var s := SizePass(cfg, flow, width, height).sizing;
    PlaceKeepsFit(cfg, children, s, x, y, height, k);
  }

  /** Stored child n - 1 - k, in flow cell k, fits that cell's column and
      row of the sizing when it is fixed along them. */
  lemma ChildFitsSizing(cfg: Config, children: seq<Item>, flow: seq<Item>, width: real, height: real, k: nat)
    requires HintsNonNegative(flow)
    requires Sizable(cfg, |flow|) && k < |flow| == |children| && flow[k] == children[|children| - 1 - k]
    ensures var s, c := SizePass(cfg, flow, width, height).sizing, children[|children| - 1 - k];
            k / s.shape.ncols < s.shape.nrows
            && (!cfg.colForce && c.hintX.None? ==> c.width <= s.cols[k % s.shape.ncols])
            && (!cfg.rowForce && c.hintY.None? ==> c.height <= s.rows[k / s.shape.ncols])
  {
    SizedFixedFits(cfg, flow, width, height, k);
  }

  /** A child that fits its flow cell's column and row keeps its fixed
      lengths through the write-back and fits the triple it is given. */
  lemma PlaceKeepsFit(cfg: Config, children: seq<Item>, s: Sizing, x: real, y: real, height: real, k: nat)
    requires |s.cols| > 0 && |children| <= |s.cols| * |s.rows| && k < |children|
    requires k / |s.cols| < |s.rows|
    requires var c := children[|children| - 1 - k];
      (!cfg.colForce && c.hintX.None? ==> c.width <= s.cols[k % |s.cols|])
      && (!cfg.rowForce && c.hintY.None? ==> c.height <= s.rows[k / |s.cols|])
    ensures var l, n := Place(cfg, children, s, x, y, height), |children|;
            var c := children[n - 1 - k];
            (!cfg.colForce && c.hintX.None? ==> l.children[n - 1 - k].width == c.width <= l.placements[k].width)
            && (!cfg.rowForce && c.hintY.None? ==> l.children[n - 1 - k].height == c.height <= l.placements[k].height)
  {
    var left, top := x + cfg.padLeft, y + height - cfg.padTop;
    CellSize(|children|, s.cols, s.rows, left, top, cfg.spacingX, cfg.spacingY, k);
  }

  /** Items that agree on hints and on fixed lengths are sized alike. */
  lemma SizePassIgnoresStretchLengths(cfg: Config, flow: seq<Item>, flow2: seq<Item>, width: real, height: real)
    requires HintsNonNegative(flow) && |flow2| == |flow|
    requires forall k :: 0 <= k < |flow| ==>
      flow2[k].hintX == flow[k].hintX && flow2[k].hintY == flow[k].hintY
      && (flow[k].hintX.None? ==> flow2[k].width == flow[k].width)
      && (flow[k].hintY.None? ==> flow2[k].height == flow[k].height)
    ensures HintsNonNegative(flow2)
    ensures SizePass(cfg, flow2, width, height) == SizePass(cfg, flow, width, height)
  {
    var shape := ResolveShape(cfg, |flow|);
    if shape.Some? {
      var ncols, nrows := shape.value.ncols, shape.value.nrows;
      var sc, sr := Seed(cfg.colDefault, ncols, cfg.colsMinimum), Seed(cfg.rowDefault, nrows, cfg.rowsMinimum);
      if sc.Some? && sr.Some? && |flow| <= ncols * nrows {
        RowsFit(flow, ncols, nrows);
        FillIgnoresStretchLengths(SeedAxis(sc.value), ColEntries(flow, ncols), ColEntries(flow2, ncols));
        FillIgnoresStretchLengths(SeedAxis(sr.value), RowEntries(flow, ncols), RowEntries(flow2, ncols));
      }
    }
  }

  /** A second pass over the children as the first left them changes
      nothing: stretch children already have their cell's size, and fixed
      ones still have theirs. */
  lemma LayoutIdempotent(cfg: Config, children: seq<Item>, x: real, y: real, width: real, height: real)
    requires HintsNonNegative(children)
    requires |children| > 0 && Sizable(cfg, |children|)
    ensures DoLayout(cfg, children, x, y, width, height).Placed?
    ensures var l := DoLayout(cfg, children, x, y, width, height).layout;
            HintsNonNegative(l.children) && DoLayout(cfg, l.children, x, y, width, height) == Placed(l)
  {
    PlacedIdempotent(cfg, children, x, y, width, height);
  }

  /** `LayoutIdempotent` for a pass known to have placed the children. */
  lemma PlacedIdempotent(cfg: Config, children: seq<Item>, x: real, y: real, width: real, height: real)
    requires HintsNonNegative(children)
    requires DoLayout(cfg, children, x, y, width, height).Placed?
    ensures var l := DoLayout(cfg, children, x, y, width, height).layout;
            HintsNonNegative(l.children) && DoLayout(cfg, l.children, x, y, width, height) == Placed(l)
  {
    var flow := Reverse(children);
    assert HintsNonNegative(flow);
    var s := SizePass(cfg, flow, width, height).sizing;
    var l := DoLayout(cfg, children, x, y, width, height).layout;
    assert l == Place(cfg, children, s, x, y, height);
    ResizedSizeAlike(cfg, children, s, x, y, width, height);
    PlaceAgain(cfg, children, s, x, y, height);
    assert DoLayout(cfg, l.children, x, y, width, height) == Placed(Place(cfg, l.children, s, x, y, height));
  }

  /** The children a pass leaves are sized as the children it started from. */
  lemma ResizedSizeAlike(cfg: Config, children: seq<Item>, s: Sizing, x: real, y: real, width: real, height: real)
    requires HintsNonNegative(children)
    requires HintsNonNegative(Reverse(children)) && SizePass(cfg, Reverse(children), width, height) == Sized(s)
    requires |s.cols| > 0 && |children| <= |s.cols| * |s.rows|
    ensures var l := Place(cfg, children, s, x, y, height);
            HintsNonNegative(l.children) && HintsNonNegative(Reverse(l.children))
            && SizePass(cfg, Reverse(l.children), width, height) == Sized(s)
  {
    ResizeKeepsFixed(cfg, children, s, x, y, height);
    var l := Place(cfg, children, s, x, y, height);
    SizePassIgnoresStretchLengths(cfg, Reverse(children), Reverse(l.children), width, height);
  }

  /** The write-back keeps every child's hints, and its length on each axis
      it has no hint on. */
  lemma ResizeKeepsFixed(cfg: Config, children: seq<Item>, s: Sizing, x: real, y: real, height: real)
    requires |s.cols| > 0 && |children| <= |s.cols| * |s.rows|
    ensures var flow, l := Reverse(children), Place(cfg, children, s, x, y, height);
      var flow2 := Reverse(l.children);
      |flow2| == |flow|
      && (forall i :: 0 <= i < |children| ==>
            l.children[i].hintX == children[i].hintX && l.children[i].hintY == children[i].hintY)
      && (forall k :: 0 <= k < |flow| ==>
            flow2[k].hintX == flow[k].hintX && flow2[k].hintY == flow[k].hintY
            && (flow[k].hintX.None? ==> flow2[k].width == flow[k].width)
            && (flow[k].hintY.None? ==> flow2[k].height == flow[k].height))
  {
    var n := |children|;
    var flow, l := Reverse(children), Place(cfg, children, s, x, y, height);
    var flow2 := Reverse(l.children);
    forall i | 0 <= i < n
      ensures l.children[i].hintX == children[i].hintX && l.children[i].hintY == children[i].hintY
    {
      var k := n - 1 - i;
      assert i == n - 1 - k;
      assert l.children[n - 1 - k] == SizeTo(children[n - 1 - k], l.placements[k]);
    }
    forall k | 0 <= k < n
      ensures flow2[k] == SizeTo(flow[k], l.placements[k])
    {
      assert flow2[k] == l.children[n - 1 - k] && flow[k] == children[n - 1 - k];
    }
  }

  /** Placing the placed children again with the same sizing changes
      nothing: the write-back of a cell's size is idempotent. */
  lemma PlaceAgain(cfg: Config, children: seq<Item>, s: Sizing, x: real, y: real, height: real)
    requires |s.cols| > 0 && |children| <= |s.cols| * |s.rows|
    ensures var l := Place(cfg, children, s, x, y, height);
            |l.children| == |children| && Place(cfg, l.children, s, x, y, height) == l
  {
    var n := |children|;
    var l := Place(cfg, children, s, x, y, height);
    var l2 := Place(cfg, l.children, s, x, y, height);
    assert l2.placements == l.placements;
    forall i | 0 <= i < n
      ensures l2.children[i] == l.children[i]
    {
      var k := n - 1 - i;
      assert i == n - 1 - k;
      assert l2.children[n - 1 - k] == SizeTo(l.children[n - 1 - k], l.placements[k]);
      assert l.children[n - 1 - k] == SizeTo(children[n - 1 - k], l.placements[k]);
    }
    assert l2.children == l.children;
  }
}
