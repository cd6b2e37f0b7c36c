/** Small worked grids: the capacity of a fully specified grid, a two
    column grid mixing fixed-width and stretching items, and a whole layout
    pass over a 2 x 2 grid of stretching children. */
module Scenarios {
  import opened Base
  import opened Shape
  import opened Sizer
  import opened Placer
  import Layout

  /** A 2 x 2 grid with the default row and column sizes left at zero. */
  function TwoByTwo(): Config {
    Config(Some(2), Some(2), 0.0, 0.0, false, false, map[], map[], 0.0, 0.0, 0.0, 0.0, 0.0, 0.0)
  }

  /** Four cells take four children and refuse a fifth. */
  lemma CapacityOfTwoByTwo()
    ensures AcceptsChildren(TwoByTwo(), 4) && !AcceptsChildren(TwoByTwo(), 5)
  {
  }

  /** Flow order: a 100 x 50 fixed item, a stretching one, and again. */
  function Mixed(): seq<Item> {
    [Item(100.0, 50.0, None, None), Item(0.0, 50.0, Some(1.0), None),
     Item(100.0, 50.0, None, None), Item(0.0, 50.0, Some(1.0), None)]
  }

  /** In two columns the fixed items set column 0 to 100 and the stretching
      ones give column 1 weight 1; 300 pixels leave 200 for column 1. */
  lemma MixedColumns()
    ensures var a := Fill(Layout.SeedAxis([0.0, 0.0]), ColEntries(Mixed(), 2));
      a == Axis([100.0, 0.0], [None, Some(1.0)])
      && MinimumLength(0.0, 0.0, 0.0, a.sizes) == 100.0
      && Finalize(false, 0.0, map[], a, 300.0, 100.0) == [100.0, 200.0]
  {
    var es := ColEntries(Mixed(), 2);
    assert es == [Entry(0, 100.0, None), Entry(1, 0.0, Some(1.0)),
                  Entry(0, 100.0, None), Entry(1, 0.0, Some(1.0))];
    var a0 := Layout.SeedAxis([0.0, 0.0]);
    assert a0 == Axis([0.0, 0.0], [None, None]);
    MixedFill(a0, es);
    MixedFinalize();
  }

  /** The fill pass over the mixed example's column entries. */
  lemma MixedFill(a0: Axis, es: seq<Entry>)
    requires a0 == Axis([0.0, 0.0], [None, None])
    requires es == [Entry(0, 100.0, None), Entry(1, 0.0, Some(1.0)), Entry(0, 100.0, None), Entry(1, 0.0, Some(1.0))]
    ensures Fits(a0, es) && Fill(a0, es) == Axis([100.0, 0.0], [None, Some(1.0)])
  {
    var a := Fill(a0, es);
    FillIsSlotMax(a0, es, 0);
    FillIsSlotMax(a0, es, 1);
    assert es[0].slot == 0 && es[0].hint.None? && es[0].length == 100.0;
    assert forall j :: 0 <= j < |es| && es[j].slot == 1 ==> es[j].hint == Some(1.0);
    assert forall j :: 0 <= j < |es| && es[j].slot == 0 ==> es[j].hint.None? && es[j].length == 100.0;
    assert a.sizes[0] == 100.0 && a.sizes[1] == 0.0;
    assert a.hints[0] == None && a.hints[1] == Some(1.0);
    assert a == Axis([100.0, 0.0], [None, Some(1.0)]);
  }

  /** The minimum width and the finalised columns of the mixed example. */
  lemma MixedFinalize()
    ensures var a := Axis([100.0, 0.0], [None, Some(1.0)]);
      MinimumLength(0.0, 0.0, 0.0, a.sizes) == 100.0
      && Finalize(false, 0.0, map[], a, 300.0, 100.0) == [100.0, 200.0]
  {
    var a := Axis([100.0, 0.0], [None, Some(1.0)]);
    assert Sum(a.sizes) == 100.0;
    var r := Finalize(false, 0.0, map[], a, 300.0, 100.0);
    assert TotalWeight(a.hints) == 1.0;
    assert r[0] == 100.0 && r[1] == 200.0;
  }

  /** Four children that stretch on both axes. */
  function Stretchy(): seq<Item> {
    [Item(10.0, 10.0, Some(1.0), Some(1.0)), Item(10.0, 10.0, Some(1.0), Some(1.0)),
     Item(10.0, 10.0, Some(1.0), Some(1.0)), Item(10.0, 10.0, Some(1.0), Some(1.0))]
  }

  /** The axis both fill passes of `Stretchy` end with: no base size and weight 1 everywhere. */
  function EvenStretch(): Axis {
    Axis([0.0, 0.0], [Some(1.0), Some(1.0)])
  }

  /** A whole pass of the 2 x 2 grid at the origin, 200 wide and 100 high:
      the space is shared equally, each cell is 100 x 50, the first stored
      child lands bottom right and the last one top left, and every child
      takes its cell's size. */
  lemma StretchingTwoByTwo(cfg: Config, children: seq<Item>)
    requires cfg == TwoByTwo() && children == Stretchy()
    ensures Layout.HintsNonNegative(children)
    ensures var r := Layout.DoLayout(cfg, children, 0.0, 0.0, 200.0, 100.0);
      r.Placed? && r.layout.minWidth == 0.0 && r.layout.minHeight == 0.0
      && r.layout.cols == [100.0, 100.0] && r.layout.rows == [50.0, 50.0]
      && r.layout.placements == StretchyCells()
      && forall i :: 0 <= i < 4 ==> r.layout.children[i] == Item(100.0, 50.0, Some(1.0), Some(1.0))
  {
    StretchyLayable();
    StretchySizing(cfg, children);
    var s := Layout.SizePass(cfg, Layout.Reverse(children), 200.0, 100.0).sizing;
    StretchyPlace(cfg, children, s);
  }

  /** Placing `Stretchy` with the sizing of the pass. */
  lemma StretchyPlace(cfg: Config, children: seq<Item>, s: Layout.Sizing)
    requires cfg == TwoByTwo() && children == Stretchy()
    requires s.cols == [100.0, 100.0] && s.rows == [50.0, 50.0] && s.minWidth == 0.0 && s.minHeight == 0.0
    ensures var l := Layout.Place(cfg, children, s, 0.0, 0.0, 100.0);
      l.minWidth == 0.0 && l.minHeight == 0.0 && l.cols == [100.0, 100.0] && l.rows == [50.0, 50.0]
      && l.placements == StretchyCells()
      && forall i :: 0 <= i < 4 ==> l.children[i] == Item(100.0, 50.0, Some(1.0), Some(1.0))
  {
    assert cfg.padLeft == 0.0 && cfg.padTop == 0.0 && cfg.spacingX == 0.0 && cfg.spacingY == 0.0;
    StretchyPlacements(s.cols, s.rows, 0.0 + cfg.padLeft, 0.0 + 100.0 - cfg.padTop, cfg.spacingX, cfg.spacingY);
    var l := Layout.Place(cfg, children, s, 0.0, 0.0, 100.0);
    assert |l.children| == |children| == 4;
    StretchyResized(children, l);
  }

  /** Every child of `Stretchy` takes the 100 x 50 size of its cell. */
  lemma StretchyResized(children: seq<Item>, l: Layout.Layout)
    requires children == Stretchy() && |l.children| == 4 && l.placements == StretchyCells()
    requires forall k :: 0 <= k < |children| ==>
      l.children[|children| - 1 - k] == Layout.SizeTo(children[|children| - 1 - k], l.placements[k])
    ensures forall i :: 0 <= i < 4 ==> l.children[i] == Item(100.0, 50.0, Some(1.0), Some(1.0))
  {
    forall i | 0 <= i < 4
      ensures l.children[i] == Item(100.0, 50.0, Some(1.0), Some(1.0))
    {
      var k := 3 - i;
      assert l.children[|children| - 1 - k] == Layout.SizeTo(children[|children| - 1 - k], l.placements[k]);
    }
  }

  /** The four children, reversed into flow order, fit the 2 x 2 grid. */
  lemma StretchyLayable()
    ensures Layout.Reverse(Stretchy()) == Stretchy()
    ensures Layout.HintsNonNegative(Stretchy()) && Layout.Sizable(TwoByTwo(), 4)
  {
    assert ResolveShape(TwoByTwo(), 4) == Some(GridShape(2, 2));
  }

  /** The sizing of the pass: no minimum beyond zero padding, 100-wide
      columns and 50-high rows. */
  lemma StretchySizing(cfg: Config, flow: seq<Item>)
    requires cfg == TwoByTwo() && flow == Stretchy()
    ensures Layout.HintsNonNegative(flow)
    ensures var sp := Layout.SizePass(cfg, flow, 200.0, 100.0);
      sp.Sized? && sp.sizing.minWidth == 0.0 && sp.sizing.minHeight == 0.0
      && sp.sizing.cols == [100.0, 100.0] && sp.sizing.rows == [50.0, 50.0]
  {
    StretchyLayable();
    Layout.SizedFinalizes(cfg, flow, 200.0, 100.0);
    Layout.SizedFills(cfg, flow, 200.0, 100.0);
    var s := Layout.SizePass(cfg, flow, 200.0, 100.0).sizing;
    assert s.shape == GridShape(2, 2);
    StretchyFills();
    assert s.colsFill == EvenStretch() && s.rowsFill == EvenStretch();
    EvenFinalize();
  }

  /** Both fill passes over the seeded zero axes give `EvenStretch`. */
  lemma StretchyFills()
    ensures Shape.Seed(0.0, 2, map[]) == Some([0.0, 0.0])
    ensures var a0 := Layout.SeedAxis([0.0, 0.0]);
      Fits(a0, ColEntries(Stretchy(), 2)) && Fill(a0, ColEntries(Stretchy(), 2)) == EvenStretch()
      && Fits(a0, RowEntries(Stretchy(), 2)) && Fill(a0, RowEntries(Stretchy(), 2)) == EvenStretch()
  {
    var sd := Shape.Seed(0.0, 2, map[]);
    assert sd.Some? && sd.value[0] == 0.0 && sd.value[1] == 0.0;
    assert sd.value == [0.0, 0.0];
    var a0 := Layout.SeedAxis([0.0, 0.0]);
    assert a0 == Axis([0.0, 0.0], [None, None]);
    var ce, re := ColEntries(Stretchy(), 2), RowEntries(Stretchy(), 2);
    assert ce[0].slot == 0 && ce[3].slot == 1;
    assert re[0].slot == 0 && re[3].slot == 1;
    StretchFill(a0, ce);
    StretchFill(a0, re);
  }

  /** The minimum size and the shared-out slots of `EvenStretch`. */
  lemma EvenFinalize()
    ensures MinimumLength(0.0, 0.0, 0.0, EvenStretch().sizes) == 0.0
    ensures Finalize(false, 0.0, map[], EvenStretch(), 200.0, 0.0) == [100.0, 100.0]
    ensures Finalize(false, 0.0, map[], EvenStretch(), 100.0, 0.0) == [50.0, 50.0]
  {
    var a := EvenStretch();
    assert Sum(a.sizes) == 0.0;
    assert TotalWeight(a.hints) == 2.0;
  }

  /** The triples of the 2 x 2 pass, in flow order. */
  function StretchyCells(): seq<Placement> {
    [Placement(3, 0.0, 50.0, 100.0, 50.0), Placement(2, 100.0, 50.0, 100.0, 50.0),
     Placement(1, 0.0, 0.0, 100.0, 50.0), Placement(0, 100.0, 0.0, 100.0, 50.0)]
  }

  /** Top row first, left to right, with the top edge at 100. */
  lemma StretchyPlacements(cols: seq<real>, rows: seq<real>, left: real, top: real, spacingX: real, spacingY: real)
    requires cols == [100.0, 100.0] && rows == [50.0, 50.0]
    requires left == 0.0 && top == 100.0 && spacingX == 0.0 && spacingY == 0.0
    ensures Placements(4, cols, rows, left, top, spacingX, spacingY) == StretchyCells()
  {
    var ps := Placements(4, cols, rows, left, top, spacingX, spacingY);
    CellAt(4, cols, rows, left, top, spacingX, spacingY, 0, 0, 0);
    CellAt(4, cols, rows, left, top, spacingX, spacingY, 0, 1, 1);
    CellAt(4, cols, rows, left, top, spacingX, spacingY, 1, 0, 2);
    CellAt(4, cols, rows, left, top, spacingX, spacingY, 1, 1, 3);
    assert ps[0] == StretchyCells()[0];
    assert ps[1] == StretchyCells()[1];
    assert ps[2] == StretchyCells()[2];
    assert ps[3] == StretchyCells()[3];
  }

  /** Filling an unhinted zero axis with four entries that all carry hint 1
      and reach both slots. */
  lemma StretchFill(a0: Axis, es: seq<Entry>)
    requires a0 == Axis([0.0, 0.0], [None, None])
    requires |es| == 4 && es[0].slot == 0 && es[3].slot == 1
    requires forall j :: 0 <= j < 4 ==> es[j].slot < 2 && es[j].hint == Some(1.0)
    ensures Fits(a0, es) && Fill(a0, es) == EvenStretch()
  {
    var f := Fill(a0, es);
    forall t | 0 <= t < 2
      ensures f.sizes[t] == 0.0 && f.hints[t] == Some(1.0)
    {
      FillIsSlotMax(a0, es, t);
      assert t == 0 ==> es[0].slot == t;
      assert t == 1 ==> es[3].slot == t;
    }
    assert f.sizes == [0.0, 0.0] && f.hints == [Some(1.0), Some(1.0)];
  }
}
