/** Cell sizing: the fill pass that raises each column and row to fit its
    fixed-size items and records the largest stretch hint it sees, the
    minimum grid size, and the finalize pass that shares the leftover space
    among stretch slots in proportion to their weight.

    Columns and rows are sized by the same algorithm, so it is stated once
    over an axis: a sequence of slots, each with a base size and an optional
    stretch weight, fed with entries (slot, length, hint). */
module Sizer {
  import opened Base
  import Shape

  /** What the layout reads of one item: its size and its size hint, where
      a None hint on an axis means the item has a fixed length there. */
  datatype Item = Item(width: real, height: real, hintX: Option<real>, hintY: Option<real>)

  /** One item as seen by one axis: the slot it falls in, its length along
      the axis and its hint on the axis. */
  datatype Entry = Entry(slot: nat, length: real, hint: Option<real>)

  /** Per-slot base sizes and stretch weights of one axis. */
  datatype Axis = Axis(sizes: seq<real>, hints: seq<Option<real>>)

  ghost predicate Fits(a: Axis, es: seq<Entry>) {
    |a.sizes| == |a.hints| && forall j :: 0 <= j < |es| ==> es[j].slot < |a.sizes|
  }

  /** Column entries of items in flow order: flow index k sits in column k % ncols. */
  function ColEntries(flow: seq<Item>, ncols: nat): (es: seq<Entry>)
    requires ncols > 0
    ensures |es| == |flow|
    ensures forall k :: 0 <= k < |flow| ==> es[k] == Entry(k % ncols, flow[k].width, flow[k].hintX)
  {
    seq(|flow|, k requires 0 <= k < |flow| => Entry(k % ncols, flow[k].width, flow[k].hintX))
  }

  /** Row entries of items in flow order: flow index k sits in row k / ncols. */
  function RowEntries(flow: seq<Item>, ncols: nat): (es: seq<Entry>)
    requires ncols > 0
    ensures |es| == |flow|
    ensures forall k :: 0 <= k < |flow| ==> es[k] == Entry(k / ncols, flow[k].height, flow[k].hintY)
  {
    seq(|flow|, k requires 0 <= k < |flow| => Entry(k / ncols, flow[k].height, flow[k].hintY))
  }

  /** The placement loop visits row r, column c as flow item r * ncols + c;
      the fill pass charges that item to column c and to row r. */
  lemma EntriesFollowRowMajor(flow: seq<Item>, ncols: nat, r: nat, c: nat, k: nat)
    requires c < ncols && k == r * ncols + c && k < |flow|
    ensures ColEntries(flow, ncols)[k] == Entry(c, flow[k].width, flow[k].hintX)
    ensures RowEntries(flow, ncols)[k] == Entry(r, flow[k].height, flow[k].hintY)
  {
    RowMajor(r, c, ncols);
  }

  /** Folding one entry into its slot: a fixed entry raises the base size,
      a stretch entry raises the stretch weight. */
  function Step(a: Axis, e: Entry): (r: Axis)
    requires |a.sizes| == |a.hints| && e.slot < |a.sizes|
    ensures |r.sizes| == |a.sizes| && |r.hints| == |a.hints|
    ensures forall t :: 0 <= t < |a.sizes| && t != e.slot ==> r.sizes[t] == a.sizes[t] && r.hints[t] == a.hints[t]
    ensures e.hint.None? ==>
              r.hints == a.hints
              && r.sizes[e.slot] >= a.sizes[e.slot] && r.sizes[e.slot] >= e.length
              && (r.sizes[e.slot] == a.sizes[e.slot] || r.sizes[e.slot] == e.length)
    ensures e.hint.Some? ==>
              r.sizes == a.sizes
              && r.hints[e.slot].Some? && r.hints[e.slot].value >= e.hint.value
              && (a.hints[e.slot].Some? ==> r.hints[e.slot].value >= a.hints[e.slot].value)
              && (r.hints[e.slot] == a.hints[e.slot] || r.hints[e.slot] == e.hint)
  {
    if e.hint.None? then
      a.(sizes := a.sizes[e.slot := NMax(Some(a.sizes[e.slot]), e.length)])
    else
      a.(hints := a.hints[e.slot := Some(NMax(a.hints[e.slot], e.hint.value))])
  }

  /** The fill pass over one axis: entries folded in flow order. */
  function Fill(a: Axis, es: seq<Entry>): (r: Axis)
    requires Fits(a, es)
    ensures |r.sizes| == |a.sizes| && |r.hints| == |a.hints|
    ensures forall t :: 0 <= t < |a.sizes| ==> r.sizes[t] >= a.sizes[t]
  {
    if |es| == 0 then a else Step(Fill(a, es[..|es| - 1]), es[|es| - 1])
  }

  /** `m` is the largest of `seed` and the lengths of the fixed entries of slot `s`. */
  ghost predicate IsSlotMax(m: real, seed: real, es: seq<Entry>, s: nat) {
    && m >= seed
    && (forall j :: 0 <= j < |es| && es[j].slot == s && es[j].hint.None? ==> m >= es[j].length)
    && (m == seed || exists j :: 0 <= j < |es| && es[j].slot == s && es[j].hint.None? && es[j].length == m)
  }

  /** `w` is the largest of `seed` and the hints of the stretch entries of
      slot `s`, None when there is neither. */
  ghost predicate IsSlotWeight(w: Option<real>, seed: Option<real>, es: seq<Entry>, s: nat) {
    && (w.None? <==> seed.None? && forall j :: 0 <= j < |es| && es[j].slot == s ==> es[j].hint.None?)
    && (seed.Some? ==> w.Some? && w.value >= seed.value)
    && (forall j :: 0 <= j < |es| && es[j].slot == s && es[j].hint.Some? ==> w.Some? && w.value >= es[j].hint.value)
    && (w.Some? ==> w == seed || exists j :: 0 <= j < |es| && es[j].slot == s && es[j].hint == w)
  }

  /** After the fill pass each slot's base size is the maximum of its seed
      and its fixed entries' lengths, and its weight is the maximum of its
      stretch entries' hints (None if it has none). */
  lemma FillIsSlotMax(a: Axis, es: seq<Entry>, s: nat)
    requires Fits(a, es) && s < |a.sizes|
    ensures IsSlotMax(Fill(a, es).sizes[s], a.sizes[s], es, s)
    ensures IsSlotWeight(Fill(a, es).hints[s], a.hints[s], es, s)
  {
    FillSizeIsSlotMax(a, es, s);
    FillWeightIsSlotMax(a, es, s);
  }

  /** The base-size half of `FillIsSlotMax`, by induction on the entries. */
  lemma {:induction false} FillSizeIsSlotMax(a: Axis, es: seq<Entry>, s: nat)
    requires Fits(a, es) && s < |a.sizes|
    ensures IsSlotMax(Fill(a, es).sizes[s], a.sizes[s], es, s)
  {
    if |es| > 0 {
      var init := es[..|es| - 1];
      var e := es[|es| - 1];
      FillSizeIsSlotMax(a, init, s);
      var p := Fill(a, init);
      var r := Fill(a, es);
      assert r == Step(p, e);
      forall j | 0 <= j < |init|
        ensures es[j] == init[j]
      {
      }
      if e.slot == s && e.hint.None? {
        if r.sizes[s] != a.sizes[s] && r.sizes[s] != e.length {
          var j :| 0 <= j < |init| && init[j].slot == s && init[j].hint.None? && init[j].length == p.sizes[s];
          assert es[j] == init[j];
        }
      } else if p.sizes[s] != a.sizes[s] {
        var j :| 0 <= j < |init| && init[j].slot == s && init[j].hint.None? && init[j].length == p.sizes[s];
        assert es[j] == init[j];
      }
    }
  }

  /** The weight half of `FillIsSlotMax`, by induction on the entries. */
  lemma {:induction false} FillWeightIsSlotMax(a: Axis, es: seq<Entry>, s: nat)
    requires Fits(a, es) && s < |a.sizes|
    ensures IsSlotWeight(Fill(a, es).hints[s], a.hints[s], es, s)
  {
    if |es| > 0 {
      var init := es[..|es| - 1];
      var e := es[|es| - 1];
      FillWeightIsSlotMax(a, init, s);
      var p := Fill(a, init);
      var r := Fill(a, es);
      assert r == Step(p, e);
      forall j | 0 <= j < |init|
        ensures es[j] == init[j]
      {
      }
      if e.slot == s && e.hint.Some? {
        if r.hints[s] != a.hints[s] && r.hints[s] != e.hint {
          var j :| 0 <= j < |init| && init[j].slot == s && init[j].hint == p.hints[s];
          assert es[j] == init[j];
        }
      } else if p.hints[s].Some? && p.hints[s] != a.hints[s] {
        var j :| 0 <= j < |init| && init[j].slot == s && init[j].hint == p.hints[s];
        assert es[j] == init[j];
      }
    }
  }

  /** A fixed entry fits in its slot after the fill pass. */
  lemma FixedFitsSlot(a: Axis, es: seq<Entry>, k: nat)
    requires Fits(a, es) && k < |es| && es[k].hint.None?
    ensures es[k].length <= Fill(a, es).sizes[es[k].slot]
  {
    FillIsSlotMax(a, es, es[k].slot);
  }

  /** `es2` differs from `es` only in lengths, and only upward on fixed entries. */
  ghost predicate LengthsDominate(es: seq<Entry>, es2: seq<Entry>) {
    && |es| == |es2|
    && forall j :: 0 <= j < |es| ==>
         es2[j].slot == es[j].slot && es2[j].hint == es[j].hint &&
         (es[j].hint.None? ==> es2[j].length >= es[j].length)
  }

  /** Lengthening fixed items never shrinks a slot and leaves the weights alone. */
  lemma {:induction false} FillMonotone(a: Axis, es: seq<Entry>, es2: seq<Entry>)
    requires Fits(a, es) && LengthsDominate(es, es2)
    ensures Fits(a, es2)
    ensures Fill(a, es).hints == Fill(a, es2).hints
    ensures forall s :: 0 <= s < |a.sizes| ==> Fill(a, es).sizes[s] <= Fill(a, es2).sizes[s]
  {
    if |es| > 0 {
      FillMonotone(a, es[..|es| - 1], es2[..|es2| - 1]);
    }
  }

  /** The fill pass reads only the slots, the hints and the lengths of
      fixed entries: entries that agree on those give the same axis. */
  lemma {:induction false} FillIgnoresStretchLengths(a: Axis, es: seq<Entry>, es2: seq<Entry>)
    requires Fits(a, es) && |es2| == |es|
    requires forall j :: 0 <= j < |es| ==>
      es2[j].slot == es[j].slot && es2[j].hint == es[j].hint && (es[j].hint.None? ==> es2[j].length == es[j].length)
    ensures Fits(a, es2) && Fill(a, es2) == Fill(a, es)
  {
    if |es| > 0 {
      FillIgnoresStretchLengths(a, es[..|es| - 1], es2[..|es2| - 1]);
    }
  }

  /** Non-negative hints in give non-negative weights out. */
  lemma FillHintsNonNegative(a: Axis, es: seq<Entry>)
    requires Fits(a, es) && NonNegativeHints(a.hints)
    requires forall j :: 0 <= j < |es| ==> es[j].hint.Some? ==> es[j].hint.value >= 0.0
    ensures NonNegativeHints(Fill(a, es).hints)
  {
    var w := Fill(a, es).hints;
    forall s | 0 <= s < |w| && w[s].Some?
      ensures w[s].value >= 0.0
    {
      FillIsSlotMax(a, es, s);
    }
  }

  /** Minimum length of one axis: both paddings, one spacing between each
      pair of neighbouring slots, and every slot's base size. */
  function MinimumLength(padStart: real, padEnd: real, spacing: real, sizes: seq<real>): (r: real)
    requires |sizes| >= 1
    ensures spacing >= 0.0 ==> r >= padStart + padEnd + Sum(sizes)
    ensures spacing >= 0.0 && (forall i :: 0 <= i < |sizes| ==> sizes[i] >= 0.0) ==> r >= padStart + padEnd
    ensures |sizes| == 1 ==> r == padStart + padEnd + sizes[0]
  {
    SumOfNonNegativeIf(sizes);
    Overhead(padStart, padEnd, spacing, |sizes|) + Sum(sizes)
  }

  /** The part of the minimum length that does not depend on the slot
      sizes: both paddings and the spacing between `n` slots. */
  function Overhead(padStart: real, padEnd: real, spacing: real, n: nat): (r: real)
    requires n >= 1
    ensures spacing >= 0.0 ==> r >= padStart + padEnd
    ensures n == 1 ==> r == padStart + padEnd
  {
    padStart + padEnd + spacing * (n - 1) as real
  }

  lemma SumOfNonNegativeIf(sizes: seq<real>)
    ensures (forall i :: 0 <= i < |sizes| ==> sizes[i] >= 0.0) ==> Sum(sizes) >= 0.0
  {
    if forall i :: 0 <= i < |sizes| ==> sizes[i] >= 0.0 {
      SumOfNonNegative(sizes);
    }
  }

  /** The minimum width never decreases when one fixed-width item gets wider. */
  lemma MinimumWidthMonotone(
    a: Axis, flow: seq<Item>, ncols: nat, k: nat, wider: real,
    padStart: real, padEnd: real, spacing: real)
    requires ncols > 0 && |a.sizes| >= 1
    requires Fits(a, ColEntries(flow, ncols))
    requires k < |flow| && flow[k].hintX.None? && wider >= flow[k].width
    ensures Fits(a, ColEntries(flow[k := flow[k].(width := wider)], ncols))
    ensures MinimumLength(padStart, padEnd, spacing, Fill(a, ColEntries(flow, ncols)).sizes)
         <= MinimumLength(padStart, padEnd, spacing, Fill(a, ColEntries(flow[k := flow[k].(width := wider)], ncols)).sizes)
  {
    var flow2 := flow[k := flow[k].(width := wider)];
    var es, es2 := ColEntries(flow, ncols), ColEntries(flow2, ncols);
    assert LengthsDominate(es, es2);
    FillMonotone(a, es, es2);
    var s1, s2 := Fill(a, es).sizes, Fill(a, es2).sizes;
    SumMonotone(s1, s2);
  }

  /** The minimum height never decreases when one fixed-height item gets taller. */
  lemma MinimumHeightMonotone(
    a: Axis, flow: seq<Item>, ncols: nat, k: nat, taller: real,
    padStart: real, padEnd: real, spacing: real)
    requires ncols > 0 && |a.sizes| >= 1
    requires Fits(a, RowEntries(flow, ncols))
    requires k < |flow| && flow[k].hintY.None? && taller >= flow[k].height
    ensures Fits(a, RowEntries(flow[k := flow[k].(height := taller)], ncols))
    ensures MinimumLength(padStart, padEnd, spacing, Fill(a, RowEntries(flow, ncols)).sizes)
         <= MinimumLength(padStart, padEnd, spacing, Fill(a, RowEntries(flow[k := flow[k].(height := taller)], ncols)).sizes)
  {
    var flow2 := flow[k := flow[k].(height := taller)];
    var es, es2 := RowEntries(flow, ncols), RowEntries(flow2, ncols);
    assert LengthsDominate(es, es2);
    FillMonotone(a, es, es2);
    var s1, s2 := Fill(a, es).sizes, Fill(a, es2).sizes;
    SumMonotone(s1, s2);
  }

  // ---------------------------------------------------------------------
  // Finalize

  /** The weight a slot takes part in the distribution with: falsy weights count 0. */
  function WeightOf(h: Option<real>): real {
    if Truthy(h) then h.value else 0.0
  }

  /** Sum of the truthy stretch weights. */
  function TotalWeight(hints: seq<Option<real>>): (r: real)
    ensures (forall i :: 0 <= i < |hints| ==> !Truthy(hints[i])) ==> r == 0.0
  {
    if |hints| == 0 then 0.0 else TotalWeight(hints[..|hints| - 1]) + WeightOf(hints[|hints| - 1])
  }

  ghost predicate NonNegativeHints(hints: seq<Option<real>>) {
    forall i :: 0 <= i < |hints| ==> hints[i].Some? ==> hints[i].value >= 0.0
  }

  ghost predicate AnyStretch(hints: seq<Option<real>>) {
    exists i :: 0 <= i < |hints| && Truthy(hints[i])
  }

  /** With non-negative weights the total is positive exactly when some slot stretches. */
  lemma {:induction false} TotalWeightPositive(hints: seq<Option<real>>)
    requires NonNegativeHints(hints)
    ensures TotalWeight(hints) >= 0.0
    ensures TotalWeight(hints) > 0.0 <==> AnyStretch(hints)
  {
    if |hints| > 0 {
      var init := hints[..|hints| - 1];
      TotalWeightPositive(init);
      if AnyStretch(init) {
        var i :| 0 <= i < |init| && Truthy(init[i]);
        assert hints[i] == init[i];
      }
      if AnyStretch(hints) && !Truthy(hints[|hints| - 1]) {
        var i :| 0 <= i < |hints| && Truthy(hints[i]);
        assert i < |init| && init[i] == hints[i];
      }
    }
  }

  /** The share of `slack` a slot of weight `w` receives out of a total weight `total`. */
  function Share(slack: real, w: real, total: real): real
    requires total > 0.0
  {
    slack * w / total
  }

  lemma ShareZero(slack: real, total: real)
    requires total > 0.0
    ensures Share(slack, 0.0, total) == 0.0
  {
  }

  lemma ShareNonNegative(slack: real, w: real, total: real)
    requires total > 0.0
    ensures slack >= 0.0 && w >= 0.0 ==> Share(slack, w, total) >= 0.0
  {
    if slack >= 0.0 && w >= 0.0 {
      var p := slack * w / total;
      assert p * total == slack * w;
      assert slack * w >= 0.0;
    }
  }

  lemma AddShares(slack: real, a: real, b: real, c: real, total: real)
    requires total > 0.0 && c == a + b
    ensures Share(slack, a, total) + Share(slack, b, total) == Share(slack, c, total)
  {
    var p, q, u := slack * a / total, slack * b / total, slack * c / total;
    assert p * total == slack * a && q * total == slack * b && u * total == slack * c;
    assert slack * c == slack * a + slack * b;
    assert (p + q) * total == u * total;
  }

  lemma ShareWhole(slack: real, total: real)
    requires total > 0.0
    ensures Share(slack, total, total) == slack
  {
  }

  /** The space left once the minimum is met, never negative. */
  function Slack(available: real, minimum: real): (r: real)
    ensures r >= 0.0 && r >= available - minimum
    ensures r == 0.0 || r == available - minimum
  {
    Max(0.0, available - minimum)
  }

  ghost predicate TotalCovers(hints: seq<Option<real>>, total: real) {
    forall i :: 0 <= i < |hints| && Truthy(hints[i]) ==> total > 0.0
  }

  /** Size of slot i once it has received its share of the slack. */
  function Grown(sizes: seq<real>, hints: seq<Option<real>>, i: nat, slack: real, total: real): (r: real)
    requires |sizes| == |hints| && i < |sizes| && TotalCovers(hints, total)
    ensures !Truthy(hints[i]) ==> r == sizes[i]
    ensures Truthy(hints[i]) && slack >= 0.0 && hints[i].value >= 0.0 ==> r >= sizes[i]
  {
    if Truthy(hints[i]) then
      ShareNonNegative(slack, hints[i].value, total);
      sizes[i] + Share(slack, hints[i].value, total)
    else sizes[i]
  }

  /** Every slot grown by its share of the slack. */
  function Stretch(sizes: seq<real>, hints: seq<Option<real>>, slack: real, total: real): (r: seq<real>)
    requires |sizes| == |hints| && TotalCovers(hints, total)
    ensures |r| == |sizes|
    ensures forall i :: 0 <= i < |sizes| && !Truthy(hints[i]) ==> r[i] == sizes[i]
    ensures slack >= 0.0 && NonNegativeHints(hints) ==> forall i :: 0 <= i < |sizes| ==> r[i] >= sizes[i]
  {
    seq(|sizes|, i requires 0 <= i < |sizes| => Grown(sizes, hints, i, slack, total))
  }

  lemma GrownIsShare(sizes: seq<real>, hints: seq<Option<real>>, i: nat, slack: real, total: real)
    requires |sizes| == |hints| && i < |sizes| && total > 0.0
    ensures Grown(sizes, hints, i, slack, total) == sizes[i] + Share(slack, WeightOf(hints[i]), total)
  {
    if !Truthy(hints[i]) {
      ShareZero(slack, total);
    }
  }

  /** The stretched slots add up to the base sizes plus the share the total
      weight of the slots would receive. */
  lemma {:induction false} StretchSum(sizes: seq<real>, hints: seq<Option<real>>, slack: real, total: real)
    requires |sizes| == |hints| && total > 0.0
    ensures Sum(Stretch(sizes, hints, slack, total)) == Sum(sizes) + Share(slack, TotalWeight(hints), total)
  {
    if |sizes| == 0 {
      ShareZero(slack, total);
    } else {
      var n := |sizes| - 1;
      var r, r0 := Stretch(sizes, hints, slack, total), Stretch(sizes[..n], hints[..n], slack, total);
      StretchSum(sizes[..n], hints[..n], slack, total);
      forall i | 0 <= i < n
        ensures r[i] == r0[i]
      {
        assert sizes[..n][i] == sizes[i] && hints[..n][i] == hints[i];
      }
      assert r[..n] == r0;
      GrownIsShare(sizes, hints, n, slack, total);
      AddShares(slack, TotalWeight(hints[..n]), WeightOf(hints[n]), TotalWeight(hints), total);
    }
  }

  /** Final slot sizes of one axis. With the forced default every slot is the
      default or its override. Otherwise every truthy-weighted slot grows by
      slack * weight / total weight and the others keep their base size. */
  function Finalize(
    force: bool, default: real, overrides: map<nat, real>,
    a: Axis, available: real, minimum: real): (r: seq<real>)
    requires |a.sizes| == |a.hints|
    requires force ==> forall k :: k in overrides ==> k < |a.sizes|
    requires !force ==> NonNegativeHints(a.hints)
    ensures |r| == |a.sizes|
    ensures force ==> forall i :: 0 <= i < |r| ==>
      r[i] == if i in overrides then overrides[i] else default
    ensures !force ==> forall i :: 0 <= i < |r| ==> !Truthy(a.hints[i]) ==> r[i] == a.sizes[i]
    ensures !force ==> forall i :: 0 <= i < |r| ==> Truthy(a.hints[i]) ==>
      TotalWeight(a.hints) > 0.0 &&
      r[i] == a.sizes[i] + Share(Slack(available, minimum), a.hints[i].value, TotalWeight(a.hints))
    ensures !force ==> forall i :: 0 <= i < |r| ==> r[i] >= a.sizes[i]
  {
    if force then
      Shape.Seed(default, |a.sizes|, overrides).value
    else
      StretchCovered(a.hints);
      Stretch(a.sizes, a.hints, Slack(available, minimum), TotalWeight(a.hints))
  }

  lemma StretchCovered(hints: seq<Option<real>>)
    requires NonNegativeHints(hints)
    ensures TotalCovers(hints, TotalWeight(hints))
  {
    TotalWeightPositive(hints);
    forall i | 0 <= i < |hints| && Truthy(hints[i])
      ensures TotalWeight(hints) > 0.0
    {
      assert AnyStretch(hints);
    }
  }

  /** The forced-default sizes do not depend on the items at all. */
  lemma ForceIgnoresItems(
    default: real, overrides: map<nat, real>, a: Axis, b: Axis,
    availableA: real, minimumA: real, availableB: real, minimumB: real)
    requires |a.sizes| == |a.hints| && |b.sizes| == |b.hints| && |a.sizes| == |b.sizes|
    requires forall k :: k in overrides ==> k < |a.sizes|
    ensures Finalize(true, default, overrides, a, availableA, minimumA)
         == Finalize(true, default, overrides, b, availableB, minimumB)
  {
  }

  /** When some slot stretches, the gains add up to exactly the slack. */
  lemma StretchSharesSlack(a: Axis, available: real, minimum: real)
    requires |a.sizes| == |a.hints| && NonNegativeHints(a.hints) && AnyStretch(a.hints)
    ensures Sum(Finalize(false, 0.0, map[], a, available, minimum)) == Sum(a.sizes) + Slack(available, minimum)
  {
    TotalWeightPositive(a.hints);
    StretchCovered(a.hints);
    var total, slack := TotalWeight(a.hints), Slack(available, minimum);
    assert Finalize(false, 0.0, map[], a, available, minimum) == Stretch(a.sizes, a.hints, slack, total);
    StretchSum(a.sizes, a.hints, slack, total);
    ShareWhole(slack, total);
  }

  /** Without a stretch slot finalize changes nothing. */
  lemma NoStretchKeepsSizes(default: real, overrides: map<nat, real>, a: Axis, available: real, minimum: real)
    requires |a.sizes| == |a.hints| && NonNegativeHints(a.hints) && !AnyStretch(a.hints)
    ensures Finalize(false, default, overrides, a, available, minimum) == a.sizes
  {
  }
}
