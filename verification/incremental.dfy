/** The recycled grid's incremental bookkeeping: for every column and row a
    histogram counting how many fixed-size items have each length, and the
    decision, for a batch of changed items, between patching the histograms
    in place and asking for a full layout pass. */
module Incremental {
  import opened Base
  import opened Sizer

  /** How many items of one slot have each fixed length (a `defaultdict(int)`). */
  type Histogram = map<real, int>

  /** Reading a histogram: an absent length counts 0. */
  function Get(h: Histogram, length: real): int {
    if length in h then h[length] else 0
  }

  /** Adding `d` to the count of `length`, creating the key when absent. */
  function Bump(h: Histogram, length: real, d: int): (r: Histogram)
    ensures length in r && Get(r, length) == Get(h, length) + d
    ensures forall l :: l != length ==> Get(r, l) == Get(h, l) && (l in r <==> l in h)
  {
    h[length := Get(h, length) + d]
  }

  predicate Matches(e: Entry, s: nat, length: real) {
    e.slot == s && e.hint.None? && e.length == length
  }

  /** Number of fixed entries of slot `s` with length `length`. */
  function Count(es: seq<Entry>, s: nat, length: real): nat {
    if |es| == 0 then 0
    else Count(es[..|es| - 1], s, length) + (if Matches(es[|es| - 1], s, length) then 1 else 0)
  }

  /** The histogram fill: every fixed entry counted in its slot, in flow order. */
  function HistFill(hs: seq<Histogram>, es: seq<Entry>): (r: seq<Histogram>)
    requires forall j :: 0 <= j < |es| ==> es[j].slot < |hs|
    ensures |r| == |hs|
    ensures forall s :: 0 <= s < |hs| && (forall j :: 0 <= j < |es| ==> !(es[j].slot == s && es[j].hint.None?)) ==>
      r[s] == hs[s]
  {
    if |es| == 0 then hs
    else
      var p := HistFill(hs, es[..|es| - 1]);
      var e := es[|es| - 1];
      if e.hint.None? then p[e.slot := Bump(p[e.slot], e.length, 1)] else p
  }

  /** The histograms agree with the entries: every count is the number of
      fixed entries with that length, and exactly the lengths that occur are keys. */
  ghost predicate Tracks(hs: seq<Histogram>, es: seq<Entry>) {
    forall s: nat, l: real :: s < |hs| ==>
      Get(hs[s], l) == Count(es, s, l) && (l in hs[s] <==> Count(es, s, l) > 0)
  }

  function EmptyHistograms(n: nat): (hs: seq<Histogram>)
    ensures |hs| == n && forall s :: 0 <= s < n ==> hs[s] == map[]
  {
    seq(n, _ => map[])
  }

  /** Filling from empty histograms yields histograms that track the entries. */
  lemma {:induction false} HistFillTracks(n: nat, es: seq<Entry>)
    requires forall j :: 0 <= j < |es| ==> es[j].slot < n
    ensures Tracks(HistFill(EmptyHistograms(n), es), es)
  {
    if |es| > 0 {
      var init := es[..|es| - 1];
      HistFillTracks(n, init);
    }
  }

  /** Replacing entry k changes each count by what the replaced entry and its replacement contribute. */
  lemma {:induction false} CountUpdate(es: seq<Entry>, k: nat, e: Entry, s: nat, l: real)
    requires k < |es|
    ensures Count(es[k := e], s, l)
         == Count(es, s, l) - (if Matches(es[k], s, l) then 1 else 0) + (if Matches(e, s, l) then 1 else 0)
  {
    var es2 := es[k := e];
    var n := |es| - 1;
    if k == n {
      assert es2[..n] == es[..n];
    } else {
      assert es2[..n] == es[..n][k := e];
      CountUpdate(es[..n], k, e, s, l);
    }
  }

  /** A positive count is witnessed by an entry. */
  lemma {:induction false} CountWitness(es: seq<Entry>, s: nat, l: real)
    requires Count(es, s, l) > 0
    ensures exists j :: 0 <= j < |es| && Matches(es[j], s, l)
  {
    var n := |es| - 1;
    if !Matches(es[n], s, l) {
      CountWitness(es[..n], s, l);
      var j :| 0 <= j < n && Matches(es[..n][j], s, l);
      assert es[j] == es[..n][j];
    }
  }

  /** When moving one item of a slot from length `was` to `now` forces a full
      pass: `was` was the slot's last occurrence of the length that set its
      size, or `now` is larger than the size. */
  predicate Triggers(h: Histogram, size: real, was: real, now: real) {
    (Get(h, was) <= 1 && size == was) || now > size
  }

  /** Patching one slot for a fixed item whose length went from `was` to
      `now`, given the slot's current size. One count moves from `was` to
      `now`; a full pass is needed when `was` was the only item at the slot's
      size or when `now` exceeds it; otherwise a count that reached zero is
      dropped. Returns (full pass needed, patched histogram). */
  function Patch(h: Histogram, size: real, was: real, now: real): (r: (bool, Histogram))
    requires was != now
    ensures r.0 <==> Triggers(h, size, was, now)
    ensures forall l :: l != was ==> Get(r.1, l) == Get(h, l) + (if l == now then 1 else 0)
    ensures forall l :: l != was ==> (l in r.1 <==> l in h || l == now)
    ensures r.0 ==> was in r.1 && Get(r.1, was) == Get(h, was) - 1
    ensures !r.0 ==> (was in r.1 <==> Get(h, was) > 1)
    ensures !r.0 && was in r.1 ==> Get(r.1, was) == Get(h, was) - 1
  {
    var m := Bump(Bump(h, was, -1), now, 1);
    var wasLast := Get(m, was) <= 0;
    if (wasLast && size == was) || now > size then (true, m)
    else if wasLast then (false, m - {was})
    else (false, m)
  }

  /** One axis's bookkeeping: entries that fit the axis and one histogram
      per slot tracking them. */
  ghost predicate Live(a: Axis, es: seq<Entry>, hs: seq<Histogram>) {
    Fits(a, es) && |hs| == |a.sizes| && Tracks(hs, es)
  }

  /** Changing only the lengths of fixed entries leaves the stretch weights alone. */
  lemma {:induction false} FillHintsIgnoreLengths(a: Axis, es: seq<Entry>, es2: seq<Entry>)
    requires Fits(a, es) && |es2| == |es|
    requires forall j :: 0 <= j < |es| ==> es2[j].slot == es[j].slot && es2[j].hint == es[j].hint
    ensures Fits(a, es2) && Fill(a, es2).hints == Fill(a, es).hints
  {
    if |es| > 0 {
      FillHintsIgnoreLengths(a, es[..|es| - 1], es2[..|es2| - 1]);
    }
  }

  /** A patch that does not ask for a full pass is sound: after it the
      histograms track the changed entries and the slot sizes are exactly
      what a fresh fill pass over the changed entries computes. */
  lemma PatchSound(a: Axis, es: seq<Entry>, hs: seq<Histogram>, k: nat, now: real)
    requires Live(a, es, hs)
    requires k < |es| && es[k].hint.None? && es[k].length != now
    requires !Patch(hs[es[k].slot], Fill(a, es).sizes[es[k].slot], es[k].length, now).0
    ensures var s := es[k].slot;
            var es2 := es[k := es[k].(length := now)];
            Live(a, es2, hs[s := Patch(hs[s], Fill(a, es).sizes[s], es[k].length, now).1])
            && Fill(a, es2) == Fill(a, es)
  {
    var s, was := es[k].slot, es[k].length;
    var es2 := es[k := es[k].(length := now)];
    var m := Patch(hs[s], Fill(a, es).sizes[s], was, now).1;
    var hs2 := hs[s := m];
    FillHintsIgnoreLengths(a, es, es2);
    // histograms
    forall t: nat, l: real | t < |hs2|
      ensures Get(hs2[t], l) == Count(es2, t, l) && (l in hs2[t] <==> Count(es2, t, l) > 0)
    {
      CountUpdate(es, k, es[k].(length := now), t, l);
    }
    // sizes
    var f, f2 := Fill(a, es), Fill(a, es2);
    forall t | 0 <= t < |a.sizes|
      ensures f2.sizes[t] == f.sizes[t]
    {
      SlotUnchanged(a, es, k, now, t, Get(hs[s], was));
    }
    assert f2.sizes == f.sizes;
    assert f2 == f;
  }

  /** The slot-wise part of `PatchSound`. `countOld` is how many fixed
      entries of the item's slot had its previous length. */
  lemma SlotUnchanged(a: Axis, es: seq<Entry>, k: nat, now: real, t: nat, countOld: int)
    requires Fits(a, es) && t < |a.sizes|
    requires k < |es| && es[k].hint.None? && es[k].length != now
    requires countOld == Count(es, es[k].slot, es[k].length)
    requires var size := Fill(a, es).sizes[es[k].slot];
             !((countOld <= 1 && size == es[k].length) || now > size)
    ensures Fits(a, es[k := es[k].(length := now)])
    ensures Fill(a, es[k := es[k].(length := now)]).sizes[t] == Fill(a, es).sizes[t]
  {
    var s, was := es[k].slot, es[k].length;
    var es2 := es[k := es[k].(length := now)];
    assert Fits(a, es2);
    var m, m2 := Fill(a, es).sizes[t], Fill(a, es2).sizes[t];
    FillIsSlotMax(a, es, t);
    FillIsSlotMax(a, es2, t);
    // m2 <= m: every entry of es2 in slot t is at most m
    forall j | 0 <= j < |es2| && es2[j].slot == t && es2[j].hint.None?
      ensures es2[j].length <= m
    {
      if j != k {
        assert es2[j] == es[j];
      }
    }
    if m2 != a.sizes[t] {
      var j :| 0 <= j < |es2| && es2[j].slot == t && es2[j].hint.None? && es2[j].length == m2;
    }
    // m <= m2: m is attained by the seed or by an entry that is still there
    if m != a.sizes[t] {
      var j :| 0 <= j < |es| && es[j].slot == t && es[j].hint.None? && es[j].length == m;
      if j == k {
        // then t == s and m == was, so another item of that slot still has that length
        CountUpdate(es, k, es[k].(length := now), s, was);
        CountWitness(es2, s, was);
        var j2 :| 0 <= j2 < |es2| && Matches(es2[j2], s, was);
        assert j2 != k;
        assert es2[j2].length <= m2;
      } else {
        assert es2[j] == es[j];
      }
    }
  }

  /** The recycled grid's live state between passes: the current column
      widths and row heights and the per-slot histograms. */
  datatype Cache = Cache(cols: seq<real>, rows: seq<real>, colsCount: seq<Histogram>, rowsCount: seq<Histogram>)

  predicate Shaped(c: Cache) {
    |c.cols| > 0 && |c.colsCount| == |c.cols| && |c.rowsCount| == |c.rows|
  }

  /** The cache agrees with the views in flow order: histograms track them
      and the slot sizes are what the fill pass computes from the seeds. */
  ghost predicate Consistent(c: Cache, seedCols: Axis, seedRows: Axis, flow: seq<Item>) {
    Shaped(c) && |seedCols.sizes| == |c.cols| && |seedRows.sizes| == |c.rows|
    && Live(seedCols, ColEntries(flow, |c.cols|), c.colsCount)
    && Live(seedRows, RowEntries(flow, |c.cols|), c.rowsCount)
    && c.cols == Fill(seedCols, ColEntries(flow, |c.cols|)).sizes
    && c.rows == Fill(seedRows, RowEntries(flow, |c.cols|)).sizes
  }

  /** The recycled grid's fill pass over the views in flow order: the static
      fill of both axes, plus one histogram per column and per row counting
      the fixed lengths. */
  function RecycleFill(seedCols: Axis, seedRows: Axis, flow: seq<Item>): (c: Cache)
    requires |seedCols.sizes| > 0
    requires Fits(seedCols, ColEntries(flow, |seedCols.sizes|))
    requires Fits(seedRows, RowEntries(flow, |seedCols.sizes|))
    ensures Consistent(c, seedCols, seedRows, flow)
  {
    var n := |seedCols.sizes|;
    var ce, re := ColEntries(flow, n), RowEntries(flow, n);
    HistFillTracks(n, ce);
    HistFillTracks(|seedRows.sizes|, re);
    Cache(Fill(seedCols, ce).sizes, Fill(seedRows, re).sizes,
          HistFill(EmptyHistograms(n), ce), HistFill(EmptyHistograms(|seedRows.sizes|), re))
  }

  /** One changed view: its index in the data, its size and size hint in
      the previous layout and now. */
  datatype Change = Change(index: nat, width: real, height: real, newWidth: real, newHeight: real,
                           hint: (Option<real>, Option<real>), newHint: (Option<real>, Option<real>))

  /** What a batch decides: patched in place, needs a full pass, or failed
      indexing a row that does not exist. */
  datatype Verdict = Patched | Recompute | IndexError

  /** A view whose length changed along an axis it stretches on is handed
      back to the adapter and leaves the histograms alone. */
  predicate Removed(ch: Change) {
    (ch.hint.0.Some? && ch.width != ch.newWidth) || (ch.hint.1.Some? && ch.height != ch.newHeight)
  }

  /** The view as it is after the change. */
  function Apply(flow: seq<Item>, ch: Change): (r: seq<Item>)
    requires ch.index < |flow|
    ensures |r| == |flow|
  {
    flow[ch.index := Item(ch.newWidth, ch.newHeight, ch.newHint.0, ch.newHint.1)]
  }

  /** The change's previous values are those of the view it names. */
  predicate Describes(flow: seq<Item>, ch: Change) {
    ch.index < |flow| && flow[ch.index] == Item(ch.width, ch.height, ch.hint.0, ch.hint.1)
  }

  /** One change against the cache: a changed hint asks for a full pass, a
      removed view is skipped, otherwise the column then the row histogram
      is patched. A histogram mutated before a full pass is requested stays
      mutated. */
  function UpdateStep(c: Cache, ch: Change): (r: (Verdict, Cache))
    requires Shaped(c)
    ensures Shaped(r.1) && r.1.cols == c.cols && r.1.rows == c.rows
    ensures ch.hint != ch.newHint ==> r == (Recompute, c)
    ensures ch.width == ch.newWidth && ch.height == ch.newHeight && ch.hint == ch.newHint ==> r == (Patched, c)
    ensures forall t :: 0 <= t < |c.cols| && t != ch.index % |c.cols| ==> r.1.colsCount[t] == c.colsCount[t]
    ensures forall t :: 0 <= t < |c.rows| && t != ch.index / |c.cols| ==> r.1.rowsCount[t] == c.rowsCount[t]
    ensures r.0 == IndexError ==> ch.index / |c.cols| >= |c.rows|
    ensures ch.hint == ch.newHint && Removed(ch) ==> r == (Patched, c)
  {
    if ch.hint != ch.newHint then (Recompute, c)
    else if Removed(ch) then (Patched, c)
    else PatchChange(c, ch)
  }

  /** A change that keeps its hints and is not handed back: the column's
      histogram is patched when the width moved, then the row's when the
      height moved. */
  function PatchChange(c: Cache, ch: Change): (r: (Verdict, Cache))
    requires Shaped(c)
    ensures Shaped(r.1) && r.1.cols == c.cols && r.1.rows == c.rows
    ensures ch.width == ch.newWidth && ch.height == ch.newHeight ==> r == (Patched, c)
    ensures forall t :: 0 <= t < |c.cols| && t != ch.index % |c.cols| ==> r.1.colsCount[t] == c.colsCount[t]
    ensures forall t :: 0 <= t < |c.rows| && t != ch.index / |c.cols| ==> r.1.rowsCount[t] == c.rowsCount[t]
    ensures r.0 == IndexError ==> ch.index / |c.cols| >= |c.rows|
  {
    var row, col := ch.index / |c.cols|, ch.index % |c.cols|;
    var colPatch := if ch.width != ch.newWidth then Patch(c.colsCount[col], c.cols[col], ch.width, ch.newWidth)
                    else (false, c.colsCount[col]);
    var c1 := if ch.width != ch.newWidth then c.(colsCount := c.colsCount[col := colPatch.1]) else c;
    if colPatch.0 then (Recompute, c1)
    else if ch.height == ch.newHeight then (Patched, c1)
    else if row >= |c.rows| then (IndexError, c1)
    else
      var rowPatch := Patch(c.rowsCount[row], c.rows[row], ch.height, ch.newHeight);
      (if rowPatch.0 then Recompute else Patched, c1.(rowsCount := c.rowsCount[row := rowPatch.1]))
  }

  /** The verdict of one change that keeps its hints and is not handed
      back: a full pass when the column's patch triggers; otherwise, when the
      height moved, an index error for a row beyond the grid or a full pass
      exactly when the row's patch triggers; otherwise patched. */
  lemma StepVerdict(c: Cache, ch: Change)
    requires Shaped(c) && ch.hint == ch.newHint && !Removed(ch)
    ensures var r, row, col := UpdateStep(c, ch), ch.index / |c.cols|, ch.index % |c.cols|;
      var colFull := ch.width != ch.newWidth && Triggers(c.colsCount[col], c.cols[col], ch.width, ch.newWidth);
      (colFull ==> r.0 == Recompute)
      && (!colFull && ch.height == ch.newHeight ==> r.0 == Patched)
      && (!colFull && ch.height != ch.newHeight && row >= |c.rows| ==> r.0 == IndexError)
      && (!colFull && ch.height != ch.newHeight && row < |c.rows| ==>
            (r.0 == Recompute <==> Triggers(c.rowsCount[row], c.rows[row], ch.height, ch.newHeight))
            && r.0 != IndexError)
  {
  }

  predicate NoOp(ch: Change) {
    ch.width == ch.newWidth && ch.height == ch.newHeight && ch.hint == ch.newHint
  }

  /** A change, not handed back to the adapter, that makes a fixed-width
      view wider than its column. */
  predicate GrowsPastColumn(c: Cache, ch: Change)
    requires Shaped(c)
  {
    ch.hint == ch.newHint && !Removed(ch) && ch.width != ch.newWidth
    && ch.newWidth > c.cols[ch.index % |c.cols|]
  }

  /** A change, not handed back to the adapter, that makes a fixed-height
      view taller than its row. */
  predicate GrowsPastRow(c: Cache, ch: Change)
    requires Shaped(c)
  {
    ch.hint == ch.newHint && !Removed(ch) && ch.height != ch.newHeight
    && ch.index / |c.cols| < |c.rows| && ch.newHeight > c.rows[ch.index / |c.cols|]
  }

  /** The changes of one pass, in order, up to the first that asks for a
      full pass (or fails). */
  function UpdateBatch(c: Cache, changes: seq<Change>): (r: (Verdict, Cache))
    requires Shaped(c)
    ensures Shaped(r.1) && r.1.cols == c.cols && r.1.rows == c.rows
    ensures (exists i :: 0 <= i < |changes| && changes[i].hint != changes[i].newHint) ==> r.0 != Patched
    ensures (forall i :: 0 <= i < |changes| ==> NoOp(changes[i])) ==> r == (Patched, c)
    ensures (exists i :: 0 <= i < |changes| && GrowsPastColumn(c, changes[i])) ==> r.0 != Patched
    ensures (exists i :: 0 <= i < |changes| && GrowsPastRow(c, changes[i])) ==> r.0 != Patched
    decreases |changes|
  {
    if |changes| == 0 then (Patched, c)
    else
      var step := UpdateStep(c, changes[0]);
      if step.0 != Patched then step
      else
        var r := UpdateBatch(step.1, changes[1..]);
        assert forall i :: 1 <= i < |changes| ==> changes[i] == changes[1..][i - 1];
        r
  }

  /** A step that patches in place keeps the cache consistent with the
      views after the change, as long as it was consistent before. */
  lemma StepSound(c: Cache, seedCols: Axis, seedRows: Axis, flow: seq<Item>, ch: Change)
    requires Consistent(c, seedCols, seedRows, flow)
    requires Describes(flow, ch) && !Removed(ch)
    requires UpdateStep(c, ch).0 == Patched
    ensures Consistent(UpdateStep(c, ch).1, seedCols, seedRows, Apply(flow, ch))
  {
    var n, k := |c.cols|, ch.index;
    var flow2 := Apply(flow, ch);
    var ce, ce2 := ColEntries(flow, n), ColEntries(flow2, n);
    var re, re2 := RowEntries(flow, n), RowEntries(flow2, n);
    assert ch.hint == ch.newHint;
    if ch.width != ch.newWidth {
      assert ce2 == ce[k := ce[k].(length := ch.newWidth)];
      PatchSound(seedCols, ce, c.colsCount, k, ch.newWidth);
    } else {
      assert ce2 == ce;
    }
    if ch.height != ch.newHeight {
      assert re2 == re[k := re[k].(length := ch.newHeight)];
      PatchSound(seedRows, re, c.rowsCount, k, ch.newHeight);
    } else {
      assert re2 == re;
    }
  }

  /** Every change describes the views as the earlier changes of the batch left them. */
  predicate DescribesAll(flow: seq<Item>, changes: seq<Change>)
    decreases |changes|
  {
    |changes| == 0 || (Describes(flow, changes[0]) && DescribesAll(Apply(flow, changes[0]), changes[1..]))
  }

  /** The views after the whole batch. */
  function ApplyAll(flow: seq<Item>, changes: seq<Change>): (r: seq<Item>)
    requires DescribesAll(flow, changes)
    ensures |r| == |flow|
    decreases |changes|
  {
    if |changes| == 0 then flow else ApplyAll(Apply(flow, changes[0]), changes[1..])
  }

  /** A batch that ends without asking for a full pass leaves a consistent
      cache consistent with the views after every change, provided no view
      of the batch was handed back to the adapter. */
  lemma {:induction false} BatchSound(c: Cache, seedCols: Axis, seedRows: Axis, flow: seq<Item>, changes: seq<Change>)
    requires Consistent(c, seedCols, seedRows, flow) && DescribesAll(flow, changes)
    requires forall i :: 0 <= i < |changes| ==> !Removed(changes[i])
    requires UpdateBatch(c, changes).0 == Patched
    ensures Consistent(UpdateBatch(c, changes).1, seedCols, seedRows, ApplyAll(flow, changes))
    decreases |changes|
  {
    if |changes| > 0 {
      StepSound(c, seedCols, seedRows, flow, changes[0]);
      var rest := changes[1..];
      assert forall i :: 0 <= i < |rest| ==> rest[i] == changes[i + 1];
      BatchSound(UpdateStep(c, changes[0]).1, seedCols, seedRows, Apply(flow, changes[0]), rest);
    }
  }
}
