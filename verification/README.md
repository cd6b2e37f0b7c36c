# Grid layout sizing and placement, modelled in Dafny

This project models the core of kivy's `GridLayout` and `RecycleGridLayout`
(`kivy/uix/gridlayout.py`). A grid layout arranges its children in rows and
columns.

- At least one of `cols` and `rows` must be given. The other is derived from
  the number of children.
- Every column is as wide as its widest fixed-width child. Every row is as
  tall as its tallest fixed-height child.
- Columns and rows whose children carry a size hint share the space left
  over beyond the minimum size, in proportion to the largest hint.
- Children are placed left to right and top to bottom. They are stored
  last-added first, so flow cell k holds stored child `count - 1 - k`.
- A cell's size is written back onto a child only on the axes it stretches on.

The recycled variant works on view options held in flow order. It keeps one
histogram of fixed lengths per column and per row. When the adapter reports
changed views, it tries to patch those histograms instead of recomputing.
After a full pass it stores the boundaries between cells. It uses them to
find the view under a point and the views that a viewport rectangle touches.

Modules, one file each:

- `Base` (`base.dfy`): optional values, Python truthiness, sums, the
  None-tolerant `nmax`, and row-major arithmetic.
- `Shape` (`shape.dfy`): the configuration, the capacity check, the
  resolution of the grid shape, and the override seeding of
  `_init_rows_cols_sizes`.
- `Sizer` (`sizer.dfy`): the fill pass, the minimum size, and the
  finalisation (forced defaults or proportional stretch).
- `Placer` (`placer.dfy`): the flow generator `_iterate_layout` and both
  size write-backs.
- `Layout` (`layout.dfy`): the static `do_layout` pipeline.
- `Incremental` (`incremental.dfy`): the histograms of the recycled fill
  pass, and `_update_rows_cols_sizes`.
- `Viewport` (`viewport.dfy`): the boundary arrays, `get_view_index_at`
  and `compute_visible_views`.
- `Recycle` (`recycle.dfy`): the recycled `compute_layout` driver.
- `Scenarios` (`scenarios.dfy`): three worked grids.

Conventions:

- Lengths are `real`. Python floats are not modelled, so there is no rounding.
- Python's `None` is `Option.None`. A hint or a weight of `0` is falsy, as
  in the source.
- Errors the source raises are error values of the result type. This covers
  `GridLayoutException` for too many children, and `IndexError` for an
  override index or a row beyond the grid.

A minimum-size override (`cols_minimum`, `rows_minimum`) whose index lies
beyond the grid is written into the list with `cols[index] = value`
(kivy/uix/gridlayout.py:309-313), which raises `IndexError`. `Shape.Seed`
then returns `None`, and the passes return `OverrideOutOfRange` /
`BadOverride`.

## Model

| member | source | states |
|---|---|---|
| Base.NMax | kivy/uix/gridlayout.py:101-106 | The result is at least the new length and at least the current value when there is one, and it is one of the two. |
| Shape.MaxWidgets | kivy/uix/gridlayout.py:269-273 | A capacity exists exactly when both `cols` and `rows` are truthy, and it is then their positive product. |
| Shape.AcceptsChildren | kivy/uix/gridlayout.py:275-281 | Children are refused exactly when both counts are truthy and there are more children than rows times columns. |
| Shape.ZeroColumnsSkipsCapacity | kivy/uix/gridlayout.py:275-301 | With `cols = 0` and `rows = 3`, four children pass the capacity check, and the shape is clamped to one column of three rows. |
| Shape.ResolveShape | kivy/uix/gridlayout.py:286-301 | No shape exactly when neither count is truthy. A given count is kept, or clamped to 1 when it is 0. A missing count is the ceiling of children over the given one, at least 1, and the grid then holds every child. |
| Shape.ShapeHoldsAcceptedItems | kivy/uix/gridlayout.py:275-301 | If the capacity check passes and the counts are not a zero/non-zero mix, the resolved grid has a cell for every child. |
| Shape.Seed | kivy/uix/gridlayout.py:303-314 | The seed exists exactly when every override index is inside the grid. Each slot then holds its override, or else the default. |
| Shape.ApplyOverrides | kivy/uix/gridlayout.py:303-314 | The loop over the override dictionary fails exactly when `Seed` does, and otherwise builds the same sizes. |
| Sizer.EntriesFollowRowMajor | kivy/uix/gridlayout.py:322-335 | The flow item at row r, column c of the row-major order (index `r * ncols + c`) contributes its width and width hint to column c and its height and height hint to row r, as `divmod` splits the index. |
| Sizer.Step | kivy/uix/gridlayout.py:327-335 | Folding one item touches only its slot. A fixed item raises the slot's size to at least its length and leaves it as one of the two. A hinted item leaves the sizes alone and raises the weight to at least its hint and at least the old weight, leaving it as one of the two. |
| Sizer.Fill | kivy/uix/gridlayout.py:316-335 | The fill pass keeps the slot counts and never shrinks a seeded slot. |
| Sizer.FillIsSlotMax | kivy/uix/gridlayout.py:316-335 | After the fill pass, each slot's size is the largest of its seed and its fixed items' lengths. Its weight is None exactly when the seed and all its items have none, and otherwise is the largest hint. |
| Sizer.FixedFitsSlot | kivy/uix/gridlayout.py:327-333 | A fixed item's length is at most its slot's filled size. |
| Sizer.FillMonotone | kivy/uix/gridlayout.py:316-335 | Lengthening fixed items never shrinks a slot and leaves the weights unchanged. |
| Sizer.FillIgnoresStretchLengths | kivy/uix/gridlayout.py:327-335 | The fill pass ignores the lengths of items that carry a hint on that axis. |
| Sizer.MinimumLength | kivy/uix/gridlayout.py:337-350 | With non-negative spacing, the minimum length is at least the padding plus the sum of the slots, and at least the padding when the slots are non-negative. A single slot adds no spacing. |
| Sizer.Overhead | kivy/uix/gridlayout.py:343-344 | The padding-and-spacing part of the minimum size is at least the padding for non-negative spacing, and exactly the padding for one slot. |
| Sizer.FillHintsNonNegative | kivy/uix/gridlayout.py:330-335 | Non-negative hints give non-negative slot weights. |
| Sizer.MinimumWidthMonotone | kivy/uix/gridlayout.py:337-350 | Widening one fixed-width item never lowers the minimum width. |
| Sizer.MinimumHeightMonotone | kivy/uix/gridlayout.py:337-350 | Making one fixed-height item taller never lowers the minimum height. |
| Sizer.TotalWeight | kivy/uix/gridlayout.py:365 | The summed weights are 0 when no slot has a truthy weight. |
| Sizer.TotalWeightPositive | kivy/uix/gridlayout.py:365 | The summed truthy weights are non-negative, and positive exactly when some slot stretches. |
| Sizer.Slack | kivy/uix/gridlayout.py:366 | The stretch space is `max(0, size - minimum)`. |
| Sizer.Grown | kivy/uix/gridlayout.py:367-372 | A slot without a truthy weight keeps its size. A stretching slot with a non-negative weight and slack never shrinks. |
| Sizer.Stretch | kivy/uix/gridlayout.py:365-372 | Every slot without a truthy weight keeps its size, and with non-negative slack and weights no slot shrinks. |
| Sizer.StretchSum | kivy/uix/gridlayout.py:367-372 | Stretching adds to the total exactly the slack's share of the summed weights. |
| Sizer.Finalize | kivy/uix/gridlayout.py:352-391 | Forced, every slot is its override or the default. Otherwise a non-stretching slot keeps its size, a stretching slot gains its weight's share of the slack, and no slot shrinks. |
| Sizer.ForceIgnoresItems | kivy/uix/gridlayout.py:357-361 | Forced sizes do not depend on the items or on the available space. |
| Sizer.StretchSharesSlack | kivy/uix/gridlayout.py:362-372 | With some stretching slot, the final sizes sum to the filled sizes plus the whole slack. |
| Sizer.NoStretchKeepsSizes | kivy/uix/gridlayout.py:362-372 | Without any stretching slot, the final sizes are the filled sizes. |
| Placer.Placements | kivy/uix/gridlayout.py:393-411 | One triple per child while cells last. The triple of flow cell k names stored child `count - 1 - k`, and indices strictly decrease. |
| Placer.Cell | kivy/uix/gridlayout.py:399-411 | The triple of flow cell k names stored child `count - 1 - k`. A cell in the first column starts at the left edge, and a cell in the top row ends at the top edge. |
| Placer.CellSteps | kivy/uix/gridlayout.py:399-411 | The next cell in a row starts one width plus the spacing further right, at the same height. The first cell of the next row starts at the left edge and ends one spacing below the current row. |
| Placer.CellSize | kivy/uix/gridlayout.py:402-408 | Flow cell k has the width of column `k % ncols` and the height of row `k / ncols`. |
| Placer.IterateLayout | kivy/uix/gridlayout.py:393-411 | The nested row and column loops with early exit produce exactly `Placements`. |
| Placer.CellsDoNotOverlap | kivy/uix/gridlayout.py:399-411 | With non-negative sizes and spacing, an earlier cell in a row ends left of a later one, and an earlier row lies above a later one. |
| Placer.WriteBack | kivy/uix/gridlayout.py:425-433 | An item takes the cell's length on exactly the axes whose hint is not None. |
| Placer.RecycleWriteBack | kivy/uix/gridlayout.py:541-547 | The recycled per-axis write-back agrees with the static grid's four-way branch. |
| Layout.SizePass | kivy/uix/gridlayout.py:283-391 | Not configured exactly when neither count is truthy. An override error exactly when some override index lies beyond the resolved grid. A row error only when children outnumber the cells. A sizing has the resolved shape and slot counts. A sizing happens exactly when a shape resolves, every override index lies inside it, and the children fit its cells. |
| Layout.SizedFinalizes | kivy/uix/gridlayout.py:337-391 | A sizing's minimum size is the padding, spacing and filled slots, and its final slots are the finalise pass over the filled axes, with the widget's size as the space to fill. |
| Layout.SizeTo | kivy/uix/gridlayout.py:423-433 | An item keeps its hints. It takes the cell's width or height only where it has a hint. |
| Layout.Resize | kivy/uix/gridlayout.py:422-433 | The write-back keeps the number of children and every child's hints. |
| Layout.ResizeEffect | kivy/uix/gridlayout.py:422-433 | A child named by no triple is untouched. A child named by a triple gets that cell's size. |
| Layout.Place | kivy/uix/gridlayout.py:420-433 | Placement keeps the final sizes and the minimum size. Stored child `n - 1 - k` gets the triple of flow cell k, with the write-back applied. |
| Layout.DoLayout | kivy/uix/gridlayout.py:413-433 | Without children or without a shape, only the padding is the minimum size. The pass places the children exactly when there is at least one and the sizing succeeds. A placed layout comes from a successful sizing of the reversed children. With children, the pass reports a bad override exactly when sizing the reversed children finds a column or row override out of range, and a row index error exactly when it finds a row beyond the grid. |
| Layout.SizedWiderMinimum | kivy/uix/gridlayout.py:316-350 | Widening one fixed-width item in flow order never lowers the sizing's minimum width. |
| Layout.SizedTallerMinimum | kivy/uix/gridlayout.py:316-350 | Making one fixed-height item in flow order taller never lowers the sizing's minimum height. |
| Layout.PlacedMinimum | kivy/uix/gridlayout.py:413-419 | A placed pass reports the minimum size of the sizing of the reversed children. |
| Layout.WiderChildMinimum | kivy/uix/gridlayout.py:413-419 | Widening a stored child of fixed width never lowers the minimum width that `do_layout` reports. |
| Layout.TallerChildMinimum | kivy/uix/gridlayout.py:413-419 | Making a stored child of fixed height taller never lowers the minimum height that `do_layout` reports. |
| Layout.SizedGrows | kivy/uix/gridlayout.py:362-391 | Without forced defaults, the final slots are at least the filled ones. |
| Layout.SizedFills | kivy/uix/gridlayout.py:303-335 | The filled axes of a sizing are the fill passes over the override-seeded defaults. |
| Layout.FillHoldsFixedWidth | kivy/uix/gridlayout.py:322-330 | A fixed-width item is no wider than its column's filled width. |
| Layout.FillHoldsFixedHeight | kivy/uix/gridlayout.py:322-335 | A fixed-height item is no taller than its row's filled height. |
| Layout.SizedFixedFits | kivy/uix/gridlayout.py:316-391 | Without forced defaults, a fixed item fits its final column width and row height. |
| Layout.FixedChildFits | kivy/uix/gridlayout.py:413-433 | The pass places any children that fit a resolved grid. Without forced defaults, a fixed-width (fixed-height) child keeps its width (height), and it fits the cell it is placed in. |
| Layout.PlaceKeepsFit | kivy/uix/gridlayout.py:399-433 | A child that fits its flow cell's column and row keeps its fixed lengths through the write-back and fits the triple it is given. |
| Layout.SizePassIgnoresStretchLengths | kivy/uix/gridlayout.py:316-391 | Children that agree on hints and on fixed lengths are sized identically. |
| Layout.LayoutIdempotent | kivy/uix/gridlayout.py:413-433 | The pass places any children that fit a resolved grid. Laying out the children a layout pass produced reproduces that same layout. |
| Layout.PlaceAgain | kivy/uix/gridlayout.py:420-433 | Writing back the same sizing a second time leaves the children and triples as the first write-back left them. |
| Layout.ResizedSizeAlike | kivy/uix/gridlayout.py:316-433 | The children a pass leaves get the same sizing as the children it started from. |
| Incremental.Bump | kivy/uix/gridlayout.py:493-494 | A `defaultdict(int)` increment changes one length's count by the step and leaves every other length alone. |
| Incremental.HistFill | kivy/uix/gridlayout.py:451-462 | The histogram fill keeps the number of histograms and leaves the histogram of a slot with no fixed item unchanged. |
| Incremental.HistFillTracks | kivy/uix/gridlayout.py:451-462 | The recycled fill pass's histograms count, for every slot and length, exactly the fixed items of that length in that slot. |
| Incremental.CountUpdate | kivy/uix/gridlayout.py:491-509 | Replacing one item moves exactly one count, from its old length to its new one. |
| Incremental.Patch | kivy/uix/gridlayout.py:491-499 | A full recompute is asked for exactly when the old length was the slot's last occurrence and equal to its size, or the new length exceeds the size. Otherwise the counts shift by one, and the old key is deleted exactly when its count reaches zero. |
| Incremental.PatchSound | kivy/uix/gridlayout.py:489-509 | When no recompute is asked for, the patched histograms track the changed items, and the fill pass over them yields the same axis. |
| Incremental.SlotUnchanged | kivy/uix/gridlayout.py:491-497 | When no recompute is asked for, no slot's filled size changes. |
| Incremental.RecycleFill | kivy/uix/gridlayout.py:448-473 | The recycled fill pass yields sizes equal to the static fill pass, and histograms that track the items. |
| Incremental.UpdateStep | kivy/uix/gridlayout.py:482-509 | A hint change asks for a recompute. A view handed back to the adapter, and a change that changes nothing, patch nothing. Only the changed item's column and row histograms move. Sizes are never touched. An index error arises only for a row beyond the grid. |
| Incremental.PatchChange | kivy/uix/gridlayout.py:489-509 | Patching a kept view's column and row histograms touches no other slot and no size. A view whose size did not move patches nothing. An index error arises only for a row beyond the grid. |
| Incremental.StepVerdict | kivy/uix/gridlayout.py:489-509 | For a view that keeps its hints and is not handed back: a full pass exactly when the column's patch triggers (its old width was the column's last occurrence and equal to its size, or the new width exceeds it), and otherwise, when the height moved, an index error for a row beyond the grid, or a full pass exactly when the row's patch triggers. Otherwise the change is patched. |
| Incremental.UpdateBatch | kivy/uix/gridlayout.py:475-511 | A batch in which some change alters a hint, or grows a fixed view past its column's or row's size, is never patch-only. A batch of no-op changes leaves the cache as it was. |
| Incremental.StepSound | kivy/uix/gridlayout.py:482-509 | A patched change keeps a consistent cache consistent with the changed items. |
| Incremental.BatchSound | kivy/uix/gridlayout.py:475-511 | A fully patched batch keeps a consistent cache consistent with the items after all changes. |
| Viewport.Boundaries | kivy/uix/gridlayout.py:549-566 | The column loop fills the boundaries left to right, from the layout's x. The row loop starts at the last entry, `rows_pos[-1]`, just under the top row, and fills downward towards entry 0. The arrays are `ColsPos` / `RowsPos`. |
| Viewport.BoundariesSplitGaps | kivy/uix/gridlayout.py:555-566 | Each inner boundary lies in the middle of the spacing gap between two neighbouring cells. |
| Viewport.BoundariesAscend | kivy/uix/gridlayout.py:552-566 | With non-negative sizes, spacing and left padding, both boundary arrays ascend. |
| Viewport.Reach | kivy/uix/gridlayout.py:583-595 | The linear scan stops at the first boundary beyond the coordinate, having passed only boundaries at or below it. |
| Viewport.Scan | kivy/uix/gridlayout.py:579-595 | A coordinate at or beyond the last boundary maps to the last slot. Otherwise it maps to the slot whose successor boundary lies beyond it. |
| Viewport.ScanLocates | kivy/uix/gridlayout.py:579-595 | On ascending boundaries, the scan returns a slot exactly when the coordinate lies in that slot's interval. |
| Viewport.ScanMonotone | kivy/uix/gridlayout.py:579-595 | On ascending boundaries, a larger coordinate never maps to an earlier slot. |
| Viewport.IndexAt | kivy/uix/gridlayout.py:568-599 | Without boundaries the index is 0. Otherwise it lies inside the grid, its column is the scanned column, and its row is counted from the top. |
| Viewport.RangeHas | kivy/uix/gridlayout.py:617 | `range(lo, hi)` holds exactly the integers from lo up to hi. |
| Viewport.Rows | kivy/uix/gridlayout.py:616-617 | The collected indices are at least the start, below the data length, and strictly ascending. |
| Viewport.RowsMembers | kivy/uix/gridlayout.py:612-617 | An index is collected exactly when it is below the data length, in one of the stepped rows, and inside the column window. |
| Viewport.Block | kivy/uix/gridlayout.py:612-617 | The rows stepped from the top-left cell down to the bottom-left one give valid data indices in ascending order. |
| Viewport.VisibleViews | kivy/uix/gridlayout.py:601-619 | Visible indices are valid data indices in ascending order, and there are none without boundaries. |
| Viewport.BlockFromCorners | kivy/uix/gridlayout.py:612-617 | Stepping from the top-left corner to the bottom-left one, with the bottom row's width, collects exactly the indices in the corners' block. |
| Viewport.VisibleIsBlock | kivy/uix/gridlayout.py:601-619 | An index is visible exactly when it is a data index whose row lies between the corners' rows and whose column lies between their columns. |
| Viewport.PointIsVisible | kivy/uix/gridlayout.py:568-619 | On ascending boundaries, the view under any point of the viewport is among the visible views. |
| Viewport.ColumnUnderPoint | kivy/uix/gridlayout.py:579-586 | A point whose x lies inside column c, as the columns are laid out from the left padding, scans to column c. |
| Viewport.RowUnderPoint | kivy/uix/gridlayout.py:588-595 | A point whose y lies inside row r, counted from the top, scans to boundary |rows| - 1 - r, which the flip at line 598 turns back into row r. |
| Viewport.CellUnderPoint | kivy/uix/gridlayout.py:568-599 | A point inside the rectangle that the layout pass gives flow cell k (lines 399-409) has view index k. |
| Viewport.CellIsVisible | kivy/uix/gridlayout.py:601-619 | If a point of flow cell k of a layout pass lies in the viewport, then k, for k below the data length, is among the visible views under the pass's boundaries. |
| Recycle.FullPassCellVisible | kivy/uix/gridlayout.py:528-619 | Every data item whose cell, as the full pass places it, meets the viewport is among the visible indices that the pass's own boundaries give. |
| Recycle.PlacedCellVisible | kivy/uix/gridlayout.py:399-409 | The same over the static placement of any sizing, with the boundaries of that sizing's slots. |
| Recycle.ResizeViews | kivy/uix/gridlayout.py:538-547 | View k gets the write-back of flow cell k, the same as the static grid's `SizeTo`. |
| Recycle.FullPass | kivy/uix/gridlayout.py:528-566 | The pass clears to padding exactly when neither count is truthy. It lays out exactly when the grid is sizable. When laid out, every view has its triple and its write-back, the cache is shaped, and the boundaries match the slot counts. A laid-out pass also has the sizing's minimum size and final slot sizes. Its triples start at the padded top-left corner. Its column boundaries run rightward from the left padding, and its row boundaries run downward from the top padding. |
| Recycle.FullPassLikeStatic | kivy/uix/gridlayout.py:528-566 | Over a non-empty, sizable list of items, the recycled pass lays out exactly as the static grid's pass over the same items stored in reverse. The two have the same triples, minimum size and slot sizes. The recycled boundaries are those of the static slot sizes. View k is the static pass's stored child |data| - 1 - k. |
| Recycle.PlaceReversed | kivy/uix/gridlayout.py:538-547 | Placing items stored in reverse resizes item k by the k-th triple. This is the write-back the recycled pass gives view k. |
| Recycle.ComputeLayout | kivy/uix/gridlayout.py:513-566 | Too many views is refused exactly when the capacity check fails. No change list skips and keeps the cache. An empty change list gives the full pass. For a non-empty change list, the pass is skipped exactly when the batch is patched (and then keeps the patched cache), a recompute gives the full pass, and an update index error is reported as one. |
| Recycle.NoOpBatchSkips | kivy/uix/gridlayout.py:523-526 | A non-empty batch of no-op changes skips the pass and leaves the cache unchanged. |
| Recycle.FullPassConsistent | kivy/uix/gridlayout.py:528-536 | Without forced defaults and without hints, the cache a full pass leaves is consistent with the views. |
| Recycle.FullPassCache | kivy/uix/gridlayout.py:528-536 | The cache a full pass leaves is the recycled fill over the override-seeded axes, with the final slot sizes in place of the filled ones. |
| Recycle.SkipSound | kivy/uix/gridlayout.py:523-526 | A skip after reported changes keeps a consistent cache consistent with the changed views. |
| Scenarios.CapacityOfTwoByTwo | kivy/uix/gridlayout.py:275-281 | A 2 x 2 grid takes four children and refuses a fifth. |
| Scenarios.StretchingTwoByTwo | kivy/uix/gridlayout.py:413-433 | Four children that stretch on both axes, in a 2 x 2 grid 200 wide and 100 high at the origin: the minimum size is 0 x 0, the columns are [100, 100] and the rows [50, 50], the first stored child lands bottom right and the last top left, and every child becomes 100 x 50. |
| Scenarios.MixedColumns | kivy/uix/gridlayout.py:316-391 | Two 100-wide fixed items and two stretching items in two columns fill to [100, 0] with column 1 stretching. The minimum width is 100, and 300 pixels finalise to [100, 200]. |

## Left out

- Property bindings, triggers, `__init__`, `Logger.warning` and widget
  positions as properties are not modelled. A pass takes the configuration
  and the widget's position and size as parameters.
- Python floats are modelled as exact reals, with no rounding in the
  proportional stretch or the boundary sums.
- Negative list and dictionary indices in the overrides are not modelled.
  Override keys are natural numbers.
- Negative size hints are excluded by a precondition (`Layout.HintsNonNegative`).
  Python accepts them, and they can shrink a slot. When the truthy weights
  of an axis then sum to 0 (hints 1 and -1, say), the division at
  kivy/uix/gridlayout.py:372 raises `ZeroDivisionError`.
- Layout.DoLayout: an unconfigured or childless pass does not return after
  setting the padding as the minimum size. It goes on with the fill pass.
  If no earlier pass was configured, `_cols_sh` was never set: `__init__`
  (kivy/uix/gridlayout.py:252) sets only `_cols` and `_rows`, and
  `_init_rows_cols_sizes` sets `_cols_sh` (line 304) only when it succeeds.
  So reading `self._cols_sh` at line 318 raises `AttributeError`, for a
  childless pass and for an unconfigured one alike. After a configured
  pass, it works on whatever sizes that pass left. The model returns only
  the padding as the minimum size in every case.
- Recycle.ComputeLayout: the unconfigured pass sets `_cols` to None and
  leaves stale boundaries, which a later call can fail on. The model
  returns `Cleared` with the padding and no boundaries. The model also
  requires a shaped earlier cache for a non-empty change list, and so
  does not model two exceptions the source raises there. A change list
  that arrives before any configured pass raises `AttributeError` when
  `_update_rows_cols_sizes` reads `self._cols_count`
  (kivy/uix/gridlayout.py:476): only `_fill_rows_cols_sizes` sets it
  (line 451), and neither the class attributes (lines 438-439) nor
  `__init__` (lines 441-443) do. After an unconfigured pass has set
  `_cols` to None (line 530), a change of width raises `TypeError` at
  `cols[col]` (line 492).
- `super().compute_layout` and `clear_layout` belong to the recycle
  layout base class, which is not part of this model.
- `remove_view` hands a view back to the adapter's cache. It is not
  modelled beyond leaving the histograms untouched, as the source does.
  The soundness lemmas therefore require that no change in the batch is
  such a removal.
- Incremental.PatchSound: the soundness is stated for a cache whose
  sizes equal the filled sizes, which holds without forced defaults and
  stretching slots. The source compares against the finalised sizes.
  With stretching slots a patch can then keep sizes that a full pass
  would change.
- Incremental.BatchSound: same hypothesis as `Incremental.PatchSound`.
- Incremental.StepSound, Recycle.SkipSound: same hypothesis as
  `Incremental.PatchSound`: the stored sizes equal the filled sizes
  (`Consistent`).
- Viewport.CellUnderPoint, Viewport.CellIsVisible, Recycle.FullPassCellVisible:
  stated only for non-negative slot sizes, left padding and spacing.
  Negative values can make the boundaries descend, and the scan at
  kivy/uix/gridlayout.py:579-594 then need not find the cell under a point.
- Recycle.FullPassConsistent: stated only for passes without forced
  defaults and without hints, the case where finalised and filled sizes
  coincide.
- `on_children` of the recycled grid, which does nothing, is not modelled.
