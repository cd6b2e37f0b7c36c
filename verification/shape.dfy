/** Shape resolution and capacity: how many columns and rows a grid has for a
    given item count, the per-slot base sizes it starts from, and the check
    that rejects more items than the configured grid can hold. */
module Shape {
  import opened Base

  /** The grid's configuration: counts, defaults, forced-default flags,
      per-index minimum overrides, spacing and padding. */
  datatype Config = Config(
    cols: Option<nat>,
    rows: Option<nat>,
    colDefault: real,
    rowDefault: real,
    colForce: bool,
    rowForce: bool,
    colsMinimum: map<nat, real>,
    rowsMinimum: map<nat, real>,
    spacingX: real,
    spacingY: real,
    padLeft: real,
    padTop: real,
    padRight: real,
    padBottom: real)

  /** Resolved number of columns and rows. */
  datatype GridShape = GridShape(ncols: nat, nrows: nat)

  /** Python truthiness of a configured count: unset and 0 are both falsy. */
  predicate Given(o: Option<nat>) {
    o.Some? && o.value != 0
  }

  /** `ceil(a / b)` on integers. */
  function CeilDiv(a: nat, b: nat): (q: nat)
    requires b > 0
    ensures a <= q * b
    ensures q > 0 ==> (q - 1) * b < a
  {
    (a + b - 1) / b
  }

  /** The largest number of items the grid accepts; only known when both
      counts are given. */
  function MaxWidgets(cfg: Config): (r: Option<nat>)
    ensures r.Some? <==> Given(cfg.cols) && Given(cfg.rows)
    ensures r.Some? ==> r.value > 0 && r.value == cfg.rows.value * cfg.cols.value
  {
    if Given(cfg.cols) && Given(cfg.rows) then Some(cfg.rows.value * cfg.cols.value) else None
  }

  /** Whether an item list of length `count` is accepted (false: too many
      children for the configured rows and columns). */
  function AcceptsChildren(cfg: Config, count: nat): (ok: bool)
    ensures !ok <==> Given(cfg.cols) && Given(cfg.rows) && count > cfg.rows.value * cfg.cols.value
  {
    var smax := MaxWidgets(cfg);
    !(smax.Some? && smax.value != 0 && count > smax.value)
  }

  /** Column and row counts for `count` items, or None when the grid is not
      configured. A missing count is derived by ceiling division; both are
      then raised to at least 1. A count given as 0 is not derived. */
  function ResolveShape(cfg: Config, count: nat): (r: Option<GridShape>)
    ensures r.None? <==> !Given(cfg.cols) && !Given(cfg.rows)
    ensures r.Some? ==> r.value.ncols >= 1 && r.value.nrows >= 1
    ensures r.Some? && cfg.cols.Some? ==> r.value.ncols == if cfg.cols.value == 0 then 1 else cfg.cols.value
    ensures r.Some? && cfg.rows.Some? ==> r.value.nrows == if cfg.rows.value == 0 then 1 else cfg.rows.value
    ensures r.Some? && cfg.cols.None? ==>
      var c := r.value.ncols; var n := cfg.rows.value;
      count <= c * n && (c == 1 || (c - 1) * n < count)
    ensures r.Some? && cfg.rows.None? ==>
      var q := r.value.nrows; var n := cfg.cols.value;
      count <= q * n && (q == 1 || (q - 1) * n < count)
  {
    if !Given(cfg.cols) && !Given(cfg.rows) then None
    else
      var c := if cfg.cols.None? then CeilDiv(count, cfg.rows.value) else cfg.cols.value;
      var q := if cfg.cols.None? then cfg.rows.value
               else if cfg.rows.None? then CeilDiv(count, cfg.cols.value)
               else cfg.rows.value;
      Some(GridShape(if c < 1 then 1 else c, if q < 1 then 1 else q))
  }

  /** When a count was derived, or both were given and the capacity check
      accepted the items, every item has a cell. */
  lemma ShapeHoldsAcceptedItems(cfg: Config, count: nat)
    requires AcceptsChildren(cfg, count)
    requires ResolveShape(cfg, count).Some?
    requires cfg.cols.None? || cfg.rows.None? || (Given(cfg.cols) && Given(cfg.rows))
    ensures var s := ResolveShape(cfg, count).value; count <= s.ncols * s.nrows
  {
    var s := ResolveShape(cfg, count).value;
    if cfg.cols.None? {
      assert count <= s.ncols * cfg.rows.value;
    } else if cfg.rows.None? {
      assert count <= s.nrows * cfg.cols.value;
    } else {
      assert s.ncols == cfg.cols.value && s.nrows == cfg.rows.value;
    }
  }

  /** A column count given as 0 next to a row count is neither derived nor
      covered by the capacity check: three rows, one column, four items. */
  lemma ZeroColumnsSkipsCapacity()
    ensures var cfg := Config(Some(0), Some(3), 0.0, 0.0, false, false, map[], map[],
                              0.0, 0.0, 0.0, 0.0, 0.0, 0.0);
            AcceptsChildren(cfg, 4) && ResolveShape(cfg, 4) == Some(GridShape(1, 3))
  {
  }

  /** Base sizes of one axis: every slot starts at the default and an
      override replaces the slot at its key. None when a key is outside the
      slots (the source indexes the list with it and fails). */
  function Seed(default: real, n: nat, overrides: map<nat, real>): (r: Option<seq<real>>)
    ensures r.Some? <==> (forall k :: k in overrides ==> k < n)
    ensures r.Some? ==> |r.value| == n
    ensures r.Some? ==> forall i :: 0 <= i < n ==> r.value[i] == (if i in overrides then overrides[i] else default)
  {
    if exists k :: k in overrides && k >= n then None
    else Some(seq(n, i => if i in overrides then overrides[i] else default))
  }

  /** The seeding loop as the source writes it: a list of defaults, then each
      override written over its slot in the map's iteration order. */
  method ApplyOverrides(default: real, n: nat, overrides: map<nat, real>) returns (ok: bool, sizes: seq<real>)
    ensures ok <==> Seed(default, n, overrides).Some?
    ensures ok ==> sizes == Seed(default, n, overrides).value
  {
    sizes := seq(n, _ => default);
    var todo := overrides.Keys;
    while todo != {}
      invariant todo <= overrides.Keys
      invariant |sizes| == n
      invariant forall k :: k in overrides && k !in todo ==> k < n
      invariant forall i :: 0 <= i < n ==>
        sizes[i] == if i in overrides && i !in todo then overrides[i] else default
      decreases todo
    {
      var k :| k in todo;
      if k >= n {
        ok := false;
        return;
      }
      sizes := sizes[k := overrides[k]];
      todo := todo - {k};
    }
    ok := true;
  }
}
