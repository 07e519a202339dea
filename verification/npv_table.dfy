/**
  The NPV year tables of the two financial dialogs
  (`gui/npv_manager_dialog.py` and `gui/financial_pwl_dialog.py`): one row
  per year holding revenue, cost and discounted value, validation of the
  rows, the discounted value of a row, the NPV as the sum of the discounted
  values, and the copy between the manager's table and an activity's NPV
  parameters.

  `compute_discount_value`, `round(x, 2)`, the numeric formatter of the NPV
  text box and Python's `float` applied to that text are parameters.
*/
module NpvTable {
  import opened Wrappers
  import opened Financial

  /** Columns 1, 2 and 3 of one year's row (column 0 is the year label);
      an empty cell is `None`. */
  datatype Row = Row(revenue: Option<real>, cost: Option<real>, discounted: Option<real>)

  /** The two dialogs share the table but differ in `update_discounted_value`. */
  datatype Dialog = NpvManager | FinancialPwl

  /** The functions the dialogs call whose code is not part of this model. */
  datatype Env = Env(
    discountValue: (real, real, int, real) -> real,  // compute_discount_value(revenue, cost, year, rate)
    round2: real -> real,                            // round(x, 2)
    format: real -> string,                          // the NPV text: two decimals, thousands separator
    parse: string -> Option<real>)                   // float(text); None where it raises ValueError

  /** The year table, the discount-rate spin box, and the NPV as both the
      `_npv` field and the text box showing it. */
  datatype Sheet = Sheet(rows: seq<Row>, rate: real, npv: real, npvText: string)

  // ---------------------------------------------------------------------
  // Validation
  // ---------------------------------------------------------------------

  datatype Missing = RevenueMissing | CostMissing | BothMissing

  /** The message bar warning "Year n: ... not defined". */
  datatype Warning = Warning(year: int, missing: Missing)

  /** A row is complete when both revenue and cost are truthy: an empty
      cell and a zero both count as not defined. */
  predicate RowValid(r: Row)
  {
    Truthy(r.revenue) && Truthy(r.cost)
  }

  /** `_validate_row`: no warning for a complete row, otherwise the warning
      naming what is missing in year `row + 1`. */
  function ValidateRow(r: Row, row: nat): (w: Option<Warning>)
    ensures w.None? <==> RowValid(r)
    ensures w.Some? ==> w.value.year == row + 1
    ensures w.Some? ==> (w.value.missing == BothMissing <==> !Truthy(r.revenue) && !Truthy(r.cost))
    ensures w.Some? ==> (w.value.missing == CostMissing <==> Truthy(r.revenue))
  {
    if !Truthy(r.revenue) && Truthy(r.cost) then Some(Warning(row + 1, RevenueMissing))
    else if Truthy(r.revenue) && !Truthy(r.cost) then Some(Warning(row + 1, CostMissing))
    else if !Truthy(r.revenue) && !Truthy(r.cost) then Some(Warning(row + 1, BothMissing))
    else None
  }

  /** The warnings of every row, in row order. */
  function Warnings(rows: seq<Row>): seq<Warning>
    decreases |rows|
  {
    if rows == [] then []
    else
      var n := |rows| - 1;
      Warnings(rows[..n]) + match ValidateRow(rows[n], n) case None => [] case Some(w) => [w]
  }

  /** Every incomplete row gets its warning, and every warning belongs to an
      incomplete row. */
  lemma {:induction false} WarningsCoverRows(rows: seq<Row>)
    ensures forall k :: 0 <= k < |rows| && !RowValid(rows[k]) ==> ValidateRow(rows[k], k).value in Warnings(rows)
    ensures forall w :: w in Warnings(rows) ==>
      1 <= w.year <= |rows| && ValidateRow(rows[w.year - 1], w.year - 1) == Some(w)
    decreases |rows|
  {
    if rows != [] {
      var n := |rows| - 1;
      var front := rows[..n];
      WarningsCoverRows(front);
      var last: seq<Warning> := match ValidateRow(rows[n], n) case None => [] case Some(w) => [w];
      assert Warnings(rows) == Warnings(front) + last;
      forall k | 0 <= k < |rows| && !RowValid(rows[k])
        ensures ValidateRow(rows[k], k).value in Warnings(rows)
      {
        if k < n {
          assert front[k] == rows[k];
          assert ValidateRow(rows[k], k).value in Warnings(front);
        } else {
          assert last == [ValidateRow(rows[k], k).value];
        }
      }
      forall w | w in Warnings(rows)
        ensures 1 <= w.year <= |rows| && ValidateRow(rows[w.year - 1], w.year - 1) == Some(w)
      {
        if w in Warnings(front) {
          assert front[w.year - 1] == rows[w.year - 1];
        } else {
          assert w in last;
        }
      }
    }
  }

  /** `is_valid`: validates every row, without stopping at the first
      incomplete one, so that each incomplete row shows its warning. */
  method IsValid(rows: seq<Row>) returns (status: bool, shown: seq<Warning>)
    ensures status <==> forall k :: 0 <= k < |rows| ==> RowValid(rows[k])
    ensures shown == Warnings(rows)
  {
    status, shown := true, [];
    var row := 0;
    while row < |rows|
      invariant 0 <= row <= |rows|
      invariant status <==> forall k :: 0 <= k < row ==> RowValid(rows[k])
      invariant shown == Warnings(rows[..row])
    {
      var w := ValidateRow(rows[row], row);
      assert rows[..row + 1][..row] == rows[..row];
      if w.Some? {
        shown := shown + [w.value];
        if status {
          status := false;
        }
      }
      row := row + 1;
    }
    assert rows[..|rows|] == rows;
  }

  // ---------------------------------------------------------------------
  // The NPV
  // ---------------------------------------------------------------------

  /** What a row adds to the NPV: nothing when its discounted value is empty. */
  function Contribution(r: Row): real
  {
    r.discounted.GetOr(0.0)
  }

  /** The sum of the discounted values of the rows. */
  function NpvOf(rows: seq<Row>): real
    decreases |rows|
  {
    if rows == [] then 0.0 else NpvOf(rows[..|rows| - 1]) + Contribution(rows[|rows| - 1])
  }

  /** Replacing one row changes the NPV by the difference of the two rows' contributions. */
  lemma {:induction false} NpvOfUpdate(rows: seq<Row>, i: nat, r: Row)
    requires i < |rows|
    ensures NpvOf(rows[i := r]) == NpvOf(rows) - Contribution(rows[i]) + Contribution(r)
    decreases |rows|
  {
    var n := |rows| - 1;
    var rows' := rows[i := r];
    assert rows'[..n] == if i == n then rows[..n] else rows[..n][i := r];
    if i < n {
      NpvOfUpdate(rows[..n], i, r);
    }
  }

  /** Rows whose discounted value is empty add nothing: a table without
      discounted values has an NPV of zero. */
  lemma {:induction false} NpvOfEmptyCells(rows: seq<Row>)
    requires forall k :: 0 <= k < |rows| ==> rows[k].discounted.None?
    ensures NpvOf(rows) == 0.0
    decreases |rows|
  {
    if rows != [] {
      var n := |rows| - 1;
      assert forall k :: 0 <= k < n ==> rows[..n][k] == rows[k];
      NpvOfEmptyCells(rows[..n]);
    }
  }

  /** `compute_npv`: sums the non-empty discounted values and shows the
      formatted total. */
  method ComputeNpv(env: Env, s: Sheet) returns (t: Sheet)
    ensures t == s.(npv := NpvOf(s.rows), npvText := env.format(NpvOf(s.rows)))
  {
    var npv := 0.0;
    var row := 0;
    while row < |s.rows|
      invariant 0 <= row <= |s.rows|
      invariant npv == NpvOf(s.rows[..row])
    {
      assert s.rows[..row + 1][..row] == s.rows[..row];
      var value := s.rows[row].discounted;
      if value.Some? {
        npv := npv + value.value;
      }
      row := row + 1;
    }
    assert s.rows[..|s.rows|] == s.rows;
    t := s.(npv := npv, npvText := env.format(npv));
  }

  // ---------------------------------------------------------------------
  // Discounted values
  // ---------------------------------------------------------------------

  /** Whether `update_discounted_value` computes a row: the manager skips a
      row whose revenue and cost are both empty; the PWL dialog never does. */
  predicate Computes(d: Dialog, r: Row)
  {
    d == FinancialPwl || r.revenue.Some? || r.cost.Some?
  }

  /** The value written to column 3 of row `row`: empty cells count as 0.0,
      the year is `row + 1`, and only the manager rounds to two decimals. */
  function DiscountedValue(d: Dialog, env: Env, rate: real, r: Row, row: nat): real
  {
    var v := env.discountValue(r.revenue.GetOr(0.0), r.cost.GetOr(0.0), row + 1, rate);
    if d == NpvManager then env.round2(v) else v
  }

  /** `update_discounted_value`.  Outside the table Qt returns no data and
      ignores writes, so the manager returns early while the PWL dialog
      only recomputes the NPV. */
  function UpdateDiscountedValue(d: Dialog, env: Env, s: Sheet, row: nat): (t: Sheet)
    ensures t.rate == s.rate && |t.rows| == |s.rows|
    ensures forall k :: 0 <= k < |s.rows| && k != row ==> t.rows[k] == s.rows[k]
    ensures row < |s.rows| ==> t.rows[row].revenue == s.rows[row].revenue && t.rows[row].cost == s.rows[row].cost
    ensures row < |s.rows| && Computes(d, s.rows[row]) ==>
      t.rows[row].discounted == Some(DiscountedValue(d, env, s.rate, s.rows[row], row))
    ensures (if row < |s.rows| then Computes(d, s.rows[row]) else d == FinancialPwl) ==>
      t.npv == NpvOf(t.rows) && t.npvText == env.format(t.npv)
    ensures (if row < |s.rows| then !Computes(d, s.rows[row]) else d == NpvManager) ==> t == s
  {
    if row >= |s.rows| then
      if d == NpvManager then s else s.(npv := NpvOf(s.rows), npvText := env.format(NpvOf(s.rows)))
    else if !Computes(d, s.rows[row]) then s
    else
      var r := s.rows[row];
      var rows := s.rows[row := r.(discounted := Some(DiscountedValue(d, env, s.rate, r, row)))];
      s.(rows := rows, npv := NpvOf(rows), npvText := env.format(NpvOf(rows)))
  }

  /** After a recomputation the NPV moves by exactly the change in the row's
      discounted value. */
  lemma UpdateDiscountedValueNpv(d: Dialog, env: Env, s: Sheet, row: nat)
    requires row < |s.rows| && Computes(d, s.rows[row])
    ensures UpdateDiscountedValue(d, env, s, row).npv
      == NpvOf(s.rows) - Contribution(s.rows[row]) + DiscountedValue(d, env, s.rate, s.rows[row], row)
  {
    var r := s.rows[row];
    NpvOfUpdate(s.rows, row, r.(discounted := Some(DiscountedValue(d, env, s.rate, r, row))));
  }

  /** Recomputing a row twice gives what recomputing it once gives. */
  lemma UpdateDiscountedValueIdempotent(d: Dialog, env: Env, s: Sheet, row: nat)
    ensures var t := UpdateDiscountedValue(d, env, s, row);
      UpdateDiscountedValue(d, env, t, row) == t
  {
    var t := UpdateDiscountedValue(d, env, s, row);
    if row < |s.rows| && Computes(d, s.rows[row]) {
      assert t.rows[row := t.rows[row]] == t.rows;
    }
  }

  /** A row after `update_all_discounted_values`: recomputed when its
      discounted value was already set and the dialog computes it. */
  predicate Refreshes(d: Dialog, r: Row)
  {
    r.discounted.Some? && Computes(d, r)
  }

  function Refreshed(d: Dialog, env: Env, rate: real, r: Row, row: nat): Row
  {
    if Refreshes(d, r) then r.(discounted := Some(DiscountedValue(d, env, rate, r, row))) else r
  }

  /** The loop of `update_all_discounted_values` from row `row` on: rows
      with an empty discounted value are skipped. */
  function UpdateAllFrom(d: Dialog, env: Env, s: Sheet, row: nat): (t: Sheet)
    ensures t.rate == s.rate && |t.rows| == |s.rows|
    decreases |s.rows| - row
  {
    if row >= |s.rows| then s
    else
      var next := if s.rows[row].discounted.Some? then UpdateDiscountedValue(d, env, s, row) else s;
      UpdateAllFrom(d, env, next, row + 1)
  }

  function UpdateAllDiscountedValues(d: Dialog, env: Env, s: Sheet): (t: Sheet)
    ensures t.rate == s.rate && |t.rows| == |s.rows|
  {
    UpdateAllFrom(d, env, s, 0)
  }

  /** What the loop does from row `row` on: rows before it are untouched,
      later rows are refreshed, the NPV is recomputed when some row was,
      and nothing changes when no row was. */
  lemma {:induction false} UpdateAllFromRefreshes(d: Dialog, env: Env, s: Sheet, row: nat)
    requires row <= |s.rows|
    ensures var t := UpdateAllFrom(d, env, s, row);
      && (forall k :: 0 <= k < row ==> t.rows[k] == s.rows[k])
      && (forall k :: row <= k < |s.rows| ==> t.rows[k] == Refreshed(d, env, s.rate, s.rows[k], k))
      && ((exists k :: row <= k < |s.rows| && Refreshes(d, s.rows[k])) ==> t.npv == NpvOf(t.rows) && t.npvText == env.format(t.npv))
      && ((forall k :: row <= k < |s.rows| ==> !Refreshes(d, s.rows[k])) ==> t == s)
    decreases |s.rows| - row
  {
    if row < |s.rows| {
      var next := if s.rows[row].discounted.Some? then UpdateDiscountedValue(d, env, s, row) else s;
      assert next.rows[row] == Refreshed(d, env, s.rate, s.rows[row], row);
      assert !Refreshes(d, s.rows[row]) ==> next == s;
      UpdateAllFromRefreshes(d, env, next, row + 1);
      assert forall k :: row < k < |s.rows| ==> next.rows[k] == s.rows[k];
    }
  }

  /** `update_all_discounted_values` refreshes exactly the rows that already
      had a discounted value and leaves revenue and cost alone. */
  lemma UpdateAllRefreshes(d: Dialog, env: Env, s: Sheet)
    ensures var t := UpdateAllDiscountedValues(d, env, s);
      && (forall k :: 0 <= k < |s.rows| ==> t.rows[k] == Refreshed(d, env, s.rate, s.rows[k], k))
      && (forall k :: 0 <= k < |s.rows| ==> t.rows[k].revenue == s.rows[k].revenue && t.rows[k].cost == s.rows[k].cost)
      && ((exists k :: 0 <= k < |s.rows| && Refreshes(d, s.rows[k])) ==> t.npv == NpvOf(t.rows) && t.npvText == env.format(t.npv))
      && ((forall k :: 0 <= k < |s.rows| ==> !Refreshes(d, s.rows[k])) ==> t == s)
  {
    UpdateAllFromRefreshes(d, env, s, 0);
  }

  /** `on_item_changed` (and the table part of the manager's
      `on_npv_computation_item_changed`): only edits of revenue or cost
      recompute their row. */
  function ItemChanged(d: Dialog, env: Env, s: Sheet, row: nat, column: int): (t: Sheet)
    ensures column != 1 && column != 2 ==> t == s
    ensures |t.rows| == |s.rows| && forall k :: 0 <= k < |s.rows| && k != row ==> t.rows[k] == s.rows[k]
  {
    if column == 1 || column == 2 then UpdateDiscountedValue(d, env, s, row) else s
  }

  /** Writing the discounted value re-enters the slot with column 3, which
      changes nothing, and repeating an edit's recomputation changes nothing
      either: the signal cascade settles after one step. */
  lemma ItemChangedSettles(d: Dialog, env: Env, s: Sheet, row: nat, column: int)
    ensures var t := ItemChanged(d, env, s, row, column);
      ItemChanged(d, env, t, row, 3) == t && ItemChanged(d, env, t, row, column) == t
  {
    if column == 1 || column == 2 {
      UpdateDiscountedValueIdempotent(d, env, s, row);
    }
  }

  // ---------------------------------------------------------------------
  // The manager's current activity
  // ---------------------------------------------------------------------

  /** The manager dialog: its table, the years spin box, the NPV group box's
      check state and the identifier of the activity being edited. */
  datatype Manager = Manager(sheet: Sheet, years: int, enabled: bool, current: Option<string>)

  /** Looking up the current activity returned `None`, so the attribute
      access on it raises. */
  datatype SyncError = NoSuchActivity

  /** The (revenue, cost, discounted value) tuple of every row. */
  function RatesOf(rows: seq<Row>): (rates: seq<RateTuple>)
    ensures |rates| == |rows|
    ensures forall k :: 0 <= k < |rows| ==> rates[k] == [rows[k].revenue, rows[k].cost, rows[k].discounted]
  {
    seq(|rows|, k requires 0 <= k < |rows| => [rows[k].revenue, rows[k].cost, rows[k].discounted])
  }

  /** The absolute NPV written back, given what the text box parses to. */
  function StoredNpv(parsed: Option<real>, previous: Option<real>): Option<real>
  {
    if parsed.Some? then parsed else previous
  }

  /** The mapping as `_update_current_activity_npv` leaves it: years,
      discount, check state and one tuple per row copied from the dialog;
      the absolute NPV only when the text box parses as a number. */
  function SyncedNpv(env: Env, m: Manager, a: ActivityNpv): (b: ActivityNpv)
    ensures b.activity == a.activity && b.params.normalizedNpv == a.params.normalizedNpv
    ensures b.enabled == m.enabled && b.params.years == m.years && b.params.discount == m.sheet.rate
    ensures b.params.yearlyRates == RatesOf(m.sheet.rows)
    ensures env.parse(m.sheet.npvText).Some? ==> b.params.absoluteNpv == env.parse(m.sheet.npvText)
    ensures env.parse(m.sheet.npvText).None? ==> b.params.absoluteNpv == a.params.absoluteNpv
  {
    a.(params := a.params.(years := m.years, discount := m.sheet.rate, yearlyRates := RatesOf(m.sheet.rows),
                           absoluteNpv := StoredNpv(env.parse(m.sheet.npvText), a.params.absoluteNpv)),
       enabled := m.enabled)
  }

  /** `_update_current_activity_npv` as written: nothing without a current
      activity; otherwise the first mapping for it is updated in place, and
      a missing mapping raises. */
  function SyncActivityNpv(env: Env, m: Manager, c: ActivityNpvCollection): (r: Result<ActivityNpvCollection, SyncError>)
    ensures m.current.None? ==> r == Ok(c)
    ensures m.current.Some? ==> (r.Err? <==> ActivityNpvLookup(c, m.current.value).None?)
    ensures r.Ok? ==> |r.value.mappings| == |c.mappings| && r.value.(mappings := c.mappings) == c
    ensures r.Ok? && m.current.Some? ==> var i := FirstMatch(c.mappings, m.current.value).value;
      && r.value.mappings[i] == SyncedNpv(env, m, c.mappings[i])
      && forall j :: 0 <= j < |c.mappings| && j != i ==> r.value.mappings[j] == c.mappings[j]
  {
    if m.current.None? then Ok(c)
    else match FirstMatch(c.mappings, m.current.value)
      case None => Err(NoSuchActivity)
      case Some(i) => Ok(c.(mappings := c.mappings[i := SyncedNpv(env, m, c.mappings[i])]))
  }

  /** The same with the NPV stored directly instead of re-parsed from the
      formatted text. */
  function SyncActivityNpvIntended(env: Env, m: Manager, c: ActivityNpvCollection): (r: Result<ActivityNpvCollection, SyncError>)
    ensures m.current.None? ==> r == Ok(c)
    ensures m.current.Some? ==> (r.Err? <==> ActivityNpvLookup(c, m.current.value).None?)
    ensures r.Ok? ==> |r.value.mappings| == |c.mappings| && r.value.(mappings := c.mappings) == c
  {
    if m.current.None? then Ok(c)
    else match FirstMatch(c.mappings, m.current.value)
      case None => Err(NoSuchActivity)
      case Some(i) =>
        var b := SyncedNpv(env, m, c.mappings[i]);
        Ok(c.(mappings := c.mappings[i := b.(params := b.params.(absoluteNpv := Some(m.sheet.npv)))]))
  }

  /** A formatter that groups thousands with ',' ... */
  ghost predicate GroupsThousands(format: real -> string)
  {
    forall v :: v >= 1000.0 ==> ',' in format(v)
  }

  /** ... and Python's `float`, which rejects ',' in its argument. */
  ghost predicate RejectsGrouping(parse: string -> Option<real>)
  {
    forall t :: ',' in t ==> parse(t).None?
  }

  /** As written, an NPV of 1000 or more is shown as e.g. "1,234.56", which
      `float` rejects, so the activity's absolute NPV keeps its old value. */
  lemma GroupedNpvNotStored(env: Env, m: Manager, c: ActivityNpvCollection)
    requires GroupsThousands(env.format) && RejectsGrouping(env.parse)
    requires m.current.Some? && ActivityNpvLookup(c, m.current.value).Some?
    requires m.sheet.npvText == env.format(m.sheet.npv) && m.sheet.npv >= 1000.0
    ensures var r := SyncActivityNpv(env, m, c);
      var i := FirstMatch(c.mappings, m.current.value).value;
      r.Ok? && r.value.mappings[i].params.absoluteNpv == c.mappings[i].params.absoluteNpv
  {
    assert ',' in env.format(m.sheet.npv);
  }

  /** Storing the NPV directly records the table's NPV whatever its size. */
  lemma IntendedSyncStoresNpv(env: Env, m: Manager, c: ActivityNpvCollection)
    requires m.current.Some? && ActivityNpvLookup(c, m.current.value).Some?
    requires m.sheet.npv == NpvOf(m.sheet.rows)
    ensures var r := SyncActivityNpvIntended(env, m, c);
      var i := FirstMatch(c.mappings, m.current.value).value;
      && r.Ok?
      && r.value.mappings[i].params.absoluteNpv == Some(NpvOf(m.sheet.rows))
      && r.value.mappings[i].params.yearlyRates == RatesOf(m.sheet.rows)
      && forall j :: 0 <= j < |c.mappings| && j != i ==> r.value.mappings[j] == c.mappings[j]
  {
  }

  /** `on_npv_computation_item_changed`: the table part, then the copy to
      the current activity. */
  function ManagerItemChanged(env: Env, m: Manager, c: ActivityNpvCollection, row: nat, column: int)
    : (r: (Manager, Result<ActivityNpvCollection, SyncError>))
    ensures column != 1 && column != 2 ==> r == (m, Ok(c))
    ensures column == 1 || column == 2 ==>
      r.0 == m.(sheet := UpdateDiscountedValue(NpvManager, env, m.sheet, row)) && r.1 == SyncActivityNpv(env, r.0, c)
  {
    if column == 1 || column == 2 then
      var m' := m.(sheet := ItemChanged(NpvManager, env, m.sheet, row, column));
      (m', SyncActivityNpv(env, m', c))
    else (m, Ok(c))
  }

  // ---------------------------------------------------------------------
  // Loading an activity
  // ---------------------------------------------------------------------

  /** The loop of `load_activity_npv` over the yearly rates from entry `i`
      on: entries shorter than three are skipped, the others set revenue and
      cost of their row, and entries past the table's end are ignored. */
  function WriteRatesFrom(rows: seq<Row>, rates: seq<RateTuple>, i: nat): (out: seq<Row>)
    ensures |out| == |rows|
    decreases |rates| - i
  {
    if i >= |rates| then rows
    else if |rates[i]| < 3 || i >= |rows| then WriteRatesFrom(rows, rates, i + 1)
    else WriteRatesFrom(rows[i := rows[i].(revenue := rates[i][0], cost := rates[i][1])], rates, i + 1)
  }

  /** Each row from `i` on takes revenue and cost from its entry when that
      entry has at least three elements; the discounted value and every
      other row are left alone. */
  lemma {:induction false} WriteRatesFromRows(rows: seq<Row>, rates: seq<RateTuple>, i: nat)
    ensures var out := WriteRatesFrom(rows, rates, i);
      forall k :: 0 <= k < |rows| ==>
        out[k] == if i <= k < |rates| && |rates[k]| >= 3 then rows[k].(revenue := rates[k][0], cost := rates[k][1]) else rows[k]
    decreases |rates| - i
  {
    if i < |rates| {
      if |rates[i]| < 3 || i >= |rows| {
        WriteRatesFromRows(rows, rates, i + 1);
      } else {
        var rows' := rows[i := rows[i].(revenue := rates[i][0], cost := rates[i][1])];
        WriteRatesFromRows(rows', rates, i + 1);
      }
    }
  }

  /** The dialog and the NPV collection while an activity is loaded.
      `raised` records that a slot raised during the load; the exception is
      reported by the application's exception hook and the load goes on. */
  datatype Loading = Loading(m: Manager, store: ActivityNpvCollection, raised: bool)

  /** The effect of one `_update_current_activity_npv` call: a failed lookup
      raises before anything is written. */
  function Reported(l: Loading, r: Result<ActivityNpvCollection, SyncError>): Loading
  {
    if r.Ok? then l.(store := r.value) else l.(raised := true)
  }

  /** The manager's `itemChanged` slot run for (row, column). */
  function Cascade(env: Env, l: Loading, row: nat, column: int): Loading
  {
    var p := ManagerItemChanged(env, l.m, l.store, row, column);
    Reported(l.(m := p.0), p.1)
  }

  /** Whether `setData` emits `itemChanged`: Qt skips the signal only when it
      is given a value equal to the one stored; clearing a cell always emits. */
  predicate Emits(before: Option<real>, after: Option<real>)
  {
    after.None? || after != before
  }

  /** Column 1 (revenue) or 2 (cost) of a row. */
  function Cell(r: Row, column: int): Option<real>
  {
    if column == 1 then r.revenue else r.cost
  }

  function WithCell(r: Row, column: int, v: Option<real>): Row
  {
    if column == 1 then r.(revenue := v) else r.(cost := v)
  }

  /** One `setData` of a revenue or cost cell in `load_activity_npv`, then
      the slot when Qt emits `itemChanged`.  An index past the table's end is
      invalid and the write is dropped.  When the write emits and the row has
      a revenue or a cost, its discounted value is computed from the row as
      written; when it does not emit, nothing changes at all. */
  function WriteCell(env: Env, l: Loading, row: nat, column: int, v: Option<real>): (r: Loading)
    requires column == 1 || column == 2
    ensures r.m.current == l.m.current && r.m.years == l.m.years && r.m.enabled == l.m.enabled
    ensures r.m.sheet.rate == l.m.sheet.rate && |r.m.sheet.rows| == |l.m.sheet.rows|
    ensures forall k :: 0 <= k < |l.m.sheet.rows| && k != row ==> r.m.sheet.rows[k] == l.m.sheet.rows[k]
    ensures row < |l.m.sheet.rows| ==>
      && Cell(r.m.sheet.rows[row], column) == v
      && Cell(r.m.sheet.rows[row], 3 - column) == Cell(l.m.sheet.rows[row], 3 - column)
      && (l.m.sheet.rows[row].discounted.Some? ==> r.m.sheet.rows[row].discounted.Some?)
    ensures row < |l.m.sheet.rows| && Emits(Cell(l.m.sheet.rows[row], column), v) && Computes(NpvManager, r.m.sheet.rows[row]) ==>
      r.m.sheet.rows[row].discounted == Some(DiscountedValue(NpvManager, env, l.m.sheet.rate, r.m.sheet.rows[row], row))
    ensures row >= |l.m.sheet.rows| || !Emits(Cell(l.m.sheet.rows[row], column), v) ==> r == l
  {
    var rows := l.m.sheet.rows;
    if row >= |rows| then l
    else
      var written := l.(m := l.m.(sheet := l.m.sheet.(rows := rows[row := WithCell(rows[row], column, v)])));
      if Emits(Cell(rows[row], column), v) then
        var r := Cascade(env, written, row, column);
        assert r.m == written.m.(sheet := UpdateDiscountedValue(NpvManager, env, written.m.sheet, row));
        r
      else
        assert rows[row := WithCell(rows[row], column, v)] == rows;
        written
  }

  /** The loop of `load_activity_npv` from entry `i` on: entries shorter
      than three are skipped, the others write revenue and then cost. */
  function LoadRatesFrom(env: Env, l: Loading, rates: seq<RateTuple>, i: nat): (r: Loading)
    ensures r.m.current == l.m.current && r.m.years == l.m.years && r.m.enabled == l.m.enabled
    ensures r.m.sheet.rate == l.m.sheet.rate && |r.m.sheet.rows| == |l.m.sheet.rows|
    decreases |rates| - i
  {
    if i >= |rates| then l
    else if |rates[i]| < 3 then LoadRatesFrom(env, l, rates, i + 1)
    else LoadRatesFrom(env, WriteCell(env, WriteCell(env, l, i, 1, rates[i][0]), i, 2, rates[i][1]), rates, i + 1)
  }

  /** Row `k` is written by the loop and one of its two writes emits
      `itemChanged`.  Row `k` is untouched before its own entry, so this is
      decided by the table the loop starts from. */
  predicate LoadEmits(rows: seq<Row>, rates: seq<RateTuple>, k: int)
  {
    && 0 <= k < |rates| && k < |rows| && |rates[k]| >= 3
    && (Emits(rows[k].revenue, rates[k][0]) || Emits(rows[k].cost, rates[k][1]))
  }

  /** The loop writes revenue and cost as the plain writes of
      `WriteRatesFrom` do, leaves the rows before `i` alone, and every row
      one of whose writes emitted ends with its discounted value computed,
      when it has a revenue or a cost. */
  lemma {:induction false} LoadRatesFromRows(env: Env, l: Loading, rates: seq<RateTuple>, i: nat)
    ensures var rows := l.m.sheet.rows; var out := LoadRatesFrom(env, l, rates, i).m.sheet.rows;
      && (forall k :: 0 <= k < |rows| ==>
        && (k < i ==> out[k] == rows[k])
        && out[k].revenue == (if i <= k < |rates| && |rates[k]| >= 3 then rates[k][0] else rows[k].revenue)
        && out[k].cost == (if i <= k < |rates| && |rates[k]| >= 3 then rates[k][1] else rows[k].cost)
        && (rows[k].discounted.Some? ==> out[k].discounted.Some?))
      && (forall k :: i <= k && LoadEmits(rows, rates, k) && Computes(NpvManager, out[k]) ==>
        out[k].discounted == Some(DiscountedValue(NpvManager, env, l.m.sheet.rate, out[k], k)))
    decreases |rates| - i
  {
    if i < |rates| {
      if |rates[i]| < 3 {
        LoadRatesFromRows(env, l, rates, i + 1);
      } else {
        var l1 := WriteCell(env, l, i, 1, rates[i][0]);
        var l2 := WriteCell(env, l1, i, 2, rates[i][1]);
        LoadRatesFromRows(env, l2, rates, i + 1);
        var rows := l.m.sheet.rows;
        var out := LoadRatesFrom(env, l, rates, i).m.sheet.rows;
        assert out == LoadRatesFrom(env, l2, rates, i + 1).m.sheet.rows;
        forall k | i < k && LoadEmits(rows, rates, k)
          ensures LoadEmits(l2.m.sheet.rows, rates, k)
        {
          assert l2.m.sheet.rows[k] == rows[k];
        }
        if i < |rows| {
          assert out[i] == l2.m.sheet.rows[i];
          if LoadEmits(rows, rates, i) && Computes(NpvManager, out[i]) && !Emits(l1.m.sheet.rows[i].cost, rates[i][1]) {
            assert l2 == l1;
          }
        }
      }
    }
  }

  /** The plain writes and the loop agree on revenue and cost: the slots
      the writes trigger touch only discounted values and the NPV. */
  lemma LoadWritesRates(env: Env, l: Loading, rates: seq<RateTuple>)
    ensures var out := LoadRatesFrom(env, l, rates, 0).m.sheet.rows; var w := WriteRatesFrom(l.m.sheet.rows, rates, 0);
      forall k :: 0 <= k < |w| ==> out[k].revenue == w[k].revenue && out[k].cost == w[k].cost
  {
    LoadRatesFromRows(env, l, rates, 0);
    WriteRatesFromRows(l.m.sheet.rows, rates, 0);
  }

  /** The store holds, for the current activity, the dialog's years,
      discount rate, check state and table. */
  predicate Mirrors(m: Manager, store: ActivityNpvCollection)
  {
    && m.current.Some?
    && ActivityNpvLookup(store, m.current.value).Some?
    && var e := ActivityNpvLookup(store, m.current.value).value;
    && e.params.years == m.years && e.params.discount == m.sheet.rate && e.enabled == m.enabled
    && e.params.yearlyRates == RatesOf(m.sheet.rows)
  }

  /** `store` differs from `c` at most in the first mapping for `id`. */
  predicate SameExceptFirst(c: ActivityNpvCollection, store: ActivityNpvCollection, id: string)
  {
    && FirstMatch(c.mappings, id).Some?
    && |store.mappings| == |c.mappings|
    && FirstMatch(store.mappings, id) == FirstMatch(c.mappings, id)
    && forall j :: 0 <= j < |c.mappings| && j != FirstMatch(c.mappings, id).value ==> store.mappings[j] == c.mappings[j]
  }

  /** A write-back for an activity the store holds succeeds, makes the store
      mirror the dialog and changes no other mapping. */
  lemma SyncMirrors(env: Env, m: Manager, c: ActivityNpvCollection, store: ActivityNpvCollection)
    requires m.current.Some? && SameExceptFirst(c, store, m.current.value)
    ensures var r := SyncActivityNpv(env, m, store);
      r.Ok? && SameExceptFirst(c, r.value, m.current.value) && Mirrors(m, r.value)
  {
    var id := m.current.value;
    var i := FirstMatch(store.mappings, id).value;
    var s := SyncActivityNpv(env, m, store).value;
    assert ActivityId(s.mappings[i]) == id;
    assert forall j :: 0 <= j < i ==> ActivityId(s.mappings[j]) != id;
    FirstMatchAt(s.mappings, id, i);
  }

  /** One write keeps the other mappings and the first mapping's position,
      raises nothing, and leaves the store mirroring the dialog when it did
      before or when the write emitted. */
  lemma WriteCellMirrors(env: Env, l: Loading, row: nat, column: int, v: Option<real>, c: ActivityNpvCollection)
    requires column == 1 || column == 2
    requires l.m.current.Some? && SameExceptFirst(c, l.store, l.m.current.value)
    ensures var r := WriteCell(env, l, row, column, v);
      && SameExceptFirst(c, r.store, l.m.current.value) && r.raised == l.raised
      && (Mirrors(l.m, l.store) || (row < |l.m.sheet.rows| && Emits(Cell(l.m.sheet.rows[row], column), v)) ==> Mirrors(r.m, r.store))
  {
    var rows := l.m.sheet.rows;
    if row < |rows| && Emits(Cell(rows[row], column), v) {
      var written := l.(m := l.m.(sheet := l.m.sheet.(rows := rows[row := WithCell(rows[row], column, v)])));
      SyncMirrors(env, ManagerItemChanged(env, written.m, written.store, row, column).0, c, l.store);
    }
  }

  /** The two writes of one entry: the same as one write, with the store
      mirroring the dialog afterwards when either write emitted. */
  lemma LoadStepMirrors(env: Env, l: Loading, rates: seq<RateTuple>, i: nat, c: ActivityNpvCollection)
    requires i < |rates| && |rates[i]| >= 3
    requires l.m.current.Some? && SameExceptFirst(c, l.store, l.m.current.value)
    ensures var l2 := WriteCell(env, WriteCell(env, l, i, 1, rates[i][0]), i, 2, rates[i][1]);
      && SameExceptFirst(c, l2.store, l.m.current.value) && l2.raised == l.raised
      && l2.m.current == l.m.current && |l2.m.sheet.rows| == |l.m.sheet.rows|
      && (forall k :: 0 <= k < |l.m.sheet.rows| && k != i ==> l2.m.sheet.rows[k] == l.m.sheet.rows[k])
      && (Mirrors(l.m, l.store) || LoadEmits(l.m.sheet.rows, rates, i) ==> Mirrors(l2.m, l2.store))
  {
    var l1 := WriteCell(env, l, i, 1, rates[i][0]);
    WriteCellMirrors(env, l, i, 1, rates[i][0], c);
    WriteCellMirrors(env, l1, i, 2, rates[i][1], c);
    if i < |l.m.sheet.rows| {
      assert l1.m.sheet.rows[i].cost == l.m.sheet.rows[i].cost;
    }
  }

  /** Over the whole loop: the store keeps every other mapping, nothing
      raises, and it ends mirroring the dialog when some write emitted. */
  lemma {:induction false} LoadRatesFromMirrors(env: Env, l: Loading, rates: seq<RateTuple>, i: nat, c: ActivityNpvCollection)
    requires l.m.current.Some? && SameExceptFirst(c, l.store, l.m.current.value)
    ensures var r := LoadRatesFrom(env, l, rates, i);
      && SameExceptFirst(c, r.store, l.m.current.value) && r.raised == l.raised
      && (Mirrors(l.m, l.store) || (exists k :: i <= k && LoadEmits(l.m.sheet.rows, rates, k)) ==> Mirrors(r.m, r.store))
    decreases |rates| - i
  {
    if i < |rates| {
      var next := if |rates[i]| < 3 then l else WriteCell(env, WriteCell(env, l, i, 1, rates[i][0]), i, 2, rates[i][1]);
      if |rates[i]| >= 3 {
        LoadStepMirrors(env, l, rates, i, c);
      }
      assert LoadRatesFrom(env, l, rates, i) == LoadRatesFrom(env, next, rates, i + 1);
      LoadRatesFromMirrors(env, next, rates, i + 1, c);
      if exists k :: i <= k && LoadEmits(l.m.sheet.rows, rates, k) {
        var k :| i <= k && LoadEmits(l.m.sheet.rows, rates, k);
        if k == i {
          assert Mirrors(next.m, next.store);
        } else {
          assert next.m.sheet.rows[k] == l.m.sheet.rows[k];
          assert LoadEmits(next.m.sheet.rows, rates, k);
        }
      }
    }
  }

  /** The two writes of one entry, for an activity the store does not
      hold: the store is kept, and they raise exactly when one emits. */
  lemma LoadStepUnknown(env: Env, l: Loading, rates: seq<RateTuple>, i: nat)
    requires i < |rates| && |rates[i]| >= 3
    requires l.m.current.Some? && ActivityNpvLookup(l.store, l.m.current.value).None?
    ensures var l2 := WriteCell(env, WriteCell(env, l, i, 1, rates[i][0]), i, 2, rates[i][1]);
      && l2.store == l.store && l2.m.current == l.m.current && |l2.m.sheet.rows| == |l.m.sheet.rows|
      && (forall k :: 0 <= k < |l.m.sheet.rows| && k != i ==> l2.m.sheet.rows[k] == l.m.sheet.rows[k])
      && (l2.raised <==> l.raised || LoadEmits(l.m.sheet.rows, rates, i))
  {
    var rows := l.m.sheet.rows;
    var l1 := WriteCell(env, l, i, 1, rates[i][0]);
    assert l1.store == l.store && l1.raised == (l.raised || (i < |rows| && Emits(rows[i].revenue, rates[i][0])));
    if i < |rows| {
      assert l1.m.sheet.rows[i].cost == rows[i].cost;
    }
  }

  /** For an activity the store does not hold, every emitting write raises
      and the store is left as it was. */
  lemma {:induction false} LoadRatesFromUnknown(env: Env, l: Loading, rates: seq<RateTuple>, i: nat)
    requires l.m.current.Some? && ActivityNpvLookup(l.store, l.m.current.value).None?
    ensures var r := LoadRatesFrom(env, l, rates, i);
      && r.store == l.store
      && (r.raised <==> l.raised || exists k :: i <= k && LoadEmits(l.m.sheet.rows, rates, k))
    decreases |rates| - i
  {
    if i < |rates| {
      var next := if |rates[i]| < 3 then l else WriteCell(env, WriteCell(env, l, i, 1, rates[i][0]), i, 2, rates[i][1]);
      if |rates[i]| >= 3 {
        LoadStepUnknown(env, l, rates, i);
      }
      assert LoadRatesFrom(env, l, rates, i) == LoadRatesFrom(env, next, rates, i + 1);
      LoadRatesFromUnknown(env, next, rates, i + 1);
      assert next.raised <==> l.raised || LoadEmits(l.m.sheet.rows, rates, i);
      forall k | i < k
        ensures LoadEmits(next.m.sheet.rows, rates, k) == LoadEmits(l.m.sheet.rows, rates, k)
      {
        if k < |l.m.sheet.rows| {
          assert next.m.sheet.rows[k] == l.m.sheet.rows[k];
        }
      }
    }
  }

  /** The group box goes from checked to unchecked when the activity is
      loaded, and the activity is the store's own first mapping for its
      identifier.  Equality with the stored mapping stands for Python's
      object identity. */
  predicate Aliased(m: Manager, c: ActivityNpvCollection, a: ActivityNpv)
  {
    m.enabled && !a.enabled && ActivityNpvLookup(c, ActivityId(a)) == Some(a)
  }

  /** The parameters `load_activity_npv` reads after `setChecked`.
      `npv_params` is the activity's own parameter object, so when unchecking
      the group box writes the dialog back to that very mapping, the years,
      discount and yearly rates read afterwards are the dialog's previous
      ones and not the activity's. */
  function LoadedParams(env: Env, m: Manager, c: ActivityNpvCollection, a: ActivityNpv): (p: NpvParameters)
    ensures Aliased(m, c, a) ==>
      p.years == m.years && p.discount == m.sheet.rate && p.yearlyRates == RatesOf(m.sheet.rows)
    ensures !Aliased(m, c, a) ==> p == a.params
  {
    if Aliased(m, c, a) then SyncedNpv(env, m.(current := Some(ActivityId(a)), enabled := a.enabled), a).params
    else a.params
  }

  /** `load_activity_npv` up to its loop.  `resized` is the table after
      `set_number_of_years(years)` of the table model, whose `rowsRemoved`
      recomputes the NPV when rows went away.  The activity becomes current;
      unchecking the group box writes the dialog back to the store; the years
      and discount spin boxes are set from `LoadedParams` with their signals
      blocked. */
  function LoadStart(env: Env, m: Manager, c: ActivityNpvCollection, a: ActivityNpv, resized: seq<Row>): (l: Loading)
    ensures var p := LoadedParams(env, m, c, a);
      l.m.current == Some(ActivityId(a)) && l.m.years == p.years && l.m.enabled == a.enabled
    ensures l.m.sheet.rate == LoadedParams(env, m, c, a).discount && l.m.sheet.rows == resized
  {
    var p := LoadedParams(env, m, c, a);
    var selected := m.(current := Some(ActivityId(a)), enabled := a.enabled);
    var checked :=
      if m.enabled && !a.enabled then Reported(Loading(selected, c, false), SyncActivityNpv(env, selected, c))
      else Loading(selected, c, false);
    var sheet := checked.m.sheet.(rows := resized, rate := p.discount);
    var sized :=
      if |resized| < |m.sheet.rows| then sheet.(npv := NpvOf(resized), npvText := env.format(NpvOf(resized)))
      else sheet;
    checked.(m := checked.m.(years := p.years, sheet := sized))
  }

  /** `load_activity_npv`: the loop over the yearly rates `LoadedParams`
      gives, in which every revenue or cost write that emits `itemChanged`
      computes its row's discounted value and the NPV and writes the table
      back to the store, and then the discounted values already set are
      recomputed. */
  function LoadActivityNpv(env: Env, m: Manager, c: ActivityNpvCollection, a: ActivityNpv, resized: seq<Row>): (l: Loading)
    ensures var p := LoadedParams(env, m, c, a);
      l.m.current == Some(ActivityId(a)) && l.m.years == p.years && l.m.enabled == a.enabled
    ensures l.m.sheet.rate == LoadedParams(env, m, c, a).discount && |l.m.sheet.rows| == |resized|
  {
    var filled := LoadRatesFrom(env, LoadStart(env, m, c, a, resized), LoadedParams(env, m, c, a).yearlyRates, 0);
    filled.(m := filled.m.(sheet := UpdateAllDiscountedValues(NpvManager, env, filled.m.sheet)))
  }

  /** What loading writes: each row takes revenue and cost from its entry
      unless the entry is shorter than three, and only then. */
  lemma LoadActivityNpvRows(env: Env, m: Manager, c: ActivityNpvCollection, a: ActivityNpv, resized: seq<Row>)
    ensures var p := LoadedParams(env, m, c, a);
      var l := LoadActivityNpv(env, m, c, a, resized);
      var rates := p.yearlyRates;
      forall k :: 0 <= k < |resized| ==>
        if k < |rates| && |rates[k]| >= 3 then l.m.sheet.rows[k].revenue == rates[k][0] && l.m.sheet.rows[k].cost == rates[k][1]
        else l.m.sheet.rows[k].revenue == resized[k].revenue && l.m.sheet.rows[k].cost == resized[k].cost
  {
    var p := LoadedParams(env, m, c, a);
    var start := LoadStart(env, m, c, a, resized);
    LoadRatesFromRows(env, start, p.yearlyRates, 0);
    UpdateAllRefreshes(NpvManager, env, LoadRatesFrom(env, start, p.yearlyRates, 0).m.sheet);
  }

  /** After loading, every row one of whose writes emitted and which has a
      revenue or a cost holds its discounted value at the activity's rate,
      and then the NPV is the sum of the discounted values and the text box
      shows it. */
  lemma LoadActivityNpvComputes(env: Env, m: Manager, c: ActivityNpvCollection, a: ActivityNpv, resized: seq<Row>)
    ensures var p := LoadedParams(env, m, c, a);
      var l := LoadActivityNpv(env, m, c, a, resized); var rows := l.m.sheet.rows;
      && (forall k :: LoadEmits(resized, p.yearlyRates, k) && Computes(NpvManager, rows[k]) ==>
        rows[k].discounted == Some(DiscountedValue(NpvManager, env, p.discount, rows[k], k)))
      && ((exists k :: LoadEmits(resized, p.yearlyRates, k) && Computes(NpvManager, rows[k])) ==>
        l.m.sheet.npv == NpvOf(rows) && l.m.sheet.npvText == env.format(l.m.sheet.npv))
  {
    var p := LoadedParams(env, m, c, a);
    var start := LoadStart(env, m, c, a, resized);
    var filled := LoadRatesFrom(env, start, p.yearlyRates, 0).m.sheet;
    LoadRatesFromRows(env, start, p.yearlyRates, 0);
    UpdateAllRefreshes(NpvManager, env, filled);
    var rows := LoadActivityNpv(env, m, c, a, resized).m.sheet.rows;
    forall k | LoadEmits(resized, p.yearlyRates, k) && Computes(NpvManager, rows[k])
      ensures Refreshes(NpvManager, filled.rows[k])
      ensures rows[k].discounted == Some(DiscountedValue(NpvManager, env, p.discount, rows[k], k))
    {
      assert rows[k] == Refreshed(NpvManager, env, filled.rate, filled.rows[k], k);
    }
  }

  /** Before the loop, for an activity the store holds: nothing has raised
      and the store differs at most in that activity's first mapping. */
  lemma LoadStartKnown(env: Env, m: Manager, c: ActivityNpvCollection, a: ActivityNpv, resized: seq<Row>)
    requires ActivityNpvLookup(c, ActivityId(a)).Some?
    ensures var start := LoadStart(env, m, c, a, resized);
      SameExceptFirst(c, start.store, ActivityId(a)) && !start.raised
  {
    if m.enabled && !a.enabled {
      SyncMirrors(env, m.(current := Some(ActivityId(a)), enabled := a.enabled), c, c);
    }
  }

  /** A mirroring store holds the dialog's years, rate, check state, and
      one (revenue, cost, discounted value) tuple per row. */
  lemma MirroredRates(m: Manager, store: ActivityNpvCollection)
    requires Mirrors(m, store)
    ensures var e := ActivityNpvLookup(store, m.current.value).value;
      && e.params.years == m.years && e.params.discount == m.sheet.rate && e.enabled == m.enabled
      && |e.params.yearlyRates| == |m.sheet.rows|
      && forall k :: 0 <= k < |m.sheet.rows| ==>
        |e.params.yearlyRates[k]| == 3
        && e.params.yearlyRates[k][0] == m.sheet.rows[k].revenue && e.params.yearlyRates[k][1] == m.sheet.rows[k].cost
  {
  }

  /** The loop, for an activity the store holds and with a write that
      emits, ends with the store mirroring the dialog. */
  lemma LoadLoopMirrors(env: Env, m: Manager, c: ActivityNpvCollection, a: ActivityNpv, resized: seq<Row>)
    requires ActivityNpvLookup(c, ActivityId(a)).Some?
    requires exists k :: LoadEmits(resized, LoadedParams(env, m, c, a).yearlyRates, k)
    ensures var p := LoadedParams(env, m, c, a);
      var filled := LoadRatesFrom(env, LoadStart(env, m, c, a, resized), p.yearlyRates, 0);
      SameExceptFirst(c, filled.store, ActivityId(a)) && !filled.raised && Mirrors(filled.m, filled.store)
  {
    var p := LoadedParams(env, m, c, a);
    var start := LoadStart(env, m, c, a, resized);
    LoadStartKnown(env, m, c, a, resized);
    LoadRatesFromMirrors(env, start, p.yearlyRates, 0, c);
    var k :| LoadEmits(resized, p.yearlyRates, k);
    assert 0 <= k && LoadEmits(start.m.sheet.rows, p.yearlyRates, k);
  }

  /** Recomputing the discounted values of a dialog whose store mirrors it
      keeps the revenues and costs the store holds for the current activity. */
  lemma RefreshedMirrorWritesBack(env: Env, f: Loading, c: ActivityNpvCollection, id: string)
    requires f.m.current == Some(id) && SameExceptFirst(c, f.store, id) && !f.raised && Mirrors(f.m, f.store)
    ensures var l := f.(m := f.m.(sheet := UpdateAllDiscountedValues(NpvManager, env, f.m.sheet)));
      var i := FirstMatch(c.mappings, id).value;
      && |l.store.mappings| == |c.mappings|
      && (forall j :: 0 <= j < |c.mappings| && j != i ==> l.store.mappings[j] == c.mappings[j])
      && ActivityNpvLookup(l.store, id).Some?
      && var e := ActivityNpvLookup(l.store, id).value;
      && e.params.years == f.m.years && e.params.discount == f.m.sheet.rate && e.enabled == f.m.enabled
      && |e.params.yearlyRates| == |f.m.sheet.rows|
      && forall k :: 0 <= k < |f.m.sheet.rows| ==>
        |e.params.yearlyRates[k]| == 3
        && e.params.yearlyRates[k][0] == l.m.sheet.rows[k].revenue && e.params.yearlyRates[k][1] == l.m.sheet.rows[k].cost
  {
    MirroredRates(f.m, f.store);
    UpdateAllRefreshes(NpvManager, env, f.m.sheet);
  }

  /** After loading an activity the store holds, with at least one write
      that emitted, nothing has raised, no other mapping has changed, and
      the activity's mapping holds the loaded years, discount rate and check
      state and the table's revenues and costs. */
  lemma LoadActivityNpvWritesBack(env: Env, m: Manager, c: ActivityNpvCollection, a: ActivityNpv, resized: seq<Row>)
    requires ActivityNpvLookup(c, ActivityId(a)).Some?
    requires exists k :: LoadEmits(resized, LoadedParams(env, m, c, a).yearlyRates, k)
    ensures var p := LoadedParams(env, m, c, a);
      var l := LoadActivityNpv(env, m, c, a, resized); var id := ActivityId(a);
      var i := FirstMatch(c.mappings, id).value;
      && !l.raised
      && |l.store.mappings| == |c.mappings|
      && (forall j :: 0 <= j < |c.mappings| && j != i ==> l.store.mappings[j] == c.mappings[j])
      && ActivityNpvLookup(l.store, id).Some?
      && var e := ActivityNpvLookup(l.store, id).value;
      && e.params.years == p.years && e.params.discount == p.discount && e.enabled == a.enabled
      && |e.params.yearlyRates| == |resized|
      && forall k :: 0 <= k < |resized| ==>
        |e.params.yearlyRates[k]| == 3
        && e.params.yearlyRates[k][0] == l.m.sheet.rows[k].revenue && e.params.yearlyRates[k][1] == l.m.sheet.rows[k].cost
  {
    var p := LoadedParams(env, m, c, a);
    var filled := LoadRatesFrom(env, LoadStart(env, m, c, a, resized), p.yearlyRates, 0);
    LoadLoopMirrors(env, m, c, a, resized);
    RefreshedMirrorWritesBack(env, filled, c, ActivityId(a));
  }

  /** Loading an activity the store does not hold leaves the store as it
      was, and something raises exactly when a write emitted or the group
      box was unchecked. */
  lemma LoadUnknownActivity(env: Env, m: Manager, c: ActivityNpvCollection, a: ActivityNpv, resized: seq<Row>)
    requires ActivityNpvLookup(c, ActivityId(a)).None?
    ensures var l := LoadActivityNpv(env, m, c, a, resized);
      && l.store == c
      && (l.raised <==> (m.enabled && !a.enabled) || exists k :: LoadEmits(resized, a.params.yearlyRates, k))
  {
    var start := LoadStart(env, m, c, a, resized);
    LoadRatesFromUnknown(env, start, a.params.yearlyRates, 0);
    if exists k :: LoadEmits(resized, a.params.yearlyRates, k) {
      var k :| LoadEmits(resized, a.params.yearlyRates, k);
      assert 0 <= k;
    }
  }

  /** After `reset_npv_values` the rows have no revenue, so every entry of
      at least three elements that fits in the table is written with an
      emitting `setData`: each such row with a revenue or a cost ends with
      its discounted value at the loaded rate.  The reset also unchecks the
      group box, and with it unchecked the loaded parameters are the
      activity's own. */
  lemma LoadAfterResetComputes(env: Env, m: Manager, c: ActivityNpvCollection, a: ActivityNpv, resized: seq<Row>)
    requires forall k :: 0 <= k < |resized| ==> resized[k].revenue.None?
    ensures var p := LoadedParams(env, m, c, a);
      var l := LoadActivityNpv(env, m, c, a, resized); var rows := l.m.sheet.rows; var rates := p.yearlyRates;
      forall k :: 0 <= k < |resized| && k < |rates| && |rates[k]| >= 3 && Computes(NpvManager, rows[k]) ==>
        rows[k].discounted == Some(DiscountedValue(NpvManager, env, p.discount, rows[k], k))
  {
    var p := LoadedParams(env, m, c, a);
    LoadActivityNpvComputes(env, m, c, a, resized);
    var rates := p.yearlyRates;
    assert forall k :: 0 <= k < |resized| && k < |rates| && |rates[k]| >= 3 ==> LoadEmits(resized, rates, k);
  }

  /** Copying the table to the current activity and loading that activity
      back into a table of the same number of years restores the revenues,
      costs, years, discount rate and check state, unless the load unchecks
      a checked group box: then the write-back of that toggle goes into the
      very mapping being loaded, and the load shows the other dialog's years,
      rate, revenues and costs instead. */
  lemma SyncThenLoad(env: Env, m: Manager, c: ActivityNpvCollection, other: Manager, resized: seq<Row>)
    requires m.current.Some? && ActivityNpvLookup(c, m.current.value).Some?
    requires |resized| == |m.sheet.rows|
    ensures var r := SyncActivityNpv(env, m, c);
      && r.Ok?
      && ActivityNpvLookup(r.value, m.current.value).Some?
      && var l := LoadActivityNpv(env, other, r.value, ActivityNpvLookup(r.value, m.current.value).value, resized);
      && l.m.current == m.current && l.m.enabled == m.enabled
      && (!(other.enabled && !m.enabled) ==>
        && l.m.years == m.years && l.m.sheet.rate == m.sheet.rate
        && forall k :: 0 <= k < |resized| ==>
          l.m.sheet.rows[k].revenue == m.sheet.rows[k].revenue && l.m.sheet.rows[k].cost == m.sheet.rows[k].cost)
      && (other.enabled && !m.enabled ==>
        && l.m.years == other.years && l.m.sheet.rate == other.sheet.rate
        && forall k :: 0 <= k < |resized| ==>
          if k < |other.sheet.rows| then
            l.m.sheet.rows[k].revenue == other.sheet.rows[k].revenue && l.m.sheet.rows[k].cost == other.sheet.rows[k].cost
          else l.m.sheet.rows[k].revenue == resized[k].revenue && l.m.sheet.rows[k].cost == resized[k].cost)
  {
    var id := m.current.value;
    var i := FirstMatch(c.mappings, id).value;
    var c' := SyncActivityNpv(env, m, c).value;
    assert ActivityId(c'.mappings[i]) == id;
    assert forall j :: 0 <= j < i ==> ActivityId(c'.mappings[j]) != id;
    FirstMatchAt(c'.mappings, id, i);
    var a := c'.mappings[i];
    assert ActivityNpvLookup(c', id) == Some(a);
    assert Aliased(other, c', a) <==> other.enabled && !m.enabled;
    if other.enabled && !m.enabled {
      LoadCopiedRows(env, other, c', a, resized, other.sheet.rows);
    } else {
      LoadCopiedRows(env, other, c', a, resized, m.sheet.rows);
    }
  }

  /** Loading rates copied from a table's rows gives each row that table's
      revenue and cost where the table has the row, and keeps the resized
      table's elsewhere. */
  lemma LoadCopiedRows(env: Env, m: Manager, c: ActivityNpvCollection, a: ActivityNpv, resized: seq<Row>, source: seq<Row>)
    requires LoadedParams(env, m, c, a).yearlyRates == RatesOf(source)
    ensures var l := LoadActivityNpv(env, m, c, a, resized);
      forall k :: 0 <= k < |resized| ==>
        if k < |source| then l.m.sheet.rows[k].revenue == source[k].revenue && l.m.sheet.rows[k].cost == source[k].cost
        else l.m.sheet.rows[k].revenue == resized[k].revenue && l.m.sheet.rows[k].cost == resized[k].cost
  {
    LoadActivityNpvRows(env, m, c, a, resized);
  }

  /** The first match is at `i` when `i` matches and nothing before it does. */
  lemma {:induction false} FirstMatchAt(ms: seq<ActivityNpv>, id: string, i: nat)
    requires i < |ms| && ActivityId(ms[i]) == id
    requires forall j :: 0 <= j < i ==> ActivityId(ms[j]) != id
    ensures FirstMatch(ms, id) == Some(i)
  {
  }
}
