/**
  The metrics builder's models (`gui/metrics_builder_model.py`): the
  name-unique list of metric columns, the metric-type rules of a table cell,
  and the row/column bookkeeping of the activity metric table.  Qt item
  models are sequences; an item's display text, icon and tooltip are left out.
*/
module MetricsBuilder {
  import opened Wrappers
  import opened Models

  /** A column definition: name, header label, column-wide expression. */
  datatype MetricColumn = MetricColumn(name: string, header: string, expression: string, autoCalculated: bool)

  /** `MetricColumnListItem.is_valid`: name and header are both set. */
  predicate IsValid(c: MetricColumn)
  {
    c.name != "" && c.header != ""
  }

  /** The column an item built from a bare name carries: the name doubles as header. */
  function ColumnFromName(name: string): (c: MetricColumn)
    ensures c.name == name && c.header == name && c.expression == ""
  {
    MetricColumn(name, name, "", false)
  }

  /** A column built from a bare name is valid exactly when the name is non-empty. */
  lemma NamedColumnValidity(name: string)
    ensures IsValid(ColumnFromName(name)) <==> |name| > 0
  {
  }

  // ---------------------------------------------------------------------
  // Metric column list (MetricColumnListModel)
  // ---------------------------------------------------------------------

  /** ASCII case folding of one character. */
  function LowerChar(ch: char): char
  {
    if 'A' <= ch <= 'Z' then (ch as int + 32) as char else ch
  }

  function FoldCase(s: string): (r: string)
    ensures |r| == |s|
    ensures forall i :: 0 <= i < |s| ==> r[i] == LowerChar(s[i])
  {
    seq(|s|, i requires 0 <= i < |s| => LowerChar(s[i]))
  }

  /** Qt's `MatchFixedString` comparison: equal up to letter case. */
  predicate SameName(a: string, b: string)
  {
    FoldCase(a) == FoldCase(b)
  }

  lemma SameNameReflexive(a: string)
    ensures SameName(a, a)
  {
  }

  /** No two columns of the list share a name, ignoring case. */
  predicate UniqueNames(cols: seq<MetricColumn>)
  {
    forall i, j :: 0 <= i < j < |cols| ==> !SameName(cols[i].name, cols[j].name)
  }

  /** `item_from_name`: the row of the first column whose name matches. */
  function ItemFromName(cols: seq<MetricColumn>, name: string): (r: Option<nat>)
    ensures r.Some? ==> r.value < |cols| && SameName(cols[r.value].name, name)
    ensures r.Some? ==> forall j :: 0 <= j < r.value ==> !SameName(cols[j].name, name)
    ensures r.None? ==> forall j :: 0 <= j < |cols| ==> !SameName(cols[j].name, name)
  {
    if cols == [] then None
    else if SameName(cols[0].name, name) then Some(0)
    else match ItemFromName(cols[1..], name)
      case None => None
      case Some(k) => Some(k + 1)
  }

  /** `add_column`: the added column, or `None` when its name is taken; and the list afterwards. */
  function AddColumn(cols: seq<MetricColumn>, column: MetricColumn): (r: (Option<MetricColumn>, seq<MetricColumn>))
    ensures r.0.None? <==> exists j :: 0 <= j < |cols| && SameName(cols[j].name, column.name)
    ensures r.0.None? ==> r.1 == cols
    ensures r.0.Some? ==> r.0.value == column && r.1 == cols + [column]
  {
    if ItemFromName(cols, column.name).Some? then (None, cols) else (Some(column), cols + [column])
  }

  /** The argument of `add_new_column`: a bare name or a full column. */
  datatype NameOrColumn = ByName(name: string) | ByColumn(column: MetricColumn)

  function ColumnOf(arg: NameOrColumn): MetricColumn
  {
    match arg
    case ByName(n) => ColumnFromName(n)
    case ByColumn(c) => c
  }

  /** `add_new_column`: whether the column was added, and the list afterwards. */
  function AddNewColumn(cols: seq<MetricColumn>, arg: NameOrColumn): (r: (bool, seq<MetricColumn>))
    ensures r.0 <==> forall j :: 0 <= j < |cols| ==> !SameName(cols[j].name, ColumnOf(arg).name)
    ensures r.1 == if r.0 then cols + [ColumnOf(arg)] else cols
  {
    var added := AddColumn(cols, ColumnOf(arg));
    (added.0.Some?, added.1)
  }

  /** Adding keeps the list's names unique. */
  lemma AddColumnKeepsNamesUnique(cols: seq<MetricColumn>, column: MetricColumn)
    requires UniqueNames(cols)
    ensures UniqueNames(AddColumn(cols, column).1)
  {
  }

  /** `remove_column`: whether a column was removed, and the list afterwards. */
  function RemoveListColumn(cols: seq<MetricColumn>, name: string): (r: (bool, seq<MetricColumn>))
    ensures !r.0 <==> forall j :: 0 <= j < |cols| ==> !SameName(cols[j].name, name)
    ensures !r.0 ==> r.1 == cols
    ensures r.0 ==> exists i :: (0 <= i < |cols| && SameName(cols[i].name, name)
      && (forall j :: 0 <= j < i ==> !SameName(cols[j].name, name))
      && r.1 == cols[..i] + cols[i + 1..])
  {
    match ItemFromName(cols, name)
    case None => (false, cols)
    case Some(i) => (true, cols[..i] + cols[i + 1..])
  }

  /** PyQt's `TypeError` for a signal emitted with an argument of the wrong type. */
  datatype SignalError = SignalTypeError

  /** `remove_column` as written: `column_removed` is declared with an `int`
      argument but is emitted with the removed item, which raises once the
      row is already gone.  `RemoveListColumn` is the version that emits the
      row number. */
  function RemoveListColumnAsWritten(cols: seq<MetricColumn>, name: string): (r: (Result<bool, SignalError>, seq<MetricColumn>))
    ensures r.1 == RemoveListColumn(cols, name).1
    ensures r.0 == if RemoveListColumn(cols, name).0 then Err(SignalTypeError) else Ok(false)
  {
    match ItemFromName(cols, name)
    case None => (Ok(false), cols)
    case Some(i) => (Err(SignalTypeError), cols[..i] + cols[i + 1..])
  }

  /** As written a removal never reports success: a matching column is
      removed from the list and the call then raises. */
  lemma RemoveListColumnNeverReturnsTrue(cols: seq<MetricColumn>, name: string, i: nat)
    requires i < |cols| && SameName(cols[i].name, name)
    ensures RemoveListColumnAsWritten(cols, name).0 == Err(SignalTypeError)
    ensures |RemoveListColumnAsWritten(cols, name).1| == |cols| - 1
  {
  }

  /** In a list with unique names, removing a name leaves no column matching
      it, and the names stay unique. */
  lemma RemoveListColumnDropsName(cols: seq<MetricColumn>, name: string)
    requires UniqueNames(cols)
    ensures var r := RemoveListColumn(cols, name);
      && UniqueNames(r.1)
      && forall j :: 0 <= j < |r.1| ==> !SameName(r.1[j].name, name)
  {
    var r := RemoveListColumn(cols, name);
    if r.0 {
      var i := ItemFromName(cols, name).value;
      assert r.1 == cols[..i] + cols[i + 1..];
      forall j | 0 <= j < |r.1|
        ensures !SameName(r.1[j].name, name)
      {
        if j < i {
          assert r.1[j] == cols[j];
        } else {
          assert r.1[j] == cols[j + 1];
          assert !SameName(cols[i].name, cols[j + 1].name);
        }
      }
      forall a, b | 0 <= a < b < |r.1|
        ensures !SameName(r.1[a].name, r.1[b].name)
      {
        var a', b' := if a < i then a else a + 1, if b < i then b else b + 1;
        assert r.1[a] == cols[a'] && r.1[b] == cols[b'];
      }
    }
  }

  datatype VerticalMoveDirection = Up | Down

  /** `s` with the entries at `i` and `j` exchanged. */
  function Swap<T>(s: seq<T>, i: nat, j: nat): (r: seq<T>)
    requires i < |s| && j < |s|
    ensures |r| == |s| && r[i] == s[j] && r[j] == s[i]
    ensures forall k :: 0 <= k < |s| && k != i && k != j ==> r[k] == s[k]
  {
    s[i := s[j]][j := s[i]]
  }

  lemma {:induction false} SwapPermutes<T>(s: seq<T>, i: nat, j: nat)
    requires i < |s| && j < |s|
    ensures multiset(Swap(s, i, j)) == multiset(s)
  {
    if i != j {
      calc {
        multiset(Swap(s, i, j));
        multiset(s[i := s[j]][j := s[i]]);
        multiset(s[i := s[j]]) - multiset{s[i := s[j]][j]} + multiset{s[i]};
        multiset(s) - multiset{s[i]} + multiset{s[j]} - multiset{s[j]} + multiset{s[i]};
      }
    }
  }

  /** Taking the entry at `i` out and inserting it at an adjacent `j` swaps the two. */
  lemma TakeInsertIsSwap<T>(s: seq<T>, i: nat, j: nat)
    requires i < |s| && j < |s| && (j == i + 1 || i == j + 1)
    ensures var taken := s[..i] + s[i + 1..]; taken[..j] + [s[i]] + taken[j..] == Swap(s, i, j)
  {
    var taken := s[..i] + s[i + 1..];
    var moved := taken[..j] + [s[i]] + taken[j..];
    assert |moved| == |s|;
    forall k | 0 <= k < |s|
      ensures moved[k] == Swap(s, i, j)[k]
    {
      if k < j {
        assert moved[k] == taken[k];
      } else if k > j {
        assert moved[k] == taken[k - 1];
      }
    }
  }

  /** `MetricColumnListModel.move_column`: the new row of the moved column
      (-1 when not moved), and the list afterwards. */
  function MoveListColumn(cols: seq<MetricColumn>, row: int, direction: VerticalMoveDirection): (r: (int, seq<MetricColumn>))
    ensures r.0 != -1 <==> (direction == Up && 1 <= row < |cols|) || (direction == Down && 0 <= row < |cols| - 1)
    ensures r.0 == -1 ==> r.1 == cols
    ensures r.0 != -1 ==> r.0 == (if direction == Up then row - 1 else row + 1)
    ensures r.0 != -1 ==> 0 <= r.0 < |cols| && r.1 == Swap(cols, row, r.0)
  {
    if direction == Up && row < 1 then (-1, cols)
    else if direction == Down && row >= |cols| - 1 then (-1, cols)
    // takeRow on a row past the end (or before the start) returns no items
    else if !(0 <= row < |cols|) then (-1, cols)
    else
      var newPosition: nat := if direction == Up then row - 1 else row + 1;
      assert direction == Up ==> 1 <= row;
      var taken := cols[..row] + cols[row + 1..];
      TakeInsertIsSwap(cols, row, newPosition);
      (newPosition as int, taken[..newPosition] + [cols[row]] + taken[newPosition..])
  }

  /** Moving a column up and then down again (or down then up) restores the
      list; a move permutes the list and keeps its names unique. */
  lemma MoveListColumnInverse(cols: seq<MetricColumn>, row: int, direction: VerticalMoveDirection)
    requires UniqueNames(cols)
    ensures var r := MoveListColumn(cols, row, direction);
      var back := if direction == Up then Down else Up;
      && multiset(r.1) == multiset(cols)
      && UniqueNames(r.1)
      && (r.0 != -1 ==> MoveListColumn(r.1, r.0, back) == (row, cols))
  {
    var r := MoveListColumn(cols, row, direction);
    if r.0 != -1 {
      SwapPermutes(cols, row, r.0);
      assert Swap(r.1, r.0, row) == cols;
      forall a, b | 0 <= a < b < |r.1|
        ensures !SameName(r.1[a].name, r.1[b].name)
      {
        var a' := if a == row then r.0 else if a == r.0 then row else a;
        var b' := if b == row then r.0 else if b == r.0 then row else b;
        assert r.1[a] == cols[a'] && r.1[b] == cols[b'];
        if a' > b' {
          assert !SameName(cols[b'].name, cols[a'].name);
        }
      }
    }
  }

  // ---------------------------------------------------------------------
  // Table cells (ActivityColumnMetricItem)
  // ---------------------------------------------------------------------

  datatype MetricType = NotSet | Column | Custom

  /** One activity's metric for one column. */
  datatype ActivityColumnMetric = ActivityColumnMetric(
    activity: Activity,
    metricColumn: MetricColumn,
    metricType: MetricType,
    expression: string)

  /** `update_metric_type`: the same type leaves the cell alone; a new type
      replaces both the type and the expression. */
  function UpdateMetricType(m: ActivityColumnMetric, metricType: MetricType, expression: string): (r: ActivityColumnMetric)
    ensures r.metricType == metricType
    ensures r.activity == m.activity && r.metricColumn == m.metricColumn
    ensures m.metricType == metricType ==> r == m
    ensures m.metricType != metricType ==> r.expression == expression
  {
    if m.metricType == metricType then m else m.(metricType := metricType, expression := expression)
  }

  /** Re-applying the same type is a no-op, whatever expression comes with it. */
  lemma UpdateMetricTypeIdempotent(m: ActivityColumnMetric, t: MetricType, e1: string, e2: string)
    ensures UpdateMetricType(UpdateMetricType(m, t, e1), t, e2) == UpdateMetricType(m, t, e1)
  {
  }

  /** `update_metric_model`: the cell takes the new column definition; an
      unset metric picks up a non-empty column expression, a column metric
      whose column lost its expression becomes unset, a custom metric keeps
      its type and expression. */
  function UpdateMetricModel(m: ActivityColumnMetric, model: MetricColumn): (r: ActivityColumnMetric)
    ensures r.metricColumn == model && r.activity == m.activity
    ensures m.metricType == Custom ==> r == m.(metricColumn := model)
    ensures m.metricType == NotSet && model.expression != "" ==> r.metricType == Column && r.expression == model.expression
    ensures m.metricType == Column && model.expression == "" ==> r.metricType == NotSet && r.expression == ""
    ensures (m.metricType == NotSet) == (model.expression == "") ==> r == m.(metricColumn := model)
  {
    if m.metricType == NotSet && model.expression != "" then
      m.(metricType := Column, expression := model.expression, metricColumn := model)
    else if m.metricType == Column && model.expression == "" then
      m.(metricType := NotSet, expression := "", metricColumn := model)
    else m.(metricColumn := model)
  }

  /** A non-custom cell is a column metric exactly when its column has an
      expression, and an unset cell has no expression of its own. */
  predicate TypeFollowsColumn(m: ActivityColumnMetric)
  {
    m.metricType != Custom ==>
      && (m.metricType == Column <==> m.metricColumn.expression != "")
      && (m.metricType == NotSet ==> m.expression == "")
  }

  /** Whatever state a non-custom cell was in, updating its column definition
      leaves its type following the new column; updating twice with the same
      definition is the same as once. */
  lemma UpdateMetricModelAligns(m: ActivityColumnMetric, model: MetricColumn)
    requires m.metricType != NotSet || m.expression == ""
    ensures TypeFollowsColumn(UpdateMetricModel(m, model))
    ensures UpdateMetricModel(UpdateMetricModel(m, model), model) == UpdateMetricModel(m, model)
  {
  }

  /** A column metric whose column changes to another non-empty expression
      keeps its previous expression. */
  lemma ColumnMetricKeepsOwnExpression(m: ActivityColumnMetric, model: MetricColumn)
    requires m.metricType == Column && model.expression != ""
    ensures UpdateMetricModel(m, model).expression == m.expression
  {
  }

  // ---------------------------------------------------------------------
  // Activity metric table (ActivityMetricTableModel)
  // ---------------------------------------------------------------------

  /** A table cell: the activity name in column 0, a metric elsewhere. */
  datatype Cell = NameCell(activity: Activity) | MetricCell(metric: ActivityColumnMetric)

  /** The grid: header labels, rows of cells, and the metric columns the
      model keeps alongside (`_metric_columns`). */
  datatype Table = Table(headers: seq<string>, rows: seq<seq<Cell>>, metricColumns: seq<MetricColumn>)

  /** Shape: one header per metric column plus the name column, every row as
      wide as the header, the name cell first and metric cells after it. */
  predicate WellFormed(t: Table)
  {
    && |t.headers| == |t.metricColumns| + 1
    && forall r :: 0 <= r < |t.rows| ==>
      && |t.rows[r]| == |t.headers|
      && t.rows[r][0].NameCell?
      && forall j :: 1 <= j < |t.rows[r]| ==> t.rows[r][j].MetricCell?
  }

  /** Column `j + 1` shows metric column `j`: its header label, and in every
      row a metric of that column for the row's activity, typed by its column. */
  predicate Aligned(t: Table)
    requires WellFormed(t)
  {
    forall j :: 0 <= j < |t.metricColumns| ==> ColumnAligned(t, j)
  }

  predicate ColumnAligned(t: Table, j: nat)
    requires WellFormed(t) && j < |t.metricColumns|
  {
    && t.headers[j + 1] == t.metricColumns[j].header
    && forall r :: 0 <= r < |t.rows| ==>
      && t.rows[r][j + 1].metric.metricColumn == t.metricColumns[j]
      && t.rows[r][j + 1].metric.activity == t.rows[r][0].activity
      && TypeFollowsColumn(t.rows[r][j + 1].metric)
  }

  /** `ActivityMetricTableModel(parent, columns)`: one grid column headed by
      the activity name (`nameHeader`, the translated label), no rows, and
      `_metric_columns` set to `columns` when they are given.  The grid gets
      no column for them, so the new table is well formed exactly when no
      metric column is passed, and it is then aligned. */
  function NewTable(nameHeader: string, columns: Option<seq<MetricColumn>>): (t: Table)
    ensures t.headers == [nameHeader] && t.rows == [] && t.metricColumns == columns.GetOr([])
    ensures WellFormed(t) <==> columns.None? || columns.value == []
    ensures WellFormed(t) ==> Aligned(t)
  {
    Table([nameHeader], [], columns.GetOr([]))
  }

  /** Column `j` of `t'` is aligned when it is a copy of an aligned column
      `j'` of `t` over the same rows. */
  lemma ColumnCarriesOver(t: Table, t': Table, j: nat, j': nat)
    requires WellFormed(t) && WellFormed(t')
    requires j < |t'.metricColumns| && j' < |t.metricColumns| && ColumnAligned(t, j')
    requires t'.metricColumns[j] == t.metricColumns[j'] && t'.headers[j + 1] == t.headers[j' + 1]
    requires |t'.rows| == |t.rows|
    requires forall k :: 0 <= k < |t.rows| ==> t'.rows[k][j + 1] == t.rows[k][j' + 1] && t'.rows[k][0] == t.rows[k][0]
    ensures ColumnAligned(t', j)
  {
  }

  /** `activities`: the activity of each row, in row order. */
  function Activities(t: Table): (acts: seq<Activity>)
    requires WellFormed(t)
    ensures |acts| == |t.rows|
    ensures forall r :: 0 <= r < |t.rows| ==> acts[r] == t.rows[r][0].activity
  {
    seq(|t.rows|, r requires 0 <= r < |t.rows| && WellFormed(t) => t.rows[r][0].activity)
  }

  /** No two rows hold activities with the same uuid. */
  predicate UniqueActivities(t: Table)
    requires WellFormed(t)
  {
    forall a, b :: 0 <= a < b < |t.rows| ==> t.rows[a][0].activity.uuid != t.rows[b][0].activity.uuid
  }

  /** The metric a new cell gets for `column`: a column metric when the column
      has an expression, otherwise unset. */
  function NewMetric(activity: Activity, column: MetricColumn): (m: ActivityColumnMetric)
    ensures m.activity == activity && m.metricColumn == column && m.metricType != Custom
    ensures TypeFollowsColumn(m)
  {
    ActivityColumnMetric(activity, column, if column.expression != "" then Column else NotSet, column.expression)
  }

  /** `append_column`: a new last column with the header label, one fresh
      metric per row, and the column recorded in `metric_columns`. */
  function AppendColumn(t: Table, column: MetricColumn): (t': Table)
    requires WellFormed(t)
    ensures WellFormed(t')
    ensures t'.headers == t.headers + [column.header]
    ensures t'.metricColumns == t.metricColumns + [column]
    ensures |t'.rows| == |t.rows|
    ensures forall r :: 0 <= r < |t.rows| ==>
      t'.rows[r] == t.rows[r] + [MetricCell(NewMetric(t.rows[r][0].activity, column))]
  {
    var rows := seq(|t.rows|, r requires 0 <= r < |t.rows| && WellFormed(t) =>
      t.rows[r] + [MetricCell(NewMetric(t.rows[r][0].activity, column))]);
    Table(t.headers + [column.header], rows, t.metricColumns + [column])
  }

  lemma AppendColumnPreservesAlignment(t: Table, column: MetricColumn)
    requires WellFormed(t) && Aligned(t)
    ensures Aligned(AppendColumn(t, column))
  {
    var t' := AppendColumn(t, column);
    forall j | 0 <= j < |t'.metricColumns|
      ensures ColumnAligned(t', j)
    {
      if j < |t.metricColumns| {
        ColumnCarriesOver(t, t', j, j);
      }
    }
  }

  /** The failures of the table's index-based calls. */
  datatype TableError = IndexError

  /** `s` without its entry at `i`. */
  function RemoveAt<T>(s: seq<T>, i: nat): (r: seq<T>)
    requires i < |s|
    ensures |r| == |s| - 1
    ensures forall k :: 0 <= k < i ==> r[k] == s[k]
    ensures forall k :: i <= k < |r| ==> r[k] == s[k + 1]
  {
    s[..i] + s[i + 1..]
  }

  /** `remove_column(index)`: -1 is refused; a metric column index removes
      grid column `index + 1` and the metric column.  A negative index other
      than -1 is not a grid column, so `removeColumns` fails, yet Python's
      `del` still removes a metric column counted from the end; an index past
      the end raises. */
  function RemoveTableColumn(t: Table, index: int): (r: Result<(bool, Table), TableError>)
    requires WellFormed(t)
    ensures r.Err? <==> index != -1 && (index < -|t.metricColumns| || index >= |t.metricColumns|)
    ensures index == -1 ==> r == Ok((false, t))
    ensures 0 <= index < |t.metricColumns| ==> (r.Ok? && r.value.0
      && r.value.1.headers == RemoveAt(t.headers, index + 1)
      && r.value.1.metricColumns == RemoveAt(t.metricColumns, index)
      && |r.value.1.rows| == |t.rows|
      && forall k :: 0 <= k < |t.rows| ==> r.value.1.rows[k] == RemoveAt(t.rows[k], index + 1))
    ensures -|t.metricColumns| <= index < -1 ==>
      r == Ok((false, t.(metricColumns := RemoveAt(t.metricColumns, |t.metricColumns| + index))))
  {
    if index == -1 then Ok((false, t))
    else if 0 <= index < |t.metricColumns| then
      var rows := seq(|t.rows|, k requires 0 <= k < |t.rows| && WellFormed(t) => RemoveAt(t.rows[k], index + 1));
      Ok((true, Table(RemoveAt(t.headers, index + 1), rows, RemoveAt(t.metricColumns, index))))
    else if -|t.metricColumns| <= index < -1 then
      Ok((false, t.(metricColumns := RemoveAt(t.metricColumns, |t.metricColumns| + index))))
    else Err(IndexError)
  }

  /** Removing a metric column by its index keeps the table well formed and aligned. */
  lemma RemoveTableColumnPreservesAlignment(t: Table, index: int)
    requires WellFormed(t) && Aligned(t)
    requires 0 <= index < |t.metricColumns|
    ensures var r := RemoveTableColumn(t, index);
      r.Ok? && WellFormed(r.value.1) && Aligned(r.value.1)
  {
    var t' := RemoveTableColumn(t, index).value.1;
    assert WellFormed(t');
    forall j | 0 <= j < |t'.metricColumns|
      ensures ColumnAligned(t', j)
    {
      var j' := if j < index then j else j + 1;
      ColumnCarriesOver(t, t', j, j');
    }
  }

  /** `update_column_properties(index, column)`: refused for the name column
      and past the last column; otherwise the header label, the recorded
      metric column and every cell of that column take the new definition.
      A negative index below -1 is not a grid column, so only the recorded
      metric column counted from the end is replaced, or Python raises.  The
      call's own return value (False when refused, None otherwise) is falsy
      either way and is not modelled. */
  function UpdateColumnProperties(t: Table, index: int, column: MetricColumn): (r: Result<Table, TableError>)
    requires WellFormed(t)
    ensures index == -1 || index >= |t.metricColumns| ==> r == Ok(t)
    ensures 0 <= index < |t.metricColumns| ==> (r.Ok?
      && r.value.headers == t.headers[index + 1 := column.header]
      && r.value.metricColumns == t.metricColumns[index := column]
      && |r.value.rows| == |t.rows|
      && forall k :: 0 <= k < |t.rows| ==>
        r.value.rows[k] == t.rows[k][index + 1 := MetricCell(UpdateMetricModel(t.rows[k][index + 1].metric, column))])
    ensures index < -|t.metricColumns| && index != -1 ==> r == Err(IndexError)
    ensures -|t.metricColumns| <= index < -1 ==>
      r == Ok(t.(metricColumns := t.metricColumns[|t.metricColumns| + index := column]))
  {
    var modelIndex := index + 1;
    if modelIndex == 0 || modelIndex >= |t.headers| then Ok(t)
    else if index < -|t.metricColumns| then Err(IndexError)
    else if index < 0 then Ok(t.(metricColumns := t.metricColumns[|t.metricColumns| + index := column]))
    else
      var rows := seq(|t.rows|, k requires 0 <= k < |t.rows| && WellFormed(t) =>
        t.rows[k][modelIndex := MetricCell(UpdateMetricModel(t.rows[k][modelIndex].metric, column))]);
      Ok(Table(t.headers[modelIndex := column.header], rows, t.metricColumns[index := column]))
  }

  /** Updating a metric column in place keeps the table well formed and
      aligned, provided the table's unset cells carry no expression. */
  lemma UpdateColumnPropertiesPreservesAlignment(t: Table, index: int, column: MetricColumn)
    requires WellFormed(t) && Aligned(t)
    requires 0 <= index < |t.metricColumns|
    ensures var r := UpdateColumnProperties(t, index, column);
      r.Ok? && WellFormed(r.value) && Aligned(r.value)
  {
    var t' := UpdateColumnProperties(t, index, column).value;
    assert WellFormed(t');
    forall j | 0 <= j < |t'.metricColumns|
      ensures ColumnAligned(t', j)
    {
      if j != index {
        ColumnCarriesOver(t, t', j, j);
      } else {
        assert ColumnAligned(t, j);
        forall k | 0 <= k < |t'.rows|
          ensures t'.rows[k][j + 1].metric.metricColumn == t'.metricColumns[j]
          ensures t'.rows[k][j + 1].metric.activity == t'.rows[k][0].activity
          ensures TypeFollowsColumn(t'.rows[k][j + 1].metric)
        {
          var m := t.rows[k][j + 1].metric;
          assert t'.rows[k][j + 1] == MetricCell(UpdateMetricModel(m, column));
          assert t'.rows[k][0] == t.rows[k][0];
          assert TypeFollowsColumn(m);
          UpdateMetricModelAligns(m, column);
        }
      }
    }
  }

  /** Some row of the table already holds an activity with this uuid. */
  predicate HasActivity(t: Table, uuid: string)
    requires WellFormed(t)
  {
    exists k :: 0 <= k < |t.rows| && t.rows[k][0].activity.uuid == uuid
  }

  /** The row appended for a new activity: its name cell, then one fresh
      metric per recorded metric column. */
  function NewRow(t: Table, activity: Activity): (row: seq<Cell>)
    ensures |row| == 1 + |t.metricColumns|
    ensures row[0] == NameCell(activity)
    ensures forall j :: 0 <= j < |t.metricColumns| ==> row[j + 1] == MetricCell(NewMetric(activity, t.metricColumns[j]))
  {
    [NameCell(activity)] + seq(|t.metricColumns|, j requires 0 <= j < |t.metricColumns| =>
      MetricCell(NewMetric(activity, t.metricColumns[j])))
  }

  /** `append_activity`: refused when a row already holds an activity with
      the same uuid; otherwise a new last row with the name cell followed by
      one fresh metric per recorded metric column. */
  function AppendActivity(t: Table, activity: Activity): (r: (bool, Table))
    requires WellFormed(t)
    ensures !r.0 <==> HasActivity(t, activity.uuid)
    ensures !r.0 ==> r.1 == t
    ensures r.0 ==> r.1 == t.(rows := t.rows + [NewRow(t, activity)])
  {
    if HasActivity(t, activity.uuid) then (false, t)
    else (true, t.(rows := t.rows + [NewRow(t, activity)]))
  }

  /** The activity list grows by the appended activity exactly when it is
      accepted, and is unchanged otherwise. */
  lemma AppendActivityExtendsActivities(t: Table, activity: Activity)
    requires WellFormed(t)
    ensures var r := AppendActivity(t, activity);
      && WellFormed(r.1)
      && Activities(r.1) == if r.0 then Activities(t) + [activity] else Activities(t)
  {
    var r := AppendActivity(t, activity);
    if r.0 {
      assert forall k :: 0 <= k < |t.rows| ==> r.1.rows[k] == t.rows[k];
      assert WellFormed(r.1);
      assert r.1.rows[|t.rows|][0] == NameCell(activity);
    }
  }

  /** A uuid is taken exactly when one of the listed activities has it. */
  lemma HasActivityIffListed(t: Table, uuid: string)
    requires WellFormed(t)
    ensures HasActivity(t, uuid) <==> exists k :: 0 <= k < |Activities(t)| && Activities(t)[k].uuid == uuid
  {
    if HasActivity(t, uuid) {
      var k :| 0 <= k < |t.rows| && t.rows[k][0].activity.uuid == uuid;
      assert Activities(t)[k].uuid == uuid;
    }
  }

  /** Appending is idempotent: once an activity is in the table (appended
      now or before), appending it again is refused and changes nothing. */
  lemma AppendActivityTwiceRefused(t: Table, activity: Activity)
    requires WellFormed(t)
    ensures var r := AppendActivity(t, activity);
      WellFormed(r.1) && !AppendActivity(r.1, activity).0 && AppendActivity(r.1, activity).1 == r.1
  {
    var r := AppendActivity(t, activity);
    if r.0 {
      assert forall k :: 0 <= k < |t.rows| ==> r.1.rows[k] == t.rows[k];
      assert WellFormed(r.1);
      assert r.1.rows[|t.rows|][0].activity.uuid == activity.uuid;
    }
  }

  /** Appending an activity keeps the table well formed, aligned and free of
      duplicate activities. */
  lemma AppendActivityPreservesAlignment(t: Table, activity: Activity)
    requires WellFormed(t) && Aligned(t) && UniqueActivities(t)
    ensures var r := AppendActivity(t, activity);
      WellFormed(r.1) && Aligned(r.1) && UniqueActivities(r.1)
  {
    var r := AppendActivity(t, activity);
    if r.0 {
      var t' := r.1;
      assert forall k :: 0 <= k < |t.rows| ==> t'.rows[k] == t.rows[k];
      assert WellFormed(t');
      forall j | 0 <= j < |t'.metricColumns|
        ensures ColumnAligned(t', j)
      {
        assert ColumnAligned(t, j);
      }
    }
  }

  // ---------------------------------------------------------------------
  // Moving table columns
  // ---------------------------------------------------------------------

  datatype HorizontalMoveDirection = Left | Right

  /** Every row of the grid with its cells at `i` and `j` exchanged. */
  function SwapCells(rows: seq<seq<Cell>>, i: nat, j: nat, width: nat): (r: seq<seq<Cell>>)
    requires i < width && j < width
    requires forall k :: 0 <= k < |rows| ==> |rows[k]| == width
    ensures |r| == |rows|
    ensures forall k :: 0 <= k < |rows| ==> r[k] == Swap(rows[k], i, j)
  {
    seq(|rows|, k requires 0 <= k < |rows| && (forall k :: 0 <= k < |rows| ==> |rows[k]| == width) => Swap(rows[k], i, j))
  }

  /** `ActivityMetricTableModel.move_column` as written: LEFT is refused at
      index 1 or below and RIGHT at the last column; otherwise the header and
      the cells of the column trade places with their neighbour, while the
      recorded metric columns keep their order.  RIGHT from index 0 is not
      refused and moves the activity-name column. */
  function MoveTableColumn(t: Table, current: nat, direction: HorizontalMoveDirection): (r: (int, Table))
    requires WellFormed(t) && current < |t.headers|
    ensures r.0 == -1 <==> (direction == Left && current <= 1) || (direction == Right && current >= |t.headers| - 1)
    ensures r.0 == -1 ==> r.1 == t
    ensures r.0 != -1 ==> r.0 == (if direction == Left then current - 1 else current + 1)
    ensures r.0 != -1 ==> (0 <= r.0 < |t.headers|
      && r.1 == Table(Swap(t.headers, current, r.0), SwapCells(t.rows, current, r.0, |t.headers|), t.metricColumns))
  {
    if current <= 1 && direction == Left then (-1, t)
    else if current >= |t.headers| - 1 && direction == Right then (-1, t)
    else
      var newIndex: nat := if direction == Left then current - 1 else current + 1;
      assert direction == Right ==> current < |t.headers| - 1;
      (newIndex as int, Table(Swap(t.headers, current, newIndex), SwapCells(t.rows, current, newIndex, |t.headers|), t.metricColumns))
  }

  /** The move as evidently intended: the name column never moves (RIGHT is
      refused from index 0 as LEFT is refused into it) and the recorded
      metric columns are reordered along with the grid. */
  function MoveTableColumnIntended(t: Table, current: nat, direction: HorizontalMoveDirection): (r: (int, Table))
    requires WellFormed(t) && current < |t.headers|
    ensures r.0 == -1 <==> current == 0 || (direction == Left && current == 1) || (direction == Right && current == |t.headers| - 1)
    ensures r.0 == -1 ==> r.1 == t
    ensures r.0 != -1 ==> (1 <= r.0 < |t.headers|
      && r.1 == Table(Swap(t.headers, current, r.0), SwapCells(t.rows, current, r.0, |t.headers|),
                      Swap(t.metricColumns, current - 1, r.0 - 1)))
  {
    if current <= 1 && direction == Left then (-1, t)
    else if current >= |t.headers| - 1 && direction == Right then (-1, t)
    else if current == 0 then (-1, t)
    else
      var newIndex: nat := if direction == Left then current - 1 else current + 1;
      assert direction == Right ==> current < |t.headers| - 1;
      (newIndex as int, Table(Swap(t.headers, current, newIndex), SwapCells(t.rows, current, newIndex, |t.headers|),
                       Swap(t.metricColumns, current - 1, newIndex - 1)))
  }

  /** The intended move keeps the table well formed and aligned. */
  lemma MoveTableColumnIntendedPreservesAlignment(t: Table, current: nat, direction: HorizontalMoveDirection)
    requires WellFormed(t) && Aligned(t) && current < |t.headers|
    ensures var r := MoveTableColumnIntended(t, current, direction);
      WellFormed(r.1) && Aligned(r.1)
  {
    var r := MoveTableColumnIntended(t, current, direction);
    if r.0 != -1 {
      var t', n := r.1, r.0;
      assert WellFormed(t');
      forall j | 0 <= j < |t'.metricColumns|
        ensures ColumnAligned(t', j)
      {
        var j' := if j + 1 == current then n - 1 else if j + 1 == n then current - 1 else j;
        ColumnCarriesOver(t, t', j, j');
      }
    }
  }

  /** Moving a column with the intended move and then back restores the table. */
  lemma MoveTableColumnIntendedInverse(t: Table, current: nat, direction: HorizontalMoveDirection)
    requires WellFormed(t) && current < |t.headers|
    ensures var r := MoveTableColumnIntended(t, current, direction);
      var back := if direction == Left then Right else Left;
      r.0 != -1 ==> MoveTableColumnIntended(r.1, r.0, back) == (current, t)
  {
    var r := MoveTableColumnIntended(t, current, direction);
    if r.0 != -1 {
      var t', n := r.1, r.0;
      var back := if direction == Left then Right else Left;
      assert Swap(t'.headers, n, current) == t.headers;
      assert Swap(t'.metricColumns, n - 1, current - 1) == t.metricColumns;
      assert SwapCells(t'.rows, n, current, |t'.headers|) == t.rows by {
        forall k | 0 <= k < |t.rows|
          ensures Swap(t'.rows[k], n, current) == t.rows[k]
        {
        }
      }
    }
  }

  /** A one-activity table with metric columns `a` and `b`. */
  function TwoColumnTable(activity: Activity, a: MetricColumn, b: MetricColumn): Table
  {
    Table(["Activity", a.header, b.header],
          [[NameCell(activity), MetricCell(NewMetric(activity, a)), MetricCell(NewMetric(activity, b))]],
          [a, b])
  }

  /** As written, moving the first metric column right leaves the grid
      showing `b, a` while `metric_columns` still reads `a, b`: the table is no
      longer aligned, and a row appended afterwards puts `a`'s metric under
      `b`'s header.  Moving the name column right from index 0 is accepted
      and leaves a metric cell in column 0. */
  lemma MoveTableColumnMisaligns(x: Activity, y: Activity, a: MetricColumn, b: MetricColumn)
    requires a.header != b.header && x.uuid != y.uuid
    ensures var t := TwoColumnTable(x, a, b);
      var moved := MoveTableColumn(t, 1, Right);
      var appended := AppendActivity(moved.1, y);
      && WellFormed(t) && Aligned(t)
      && moved.0 == 2 && WellFormed(moved.1) && !Aligned(moved.1)
      && appended.0
      && appended.1.headers[1] == b.header
      && appended.1.rows[1][1] == MetricCell(NewMetric(y, a))
      && MoveTableColumn(t, 0, Right).0 == 1
      && !WellFormed(MoveTableColumn(t, 0, Right).1)
  {
    var t := TwoColumnTable(x, a, b);
    var moved := MoveTableColumn(t, 1, Right);
    assert moved.1.headers[1] == b.header;
    assert moved.1.metricColumns[0] == a;
    assert moved.1.rows[0] == Swap(t.rows[0], 1, 2);
    assert WellFormed(moved.1);
    assert !ColumnAligned(moved.1, 0);
    var wrong := MoveTableColumn(t, 0, Right);
    assert wrong.1.rows[0] == Swap(t.rows[0], 0, 1);
    assert !wrong.1.rows[0][0].NameCell?;
  }
}
