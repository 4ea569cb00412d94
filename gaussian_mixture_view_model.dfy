/** The data handling of InferNetHOL.Clustering/Models/GaussianMixtureViewModel.cs:
    the scatter plot of two chosen columns behind the change-only chart-field
    setters, the selected-column indices, and the projection of the data on
    the selected columns that `ExecuteInferCommand` hands to inference. Data
    rows (`Vector`) are sequences of opaque values. */
module GaussianMixtureViewModels {
  import opened Wrappers
  import opened Sequences
  import opened Charting
  import opened Notifications

  /** `DatasetColumn`: a column name and whether it is selected. */
  datatype DatasetColumn = DatasetColumn(Name: string, Selected: bool)

  predicate IsSelected(c: DatasetColumn) {
    c.Selected
  }

  /** `GetSelectedColumnIndices(list)`: the indices of the selected columns,
      by `IndicesWhere` increasing, each below `list.Count`, and by
      `IndicesWhereMembership` exactly those of selected columns. */
  method GetSelectedColumnIndices(list: seq<DatasetColumn>) returns (r: seq<nat>)
    ensures r == IndicesWhere(list, IsSelected)
  {
    r := [];
    var i := 0;
    while i < |list|
      invariant 0 <= i <= |list|
      invariant r == IndicesWhere(list[..i], IsSelected)
    {
      IndicesWhereSnoc(list, IsSelected, i);
      if list[i].Selected {
        r := r + [i];
      }
      i := i + 1;
    }
    assert list[..i] == list;
  }

  /** `fields.IndexOf(item)`: the first position of `item`, or -1. Column
      names are never null, so a null item is found nowhere. */
  function IndexOf(fields: seq<string>, item: Option<string>): (k: int)
    ensures -1 <= k < |fields|
    ensures k >= 0 ==> item.Some? && fields[k] == item.value
    ensures k >= 0 ==> forall j :: 0 <= j < k ==> fields[j] != item.value
    ensures k == -1 <==> item.None? || item.value !in fields
  {
    if item.None? || |fields| == 0 then -1
    else if fields[0] == item.value then 0
    else
      var k := IndexOf(fields[1..], item);
      assert fields == [fields[0]] + fields[1..];
      if k == -1 then -1 else k + 1
  }

  /** Line 81: the point `(d[rowIndex], d[columnIndex])` of every data row,
      in order. `ToArray()` evaluates them all, and a row too short for
      either index throws. */
  function Points<E>(data: seq<seq<E>>, rowIndex: nat, columnIndex: nat): (r: Result<seq<(E, E)>>)
    ensures r.Failure? <==> exists k :: 0 <= k < |data| && (rowIndex >= |data[k]| || columnIndex >= |data[k]|)
    ensures r.Failure? ==> r.error == IndexOutOfRange
    ensures r.Success? ==> |r.value| == |data|
    ensures r.Success? ==> forall k :: 0 <= k < |data| ==> r.value[k] == (data[k][rowIndex], data[k][columnIndex])
  {
    if |data| == 0 then Success([])
    else if rowIndex >= |data[0]| || columnIndex >= |data[0]| then Failure(IndexOutOfRange)
    else
      var rest := Points(data[1..], rowIndex, columnIndex);
      assert forall k :: 1 <= k < |data| ==> data[k] == data[1..][k - 1];
      match rest
      case Failure(e) => Failure(e)
      case Success(ps) => Success([(data[0][rowIndex], data[0][columnIndex])] + ps)
  }

  /** What `DisplayPlot` leads to: nothing (`None`) when either chart field is
      not a column name, otherwise the scatter series labelled "data", or the
      exception of building it. */
  function Plot<E>(fields: seq<string>, rowField: Option<string>, columnField: Option<string>, data: seq<seq<E>>)
    : (r: Option<Result<LabelledSeries<(E, E)>>>)
    ensures r.None? <==> IndexOf(fields, rowField) == -1 || IndexOf(fields, columnField) == -1
    ensures r.Some? ==> (r.value.Failure? <==> Points(data, IndexOf(fields, rowField), IndexOf(fields, columnField)).Failure?)
    ensures r.Some? && r.value.Success? ==>
      r.value.value == LabelledSeries("data", Points(data, IndexOf(fields, rowField), IndexOf(fields, columnField)).value, true)
  {
    var rowIndex := IndexOf(fields, rowField);
    var columnIndex := IndexOf(fields, columnField);
    if rowIndex == -1 || columnIndex == -1 then None
    else
      match Points(data, rowIndex, columnIndex)
      case Failure(e) => Some(Failure(e))
      case Success(ps) => Some(Success(LabelledSeries("data", ps, true)))
  }

  /** A plotted series has one point per data row, made of the values in the
      two chosen columns. */
  lemma PlotPoints<E>(fields: seq<string>, rowField: string, columnField: string, data: seq<seq<E>>, k: nat)
    requires rowField in fields && columnField in fields
    requires var p := Plot(fields, Some(rowField), Some(columnField), data); p.Some? && p.value.Success?
    requires k < |data|
    ensures var s := Plot(fields, Some(rowField), Some(columnField), data).value.value;
      |s.Series| == |data| && s.IsScatter && s.Label == "data" &&
      exists ri, ci :: 0 <= ri < |fields| && 0 <= ci < |fields| && fields[ri] == rowField && fields[ci] == columnField &&
        ri < |data[k]| && ci < |data[k]| && s.Series[k] == (data[k][ri], data[k][ci])
  {
    var ri := IndexOf(fields, Some(rowField));
    var ci := IndexOf(fields, Some(columnField));
    var ps := Points(data, ri, ci);
    assert ps.Success?;
    assert ri < |data[k]| && ci < |data[k]|;
    assert fields[ri] == rowField && fields[ci] == columnField;
  }

  /** The series, the notification log and the outcome after `DisplayPlot`,
      given what `Plot` says it leads to. */
  function PlotEffect<E>(p: Option<Result<LabelledSeries<(E, E)>>>, series: Option<seq<LabelledSeries<(E, E)>>>, log: seq<string>)
    : (Option<seq<LabelledSeries<(E, E)>>>, seq<string>, Outcome)
  {
    match p
    case None => (series, log, Pass)
    case Some(Failure(e)) => (series, log, Fail(e))
    case Some(Success(s)) => (Some([s]), log + ["Series"], Pass)
  }

  class GaussianMixtureViewModel<E> {
    var chartRowField: Option<string>
    var chartColumnField: Option<string>
    /** The names of the columns of the selected data set. */
    var ChartFields: seq<string>
    var SourceColumns: seq<DatasetColumn>
    /** The loaded rows of the selected data set. */
    var data: seq<seq<E>>
    /** `null` until a series is drawn. */
    var Series: Option<seq<LabelledSeries<(E, E)>>>
    /** The `PropertyChanged` notifications raised, in order. */
    var Notified: seq<string>

    /** A view model over a loaded data set, before any chart field is set. */
    constructor (columns: seq<DatasetColumn>, rows: seq<seq<E>>)
      ensures SourceColumns == columns && data == rows
      ensures ChartFields == seq(|columns|, i requires 0 <= i < |columns| => columns[i].Name)
      ensures chartRowField == None && chartColumnField == None
      ensures Series == None && Notified == []
    {
      SourceColumns := columns;
      ChartFields := seq(|columns|, i requires 0 <= i < |columns| => columns[i].Name);
      data := rows;
      chartRowField, chartColumnField := None, None;
      Series := None;
      Notified := [];
    }

    /** `DisplayPlot()`: replaces `Series` by the one scatter series of the
        two chart fields and notifies "Series"; leaves everything as it is
        when either field is not a column name, or when a row is too short. */
    method DisplayPlot() returns (outcome: Outcome)
      modifies this`Series, this`Notified
      ensures (Series, Notified, outcome) == PlotEffect(Plot(ChartFields, chartRowField, chartColumnField, data), old(Series), old(Notified))
    {
      var rowIndex := IndexOf(ChartFields, chartRowField);
      var columnIndex := IndexOf(ChartFields, chartColumnField);
      if rowIndex == -1 || columnIndex == -1 {
        return Pass;
      }
      var points := Points(data, rowIndex, columnIndex);
      if points.Failure? {
        return Fail(points.error);
      }
      Series := Some([LabelledSeries("data", points.value, true)]);
      Notified := Notified + ["Series"];
      return Pass;
    }

    /** The `ChartRowField` setter: on a new value, store it, notify, and
        redraw; on the current value, nothing happens. */
    method SetChartRowField(value: Option<string>) returns (outcome: Outcome)
      modifies this`chartRowField, this`Series, this`Notified
      ensures var (v, log) := ChangeOnly(old(chartRowField), value, old(Notified), "ChartRowField");
        chartRowField == v &&
        (old(chartRowField) == value ==> Series == old(Series) && Notified == log && outcome == Pass) &&
        (old(chartRowField) != value ==> (Series, Notified, outcome) == PlotEffect(Plot(ChartFields, v, chartColumnField, data), old(Series), log))
    {
      if chartRowField != value {
        chartRowField := value;
        Notified := Notified + ["ChartRowField"];
        outcome := DisplayPlot();
      } else {
        outcome := Pass;
      }
    }

    /** The `ChartColumnField` setter, likewise. */
    method SetChartColumnField(value: Option<string>) returns (outcome: Outcome)
      modifies this`chartColumnField, this`Series, this`Notified
      ensures var (v, log) := ChangeOnly(old(chartColumnField), value, old(Notified), "ChartColumnField");
        chartColumnField == v &&
        (old(chartColumnField) == value ==> Series == old(Series) && Notified == log && outcome == Pass) &&
        (old(chartColumnField) != value ==> (Series, Notified, outcome) == PlotEffect(Plot(ChartFields, chartRowField, v, data), old(Series), log))
    {
      if chartColumnField != value {
        chartColumnField := value;
        Notified := Notified + ["ChartColumnField"];
        outcome := DisplayPlot();
      } else {
        outcome := Pass;
      }
    }
  }

  /** `indices.Select(i => v[i]).ToArray()` of line 167: the entries of one
      row at `indices`, in their order; an index past the end throws. */
  function SelectEntries<E>(row: seq<E>, indices: seq<nat>): (r: Result<seq<E>>)
    ensures r.Failure? <==> exists j :: 0 <= j < |indices| && indices[j] >= |row|
    ensures r.Failure? ==> r.error == IndexOutOfRange
    ensures r.Success? ==> |r.value| == |indices|
    ensures r.Success? ==> forall j :: 0 <= j < |indices| ==> r.value[j] == row[indices[j]]
  {
    if |indices| == 0 then Success([])
    else if indices[0] >= |row| then Failure(IndexOutOfRange)
    else
      var rest := SelectEntries(row, indices[1..]);
      assert forall j :: 1 <= j < |indices| ==> indices[j] == indices[1..][j - 1];
      match rest
      case Failure(e) => Failure(e)
      case Success(es) => Success([row[indices[0]]] + es)
  }

  /** Line 167: every row, in order, reduced to its entries at `indices`;
      the first row too short for an index throws. */
  function SelectColumns<E>(source: seq<seq<E>>, indices: seq<nat>): (r: Result<seq<seq<E>>>)
    ensures r.Failure? <==> exists k, j :: 0 <= k < |source| && 0 <= j < |indices| && indices[j] >= |source[k]|
    ensures r.Failure? ==> r.error == IndexOutOfRange
    ensures r.Success? ==> |r.value| == |source|
    ensures r.Success? ==> forall k :: 0 <= k < |source| ==> |r.value[k]| == |indices|
    ensures r.Success? ==> forall k, j :: 0 <= k < |source| && 0 <= j < |indices| ==> r.value[k][j] == source[k][indices[j]]
  {
    if |source| == 0 then Success([])
    else
      var rest := SelectColumns(source[1..], indices);
      assert forall k :: 1 <= k < |source| ==> source[k] == source[1..][k - 1];
      match SelectEntries(source[0], indices)
      case Failure(e) => Failure(e)
      case Success(row) =>
        match rest
        case Failure(e) => Failure(e)
        case Success(rows) => Success([row] + rows)
  }

  /** Lines 165-167: the inference input, each row reduced to its selected
      columns in increasing index order. It fails iff some row is too short
      for a selected column. */
  function InferenceInput<E>(columns: seq<DatasetColumn>, source: seq<seq<E>>): (r: Result<seq<seq<E>>>)
    ensures r.Failure? <==> exists k, i :: 0 <= k < |source| && 0 <= i < |columns| && columns[i].Selected && i >= |source[k]|
    ensures r.Failure? ==> r.error == IndexOutOfRange
    ensures r.Success? ==> |r.value| == |source|
    ensures r.Success? ==> forall k :: 0 <= k < |source| ==> |r.value[k]| == |IndicesWhere(columns, IsSelected)|
    ensures r.Success? ==> forall k, j :: 0 <= k < |source| && 0 <= j < |IndicesWhere(columns, IsSelected)| ==>
      var i := IndicesWhere(columns, IsSelected)[j];
      columns[i].Selected && r.value[k][j] == source[k][i]
  {
    var indices := IndicesWhere(columns, IsSelected);
    var r := SelectColumns(source, indices);
    assert r.Failure? ==> exists k, i :: 0 <= k < |source| && 0 <= i < |columns| && columns[i].Selected && i >= |source[k]| by {
      if r.Failure? {
        var k, j :| 0 <= k < |source| && 0 <= j < |indices| && indices[j] >= |source[k]|;
        assert columns[indices[j]].Selected;
      }
    }
    assert (exists k, i :: 0 <= k < |source| && 0 <= i < |columns| && columns[i].Selected && i >= |source[k]|) ==> r.Failure? by {
      if exists k, i :: 0 <= k < |source| && 0 <= i < |columns| && columns[i].Selected && i >= |source[k]| {
        var k, i :| 0 <= k < |source| && 0 <= i < |columns| && columns[i].Selected && i >= |source[k]|;
        IndicesWhereMembership(columns, IsSelected, i);
        var j :| 0 <= j < |indices| && indices[j] == i;
      }
    }
    r
  }

  /** When every row has an entry per column, the projection succeeds, and
      entry `j` of a row is the row's value in the `j`-th selected column. */
  lemma InferenceInputOfFullRows<E>(columns: seq<DatasetColumn>, source: seq<seq<E>>)
    requires forall k :: 0 <= k < |source| ==> |source[k]| == |columns|
    ensures InferenceInput(columns, source).Success?
    ensures forall k, j :: 0 <= k < |source| && 0 <= j < |IndicesWhere(columns, IsSelected)| ==>
      var i := IndicesWhere(columns, IsSelected)[j];
      columns[i].Selected && InferenceInput(columns, source).value[k][j] == source[k][i]
  {
    var indices := IndicesWhere(columns, IsSelected);
    forall k, j | 0 <= k < |source| && 0 <= j < |indices| ensures indices[j] < |source[k]| {
      assert indices[j] < |columns|;
    }
  }
}
