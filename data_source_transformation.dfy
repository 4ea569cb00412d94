/** InferNetHOL.Clustering/Models/DataSourceTransformationViewModel.cs: the
    classification of a table's columns by their CLR type into number, text
    and unsupported source columns, the change-only `Selected` and
    `Transformation` setters of those columns, and the view model whose
    `DataSource` and `SourceColumns` setters rebuild the column list. The
    enum member `None` of the transformation types clashes with `Option`'s,
    so this module refers to module Wrappers by a qualified name. */
module DataSourceTransformation {
  import W = Wrappers
  import opened Notifications

  /** A column's `DataType`: the CLR types the code tests for, and any other
      type by name. */
  datatype ClrType = Int32 | Double | Decimal | Single | Int64 | String | Other(name: string)

  /** `int`, `double`, `decimal`, `float` and `long`. */
  const NumericTypes: set<ClrType> := {Int32, Double, Decimal, Single, Int64}

  /** `IsNumeric(type)`: one of the five numeric types, never `string`. */
  predicate IsNumeric(t: ClrType)
    ensures IsNumeric(t) <==> t in NumericTypes
    ensures IsNumeric(t) ==> !IsTextual(t)
  {
    t == Int32 || t == Double || t == Decimal || t == Single || t == Int64
  }

  /** `IsTextual(type)`: `type == typeof(string)`. */
  predicate IsTextual(t: ClrType) {
    t == String
  }

  /** The kind of source column a table column becomes; an unsupported one
      keeps its type. */
  datatype ColumnKind = Number | Text | Unsupported(dataType: ClrType)

  /** Lines 88-99: numeric types first, then `string`, then everything else. */
  function KindOf(t: ClrType): (k: ColumnKind)
    ensures k == Number <==> IsNumeric(t)
    ensures k == Text <==> IsTextual(t)
    ensures k.Unsupported? <==> !IsNumeric(t) && !IsTextual(t)
    ensures k.Unsupported? ==> k.dataType == t
  {
    if IsNumeric(t) then Number
    else if IsTextual(t) then Text
    else Unsupported(t)
  }

  /** `TextSourceColumnTransformationTypes`, in declaration order. */
  datatype TransformationType = None | Ordinal | IdentityVector | BagOfWords

  /** The value of each member: 0 to 3 in declaration order. */
  function TypeValue(t: TransformationType): (k: nat)
    ensures k < 4
  {
    match t
    case None => 0
    case Ordinal => 1
    case IdentityVector => 2
    case BagOfWords => 3
  }

  /** `AvailableTransformationTypes`: `Enum.GetValues` lists the members
      ordered by value, so every member once, at the position of its value. */
  function AvailableTransformationTypes(): (r: seq<TransformationType>)
    ensures |r| == 4
    ensures forall t :: r[TypeValue(t)] == t
    ensures forall i :: 0 <= i < |r| ==> TypeValue(r[i]) == i
  {
    [None, Ordinal, IdentityVector, BagOfWords]
  }

  /** Every member is listed, none twice, and `None` comes first. */
  lemma AvailableTypesListEachOnce(t: TransformationType)
    ensures t in AvailableTransformationTypes()
    ensures forall i, j :: 0 <= i < j < 4 ==> AvailableTransformationTypes()[i] != AvailableTransformationTypes()[j]
    ensures AvailableTransformationTypes()[0] == None
  {
    var r := AvailableTransformationTypes();
    assert r[TypeValue(t)] == t;
    forall i, j | 0 <= i < j < 4 ensures r[i] != r[j] {
      assert TypeValue(r[i]) == i && TypeValue(r[j]) == j;
    }
  }

  /** A `SourceColumn`: a `NumberSourceColumn`, a `TextSourceColumn` or an
      `UnsupportedSourceColumn`, told apart by `Kind`. `selected` belongs to
      the supported kinds and `transformation` to text columns. */
  class SourceColumn {
    const Name: string
    const Kind: ColumnKind
    var selected: bool
    var transformation: TransformationType
    /** The `PropertyChanged` notifications raised, in order. */
    var Notified: seq<string>

    /** `new NumberSourceColumn(name)`, `new TextSourceColumn(name)` (which
        starts with `Ordinal`) and `new UnsupportedSourceColumn(name, type)`,
        for the kind `KindOf(type)`. */
    constructor (name: string, t: ClrType)
      ensures Name == name && Kind == KindOf(t)
      ensures !selected && Notified == []
      ensures transformation == if Kind == Text then Ordinal else None
    {
      Name := name;
      Kind := KindOf(t);
      selected := false;
      transformation := if KindOf(t) == Text then Ordinal else None;
      Notified := [];
    }

    /** The `Selected` setter of `SupportedSourceColumn`. */
    method SetSelected(value: bool)
      requires Kind == Number || Kind == Text
      modifies this`selected, this`Notified
      ensures (selected, Notified) == ChangeOnly(old(selected), value, old(Notified), "Selected")
    {
      if selected != value {
        selected := value;
        Notified := Notified + ["Selected"];
      }
    }

    /** The `Transformation` setter of `TextSourceColumn`. */
    method SetTransformation(value: TransformationType)
      requires Kind == Text
      modifies this`transformation, this`Notified
      ensures (transformation, Notified) == ChangeOnly(old(transformation), value, old(Notified), "Transformation")
    {
      if transformation != value {
        transformation := value;
        Notified := Notified + ["Transformation"];
      }
    }
  }

  /** A `DataColumn`: its name and type. */
  datatype DataColumn = DataColumn(ColumnName: string, DataType: ClrType)

  /** A `DataTable`, as far as its columns. */
  datatype DataTable = DataTable(Columns: seq<DataColumn>)

  /** `columns` are new source columns for `table`: one per table column, in
      order, with its name and the kind of its type, as constructed. */
  ghost predicate Describes(columns: seq<SourceColumn>, table: seq<DataColumn>)
    reads columns
  {
    |columns| == |table| &&
    forall i :: 0 <= i < |columns| ==>
      columns[i].Name == table[i].ColumnName && columns[i].Kind == KindOf(table[i].DataType) &&
      !columns[i].selected && columns[i].Notified == [] &&
      columns[i].transformation == (if columns[i].Kind == Text then Ordinal else None)
  }

  class DataSourceTransformationViewModel {
    /** `null` until a table is assigned. */
    var dataSource: W.Option<DataTable>
    var sourceColumns: W.Option<seq<SourceColumn>>
    var Notified: seq<string>

    constructor ()
      ensures dataSource == W.None && sourceColumns == W.None && Notified == []
    {
      dataSource := W.None;
      sourceColumns := W.None;
      Notified := [];
    }

    /** The private `SourceColumns` setter: stores the columns, notifies
        under the name "SourceColums" as the source spells it, and then
        always fails, because `UpdateTransformedColumns` throws. */
    method SetSourceColumns(value: seq<SourceColumn>) returns (outcome: W.Outcome)
      modifies this`sourceColumns, this`Notified
      ensures sourceColumns == W.Some(value)
      ensures Notified == old(Notified) + ["SourceColums"]
      ensures outcome == W.Fail(W.NotImplemented)
    {
      sourceColumns := W.Some(value);
      Notified := Notified + ["SourceColums"];
      outcome := W.Fail(W.NotImplemented);
    }

    /** `UpdateSourceColumnsList()`: one new source column per table column,
        then the `SourceColumns` setter. Without a table, reading its
        `Columns` throws and nothing changes. */
    method UpdateSourceColumnsList() returns (outcome: W.Outcome)
      modifies this`sourceColumns, this`Notified
      ensures dataSource.None? ==> outcome == W.Fail(W.NullReference)
      ensures dataSource.None? ==> sourceColumns == old(sourceColumns) && Notified == old(Notified)
      ensures dataSource.Some? ==> outcome == W.Fail(W.NotImplemented)
      ensures dataSource.Some? ==> Notified == old(Notified) + ["SourceColums"]
      ensures dataSource.Some? ==> sourceColumns.Some? && Describes(sourceColumns.value, dataSource.value.Columns)
      ensures dataSource.Some? ==> forall i :: 0 <= i < |sourceColumns.value| ==> fresh(sourceColumns.value[i])
    {
      if dataSource.None? {
        return W.Fail(W.NullReference);
      }
      var table := dataSource.value.Columns;
      var columns: seq<SourceColumn> := [];
      var i := 0;
      while i < |table|
        invariant 0 <= i <= |table|
        invariant Describes(columns, table[..i])
        invariant forall k :: 0 <= k < |columns| ==> fresh(columns[k])
        invariant Notified == old(Notified)
      {
        var column := new SourceColumn(table[i].ColumnName, table[i].DataType);
        columns := columns + [column];
        i := i + 1;
      }
      assert table[..i] == table;
      outcome := SetSourceColumns(columns);
    }

    /** The `DataSource` setter: stores the table, notifies, and rebuilds the
        column list, so it always ends in an exception. */
    method SetDataSource(value: W.Option<DataTable>) returns (outcome: W.Outcome)
      modifies this`dataSource, this`sourceColumns, this`Notified
      ensures dataSource == value
      ensures outcome.Fail?
      ensures value.None? ==> outcome == W.Fail(W.NullReference)
      ensures value.None? ==> sourceColumns == old(sourceColumns) && Notified == old(Notified) + ["DataSource"]
      ensures value.Some? ==> outcome == W.Fail(W.NotImplemented)
      ensures value.Some? ==> Notified == old(Notified) + ["DataSource", "SourceColums"]
      ensures value.Some? ==> sourceColumns.Some? && Describes(sourceColumns.value, value.value.Columns)
      ensures value.Some? ==> forall i :: 0 <= i < |sourceColumns.value| ==> fresh(sourceColumns.value[i])
    {
      dataSource := value;
      Notified := Notified + ["DataSource"];
      outcome := UpdateSourceColumnsList();
    }
  }

  /** No type is both numeric and textual, so the kinds are exclusive. */
  lemma NumericNotTextual(t: ClrType)
    ensures !(IsNumeric(t) && IsTextual(t))
    ensures IsTextual(t) <==> t == String
  {
  }
}
