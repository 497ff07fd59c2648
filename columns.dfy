/** Named, homogeneously typed columns of a data frame (src/lib.rs). */
module Columns {
  import opened Cells

  /** A named column of values of one element type. */
  datatype Column<T> = Column(name: string, data: seq<T>)

  /** A column of integers or a column of texts; its kind never changes after allocation. */
  datatype DataColumn = IntegerDataColumn(ints: Column<DataInteger>) | TextDataColumn(texts: Column<DataText>)
  {
    function Name(): string
    {
      match this
      case IntegerDataColumn(c) => c.name
      case TextDataColumn(c) => c.name
    }

    /** The kind of every value this column holds. */
    function DataType(): DataTypes
    {
      match this
      case IntegerDataColumn(_) => Integer
      case TextDataColumn(_) => Text
    }

    /** The number of values (rows) the column holds. */
    function Length(): nat
    {
      match this
      case IntegerDataColumn(c) => |c.data|
      case TextDataColumn(c) => |c.data|
    }

    /** The column's values in order, each seen as the cell it came from; all of the column's kind. */
    function Cells(): (cells: seq<DataCell>)
      ensures |cells| == Length()
      ensures forall k :: 0 <= k < |cells| ==> cells[k].DataType() == DataType()
    {
      match this
      case IntegerDataColumn(c) => seq(|c.data|, k requires 0 <= k < |c.data| => IntegerDataCell(c.data[k]))
      case TextDataColumn(c) => seq(|c.data|, k requires 0 <= k < |c.data| => TextDataCell(c.data[k]))
    }
  }

  /** Every cell of `cells` has kind `t`. */
  predicate AllOfType(cells: seq<DataCell>, t: DataTypes)
  {
    forall k :: 0 <= k < |cells| ==> cells[k].DataType() == t
  }

  /** A freshly allocated column: named `name`, of kind `t`, holding nothing. */
  function EmptyColumn(name: string, t: DataTypes): (col: DataColumn)
    ensures col.Name() == name && col.DataType() == t && col.Cells() == []
  {
    match t
    case Integer => IntegerDataColumn(Column(name, []))
    case Text => TextDataColumn(Column(name, []))
  }

  /** Appends the payload of a cell of the column's own kind; name and kind stay the same. */
  function Push(col: DataColumn, cell: DataCell): (r: DataColumn)
    requires cell.DataType() == col.DataType()
    ensures r.Name() == col.Name() && r.DataType() == col.DataType()
    ensures r.Cells() == col.Cells() + [cell]
  {
    match col
    case IntegerDataColumn(c) => IntegerDataColumn(c.(data := c.data + [cell.intValue]))
    case TextDataColumn(c) => TextDataColumn(c.(data := c.data + [cell.textValue]))
  }

  /** The column named `name`, of kind `t`, whose values are the payloads of `cells`, in order. */
  function ColumnOf(name: string, t: DataTypes, cells: seq<DataCell>): (col: DataColumn)
    requires AllOfType(cells, t)
    ensures col.Name() == name && col.DataType() == t && col.Cells() == cells
  {
    match t
    case Integer => IntegerDataColumn(Column(name, seq(|cells|, k requires 0 <= k < |cells| => cells[k].intValue)))
    case Text => TextDataColumn(Column(name, seq(|cells|, k requires 0 <= k < |cells| => cells[k].textValue)))
  }

  /** A column is determined by its name, its kind and its cells. */
  lemma ColumnDeterminedByCells(a: DataColumn, b: DataColumn)
    requires a.Name() == b.Name() && a.DataType() == b.DataType() && a.Cells() == b.Cells()
    ensures a == b
  {
    match a
    case IntegerDataColumn(c) =>
      assert forall k :: 0 <= k < |c.data| ==> c.data[k] == a.Cells()[k].intValue == b.ints.data[k];
    case TextDataColumn(c) =>
      assert forall k :: 0 <= k < |c.data| ==> c.data[k] == a.Cells()[k].textValue == b.texts.data[k];
  }
}
