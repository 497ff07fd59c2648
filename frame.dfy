/**
 * Building a data frame from column names and a flat, row-major sequence of cells
 * (`DataFrame::new` in src/lib.rs): column kinds are inferred from the first row,
 * the cell count must be a whole number of rows, and cell `j` goes to column `j % n`.
 */
module Frame {
  import opened Cells
  import opened Columns
  import opened Strides

  /** A table: its columns in the order of the column names. */
  datatype DataFrame = DataFrame(columns: seq<DataColumn>)

  /** The single error kind of the library: a human-readable message. */
  datatype DataFrameError = DataFrameError(msg: string)

  datatype Result<T> = Ok(value: T) | Err(error: DataFrameError)

  const ShapeMismatch := DataFrameError("length of data provided did not match expected number of columns")
  const IntegerMismatch := DataFrameError("data cell type did not match integer column type")
  const TextMismatch := DataFrameError("data cell type did not match text column type")

  /** The error reported when a cell does not fit a column of kind `t`. */
  function TypeMismatch(t: DataTypes): DataFrameError
  {
    match t
    case Integer => IntegerMismatch
    case Text => TextMismatch
  }

  /** The inferred kind of column `i`: the kind of the first-row cell there, Integer if there is none. */
  function InferredType(data: seq<DataCell>, i: nat): DataTypes
  {
    if i < |data| then data[i].DataType() else Integer
  }

  /** The inferred kinds of columns `0 .. n-1`. */
  function InferredTypes(data: seq<DataCell>, n: nat): seq<DataTypes>
  {
    seq(n, i requires 0 <= i < n => InferredType(data, i))
  }

  /** Cell `j` exists and its kind differs from the inferred kind of its column `j % n`. */
  predicate Mismatch(data: seq<DataCell>, n: nat, j: nat)
    requires 0 < n
  {
    j < |data| && data[j].DataType() != InferredType(data, ColumnIndex(j, n))
  }

  /** No cell at all mismatches its column. */
  predicate WellTyped(data: seq<DataCell>, n: nat)
    requires 0 < n
  {
    forall j: nat :: j < |data| ==> !Mismatch(data, n, j)
  }

  /** The lowest mismatching index; it is never in the first row, whose cells define the kinds. */
  ghost function FirstMismatch(data: seq<DataCell>, n: nat): (j: nat)
    requires 0 < n && !WellTyped(data, n)
    ensures Mismatch(data, n, j)
    ensures forall k: nat :: k < j ==> !Mismatch(data, n, k)
    ensures n <= j
  {
    LeastMismatchExists(data, n, |data|);
    FirstRowFits(data, n);
    var j: nat :| Mismatch(data, n, j) && forall k: nat :: k < j ==> !Mismatch(data, n, k);
    j
  }

  /** A first-row cell never mismatches: its own kind is the kind inferred for its column. */
  lemma FirstRowFits(data: seq<DataCell>, n: nat)
    requires 0 < n
    ensures forall j: nat :: j < n ==> !Mismatch(data, n, j)
  {
    forall j: nat | j < n
      ensures !Mismatch(data, n, j)
    {
    }
  }

  /** If some index below `bound` mismatches, there is a least mismatching index. */
  lemma {:induction false} LeastMismatchExists(data: seq<DataCell>, n: nat, bound: nat)
    requires 0 < n && exists j: nat :: j < bound && Mismatch(data, n, j)
    ensures exists j: nat :: Mismatch(data, n, j) && forall k: nat :: k < j ==> !Mismatch(data, n, k)
  {
    var j: nat :| j < bound && Mismatch(data, n, j);
    if exists k: nat :: k < j && Mismatch(data, n, k) {
      LeastMismatchExists(data, n, j);
    }
  }

  /** The cells of a column are all of its inferred kind when no cell mismatches. */
  lemma StrideWellTyped(data: seq<DataCell>, n: nat, i: nat)
    requires i < n && WellTyped(data, n)
    ensures AllOfType(Stride(data, n, i), InferredType(data, i))
  {
    forall k | 0 <= k < |Stride(data, n, i)|
      ensures Stride(data, n, i)[k].DataType() == InferredType(data, i)
    {
      StrideAtRow(data, n, i, k);
      ColumnOfRowStart(i, k, n);
      assert !Mismatch(data, n, i + RowStart(k, n));
    }
  }

  /** The columns of a successful build, one per name, in name order. */
  function FrameColumns(columnNames: seq<string>, data: seq<DataCell>): (cols: seq<DataColumn>)
    requires 0 < |columnNames| && WellTyped(data, |columnNames|)
    ensures Holds(cols, columnNames, InferredTypes(data, |columnNames|), data)
  {
    var n := |columnNames|;
    seq(n, i requires 0 <= i < n =>
      StrideWellTyped(data, n, i);
      ColumnOf(columnNames[i], InferredType(data, i), Stride(data, n, i)))
  }

  /**
   * `cols` has one column per name: column `c` is named `columnNames[c]`, has kind `columnTypes[c]`
   * and holds the cells of `data` that fall in column `c`, in order.
   */
  predicate Holds(cols: seq<DataColumn>, columnNames: seq<string>, columnTypes: seq<DataTypes>, data: seq<DataCell>)
    requires 0 < |columnNames| == |columnTypes|
  {
    && |cols| == |columnNames|
    && forall c :: 0 <= c < |cols| ==>
         && cols[c].Name() == columnNames[c]
         && cols[c].DataType() == columnTypes[c]
         && cols[c].Cells() == Stride(data, |columnNames|, c)
  }

  /** Columns are determined by their names, kinds and cells. */
  lemma HoldsUnique(a: seq<DataColumn>, b: seq<DataColumn>, columnNames: seq<string>, columnTypes: seq<DataTypes>, data: seq<DataCell>)
    requires 0 < |columnNames| == |columnTypes|
    requires Holds(a, columnNames, columnTypes, data) && Holds(b, columnNames, columnTypes, data)
    ensures a == b
  {
    forall c | 0 <= c < |a|
      ensures a[c] == b[c]
    {
      ColumnDeterminedByCells(a[c], b[c]);
    }
  }

  /** Freshly allocated empty columns hold exactly the (absent) cells of an empty input. */
  lemma HoldsEmpty(cols: seq<DataColumn>, columnNames: seq<string>, columnTypes: seq<DataTypes>)
    requires 0 < |columnNames| == |columnTypes| == |cols|
    requires forall c :: 0 <= c < |cols| ==> cols[c] == EmptyColumn(columnNames[c], columnTypes[c])
    ensures Holds(cols, columnNames, columnTypes, [])
  {
  }

  /** Pushing the next cell onto its column (`|data| % n`) keeps the columns filled. */
  lemma HoldsPush(cols: seq<DataColumn>, columnNames: seq<string>, columnTypes: seq<DataTypes>, data: seq<DataCell>,
                  target: nat, cell: DataCell)
    requires 0 < |columnNames| == |columnTypes| && target == ColumnIndex(|data|, |columnNames|)
    requires Holds(cols, columnNames, columnTypes, data)
    requires cell.DataType() == columnTypes[target]
    ensures Holds(cols[target := Push(cols[target], cell)], columnNames, columnTypes, data + [cell])
  {
    var n := |columnNames|;
    var cols' := cols[target := Push(cols[target], cell)];
    forall c | 0 <= c < n
      ensures cols'[c].Cells() == Stride(data + [cell], n, c)
    {
      StrideSnoc(data, cell, n, c);
    }
  }

  /** An index that mismatches while no earlier one does is the first mismatch. */
  lemma IsFirstMismatch(data: seq<DataCell>, n: nat, j: nat)
    requires 0 < n && Mismatch(data, n, j)
    requires forall k: nat :: k < j ==> !Mismatch(data, n, k)
    ensures !WellTyped(data, n) && FirstMismatch(data, n) == j
  {
    var first := FirstMismatch(data, n);
    assert !(first < j) && !(j < first);
  }

  /**
   * What building a frame means: the shape check comes first; then the least mismatching
   * cell decides the error; otherwise column `i` is named `columnNames[i]`, has the inferred
   * kind of position `i` and holds the cells `data[i], data[i + n], ...`.
   */
  ghost function Build(columnNames: seq<string>, data: seq<DataCell>): Result<DataFrame>
    requires 0 < |columnNames|
  {
    var n := |columnNames|;
    if |data| % n != 0 then Err(ShapeMismatch)
    else if !WellTyped(data, n) then Err(TypeMismatch(InferredType(data, ColumnIndex(FirstMismatch(data, n), n))))
    else Ok(DataFrame(FrameColumns(columnNames, data)))
  }

  /** A shape-correct input whose first mismatch is `j` fails with the error for the kind of column `j % n`. */
  lemma BuildTypeError(columnNames: seq<string>, data: seq<DataCell>, j: nat)
    requires 0 < |columnNames| && |data| % |columnNames| == 0
    requires Mismatch(data, |columnNames|, j)
    requires forall k: nat :: k < j ==> !Mismatch(data, |columnNames|, k)
    ensures Build(columnNames, data) == Err(TypeMismatch(InferredType(data, ColumnIndex(j, |columnNames|))))
  {
    IsFirstMismatch(data, |columnNames|, j);
  }

  /** A shape-correct input with no mismatch succeeds with the columns that hold all of it. */
  lemma BuildSuccess(columnNames: seq<string>, data: seq<DataCell>, cols: seq<DataColumn>)
    requires 0 < |columnNames| && |data| % |columnNames| == 0
    requires forall k: nat :: k < |data| ==> !Mismatch(data, |columnNames|, k)
    requires Holds(cols, columnNames, InferredTypes(data, |columnNames|), data)
    ensures Build(columnNames, data) == Ok(DataFrame(cols))
  {
    HoldsUnique(cols, FrameColumns(columnNames, data), columnNames, InferredTypes(data, |columnNames|), data);
  }

  /**
   * One step of the distribution: when cell `j` has the kind of its column, pushing it keeps the
   * columns filled with the first `j + 1` cells, and no cell up to `j` mismatches.
   */
  lemma CellFits(columnNames: seq<string>, data: seq<DataCell>, cols: seq<DataColumn>, j: nat)
    requires 0 < |columnNames| && j < |data|
    requires Holds(cols, columnNames, InferredTypes(data, |columnNames|), data[..j])
    requires forall k: nat :: k < j ==> !Mismatch(data, |columnNames|, k)
    requires data[j].DataType() == cols[ColumnIndex(j, |columnNames|)].DataType()
    ensures var c := ColumnIndex(j, |columnNames|);
      Holds(cols[c := Push(cols[c], data[j])], columnNames, InferredTypes(data, |columnNames|), data[..j + 1])
    ensures forall k: nat :: k < j + 1 ==> !Mismatch(data, |columnNames|, k)
  {
    var n := |columnNames|;
    assert data[..j + 1] == data[..j] + [data[j]];
    assert !Mismatch(data, n, j);
    HoldsPush(cols, columnNames, InferredTypes(data, n), data[..j], ColumnIndex(j, n), data[j]);
  }

  /**
   * The other outcome of that step: when cell `j` does not have the kind of its column, and the
   * cells form whole rows, the build fails with the error for that column's kind.
   */
  lemma CellMismatch(columnNames: seq<string>, data: seq<DataCell>, cols: seq<DataColumn>, j: nat)
    requires 0 < |columnNames| && j < |data| && |data| % |columnNames| == 0
    requires Holds(cols, columnNames, InferredTypes(data, |columnNames|), data[..j])
    requires forall k: nat :: k < j ==> !Mismatch(data, |columnNames|, k)
    requires data[j].DataType() != cols[ColumnIndex(j, |columnNames|)].DataType()
    ensures Build(columnNames, data) == Err(TypeMismatch(cols[ColumnIndex(j, |columnNames|)].DataType()))
  {
    BuildTypeError(columnNames, data, j);
  }

  /**
   * The kind of each of the `n` columns: the kind of the cell at the same position of the first
   * row, or Integer where the data is too short to have one.
   */
  method InferColumnTypes(data: seq<DataCell>, n: nat) returns (columnTypes: seq<DataTypes>)
    ensures columnTypes == InferredTypes(data, n)
  {
    columnTypes := [];
    for i := 0 to n
      invariant |columnTypes| == i
      invariant forall c :: 0 <= c < i ==> columnTypes[c] == InferredType(data, c)
    {
      if i >= |data| {
        columnTypes := columnTypes + [Integer];
      } else {
        columnTypes := columnTypes + [data[i].DataType()];
      }
    }
  }

  /** One empty column per name, of the kind given for it, holding the cells of an empty input. */
  method AllocateColumns(columnNames: seq<string>, columnTypes: seq<DataTypes>) returns (cols: seq<DataColumn>)
    requires 0 < |columnNames| == |columnTypes|
    ensures Holds(cols, columnNames, columnTypes, [])
  {
    cols := [];
    for i := 0 to |columnTypes|
      invariant |cols| == i
      invariant forall c :: 0 <= c < i ==> cols[c] == EmptyColumn(columnNames[c], columnTypes[c])
    {
      match columnTypes[i] {
        case Integer => cols := cols + [IntegerDataColumn(Column(columnNames[i], []))];
        case Text => cols := cols + [TextDataColumn(Column(columnNames[i], []))];
      }
    }
    HoldsEmpty(cols, columnNames, columnTypes);
  }

  /**
   * `DataFrame::new`: infers the column kinds, checks the shape, allocates one empty column per
   * name and distributes the cells, stopping at the first cell that does not fit its column.
   */
  method New(columnNames: seq<string>, data: seq<DataCell>) returns (r: Result<DataFrame>)
    requires 0 < |columnNames|
    ensures r == Build(columnNames, data)
  {
    var numCols := |columnNames|;
    var columnTypes := InferColumnTypes(data, numCols);

    if |data| % numCols != 0 {
      return Err(ShapeMismatch);
    }

    var cols := AllocateColumns(columnNames, columnTypes);
    for j := 0 to |data|
      invariant Holds(cols, columnNames, columnTypes, data[..j])
      invariant forall k: nat :: k < j ==> !Mismatch(data, numCols, k)
    {
      var cell := data[j];
      var colIndex := j % numCols;
      ColumnIndexIsMod(j, numCols);
      match cols[colIndex] {
        case IntegerDataColumn(_) =>
          if !cell.IntegerDataCell? {
            CellMismatch(columnNames, data, cols, j);
            return Err(IntegerMismatch);
          }
        case TextDataColumn(_) =>
          if !cell.TextDataCell? {
            CellMismatch(columnNames, data, cols, j);
            return Err(TextMismatch);
          }
      }
      CellFits(columnNames, data, cols, j);
      cols := cols[colIndex := Push(cols[colIndex], cell)];
    }

    assert data[..|data|] == data;
    BuildSuccess(columnNames, data, cols);
    r := Ok(DataFrame(cols));
  }
}
