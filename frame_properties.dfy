/** What the source promises about building a frame, stated and proved over `Frame.Build`. */
module FrameProperties {
  import opened Cells
  import opened Columns
  import opened Strides
  import opened Frame

  /** The three messages are pairwise different, so a caller can tell the failures apart. */
  lemma MessagesDistinct()
    ensures ShapeMismatch != IntegerMismatch && ShapeMismatch != TextMismatch && IntegerMismatch != TextMismatch
  {
    assert |ShapeMismatch.msg| == 64 && |IntegerMismatch.msg| == 48 && |TextMismatch.msg| == 45;
  }

  /** The shape check runs first: the shape error is reported exactly when the cells do not form whole rows. */
  lemma ShapeErrorIffPartialRow(columnNames: seq<string>, data: seq<DataCell>)
    requires 0 < |columnNames|
    ensures Build(columnNames, data) == Err(ShapeMismatch) <==> |data| % |columnNames| != 0
  {
    MessagesDistinct();
  }

  /** A build succeeds exactly when the cells form whole rows and each cell has its column's inferred kind. */
  lemma SucceedsIff(columnNames: seq<string>, data: seq<DataCell>)
    requires 0 < |columnNames|
    ensures var n := |columnNames|;
      Build(columnNames, data).Ok? <==>
        |data| % n == 0 && forall j :: 0 <= j < |data| ==> data[j].DataType() == InferredType(data, j % n)
  {
    var n := |columnNames|;
    if forall j :: 0 <= j < |data| ==> data[j].DataType() == InferredType(data, j % n) {
      forall j: nat | j < |data|
        ensures !Mismatch(data, n, j)
      {
        ColumnIndexIsMod(j, n);
      }
    }
    if WellTyped(data, n) {
      forall j | 0 <= j < |data|
        ensures data[j].DataType() == InferredType(data, j % n)
      {
        assert !Mismatch(data, n, j);
        ColumnIndexIsMod(j, n);
      }
    }
  }

  /**
   * With whole rows, a failed build names the lowest mismatching cell `j`: it is past the first row,
   * every earlier cell fits, and the message names the kind of column `j % n`.
   */
  lemma TypeErrorAtFirstMismatch(columnNames: seq<string>, data: seq<DataCell>)
    requires 0 < |columnNames| && |data| % |columnNames| == 0
    requires Build(columnNames, data).Err?
    ensures var n := |columnNames|;
      exists j :: n <= j < |data|
        && data[j].DataType() != InferredType(data, j % n)
        && (forall k :: 0 <= k < j ==> data[k].DataType() == InferredType(data, k % n))
        && Build(columnNames, data).error
           == (if InferredType(data, j % n) == Integer then IntegerMismatch else TextMismatch)
  {
    var n := |columnNames|;
    var j := FirstMismatch(data, n);
    ColumnIndexIsMod(j, n);
    forall k | 0 <= k < j
      ensures data[k].DataType() == InferredType(data, k % n)
    {
      assert !Mismatch(data, n, k);
      ColumnIndexIsMod(k, n);
    }
  }

  /** Cells of the first row never cause a type error, whatever the input. */
  lemma FirstRowNeverMismatches(columnNames: seq<string>, data: seq<DataCell>, j: nat)
    requires 0 < |columnNames| && j < |columnNames| && j < |data|
    ensures data[j].DataType() == InferredType(data, j % |columnNames|)
  {
    FirstRowFits(data, |columnNames|);
    assert !Mismatch(data, |columnNames|, j);
    ColumnIndexIsMod(j, |columnNames|);
  }

  /** What a successful build guarantees, in the terms of `Frame.Holds`. */
  lemma SuccessHolds(columnNames: seq<string>, data: seq<DataCell>, cols: seq<DataColumn>)
    requires 0 < |columnNames| && Build(columnNames, data) == Ok(DataFrame(cols))
    ensures |data| % |columnNames| == 0 && WellTyped(data, |columnNames|)
    ensures Holds(cols, columnNames, InferredTypes(data, |columnNames|), data)
  {
  }

  /**
   * A successful build has one column per name, in name order; column `i` has the kind of the
   * first-row cell at `i` (Integer when there is none) and `|data| / n` values.
   */
  lemma SuccessShape(columnNames: seq<string>, data: seq<DataCell>, cols: seq<DataColumn>)
    requires 0 < |columnNames| && Build(columnNames, data) == Ok(DataFrame(cols))
    ensures |cols| == |columnNames|
    ensures forall i :: 0 <= i < |cols| ==>
              && cols[i].Name() == columnNames[i]
              && cols[i].DataType() == (if i < |data| then data[i].DataType() else Integer)
              && cols[i].Length() == |data| / |columnNames|
  {
    SuccessHolds(columnNames, data, cols);
    forall i | 0 <= i < |cols|
      ensures cols[i].Length() == |data| / |columnNames|
    {
      StrideLength(data, |columnNames|, i);
    }
  }

  /** On success, value `k` of column `i` comes from cell `i + k*n` (`RowStart(k, n)` is `k*n`), for every value the column holds. */
  lemma SuccessColumnValues(columnNames: seq<string>, data: seq<DataCell>, cols: seq<DataColumn>, i: nat, k: nat)
    requires 0 < |columnNames| && Build(columnNames, data) == Ok(DataFrame(cols))
    requires i < |cols| && k < cols[i].Length()
    ensures i + RowStart(k, |columnNames|) < |data| && cols[i].Cells()[k] == data[i + RowStart(k, |columnNames|)]
  {
    SuccessHolds(columnNames, data, cols);
    StrideAtRow(data, |columnNames|, i, k);
  }

  /** The cells of each column of `f`, in column order. */
  ghost function ColumnCells(f: DataFrame): seq<seq<DataCell>>
  {
    seq(|f.columns|, i requires 0 <= i < |f.columns| => f.columns[i].Cells())
  }

  /** A table whose columns all have at least as many values as the first, read back in row-major order. */
  ghost function Flatten(f: DataFrame): seq<DataCell>
    requires 0 < |f.columns| && HasRows(ColumnCells(f), f.columns[0].Length())
  {
    Rows(ColumnCells(f), f.columns[0].Length())
  }

  /**
   * Round trip: reading a successfully built table back row by row gives the input cells, so
   * distribution keeps every cell, in row-major order.
   */
  lemma RoundTrip(columnNames: seq<string>, data: seq<DataCell>, cols: seq<DataColumn>)
    requires 0 < |columnNames| && Build(columnNames, data) == Ok(DataFrame(cols))
    ensures 0 < |cols| && HasRows(ColumnCells(DataFrame(cols)), cols[0].Length()) && Flatten(DataFrame(cols)) == data
  {
    var n, m := |columnNames|, |data| / |columnNames|;
    SuccessHolds(columnNames, data, cols);
    SuccessShape(columnNames, data, cols);
    WholeRows(|data|, n);
    var cells := ColumnCells(DataFrame(cols));
    assert forall c :: 0 <= c < n ==> cells[c] == Stride(data, n, c);
    RowsArePrefix(data, n, m, cells, m);
    assert data[..|data|] == data;
  }

  /** With no cells, the build succeeds with one empty Integer column per name. */
  lemma EmptyDataGivesIntegerColumns(columnNames: seq<string>)
    requires 0 < |columnNames|
    ensures Build(columnNames, [])
            == Ok(DataFrame(seq(|columnNames|, i requires 0 <= i < |columnNames| => EmptyColumn(columnNames[i], Integer))))
  {
    var n := |columnNames|;
    var expected := seq(n, i requires 0 <= i < n => EmptyColumn(columnNames[i], Integer));
    HoldsEmpty(expected, columnNames, InferredTypes([], n));
    HoldsUnique(expected, FrameColumns(columnNames, []), columnNames, InferredTypes([], n), []);
  }

  /** Kinds come from the first row and cells are distributed row-major. */
  lemma ExampleTwoColumns()
    ensures Build(["a", "b"], [IntegerDataCell(1), TextDataCell("x"), IntegerDataCell(2), TextDataCell("y")])
            == Ok(DataFrame([IntegerDataColumn(Column("a", [1, 2])), TextDataColumn(Column("b", ["x", "y"]))]))
  {
    var data := [IntegerDataCell(1), TextDataCell("x"), IntegerDataCell(2), TextDataCell("y")];
    var expected := [IntegerDataColumn(Column("a", [1, 2])), TextDataColumn(Column("b", ["x", "y"]))];
    assert WellTyped(data, 2) by {
      forall j: nat | j < 4 ensures !Mismatch(data, 2, j) {
        assert ColumnIndex(j, 2) == if j == 0 || j == 2 then 0 else 1;
      }
    }
    assert data[2..] == [IntegerDataCell(2), TextDataCell("y")];
    assert expected[0].Cells() == [IntegerDataCell(1), IntegerDataCell(2)];
    assert expected[1].Cells() == [TextDataCell("x"), TextDataCell("y")];
    HoldsUnique(expected, FrameColumns(["a", "b"], data), ["a", "b"], InferredTypes(data, 2), data);
  }

  /** A text cell in an integer column, past the first row, is reported as an integer column error. */
  lemma ExampleTypeError()
    ensures Build(["a", "b"], [IntegerDataCell(1), TextDataCell("x"), TextDataCell("oops"), TextDataCell("y")])
            == Err(IntegerMismatch)
  {
    var data := [IntegerDataCell(1), TextDataCell("x"), TextDataCell("oops"), TextDataCell("y")];
    IsFirstMismatch(data, 2, 2);
  }

  /** Three cells cannot fill rows of two columns. */
  lemma ExampleShapeError()
    ensures Build(["a", "b"], [IntegerDataCell(1), TextDataCell("x"), IntegerDataCell(2)]) == Err(ShapeMismatch)
  {
  }
}
