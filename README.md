# df — building a typed data frame from row-major cells

This project models the core of the `df` crate: the constructor `DataFrame::new` and the cell
classifier `DataCell::data_type` (src/lib.rs). A frame is built from a list of column names and a
flat, row-major list of cells, each an integer or a text. The build has four steps:

1. It infers each column's kind from the first-row cell at that position. A position with no cell
   is Integer.
2. It rejects a cell count that is not a whole number of rows.
3. It allocates one empty column of the inferred kind per name.
4. It sends cell `j` to column `j % n`. The first cell whose kind differs from its column's kind
   aborts the build with an error that names the column kind.

Modules, one per file:

- `Cells` (cells.dfy): `DataTypes`, `DataCell` and its `DataType()`. Integer payloads are a 32-bit
  newtype, as `DataInteger = i32` in the source.
- `Columns` (columns.dfy): `Column<T>` and `DataColumn`. Also the three column operations the
  constructor performs: allocate empty (`EmptyColumn`), push a cell (`Push`), and the column a set
  of cells determines (`ColumnOf`).
- `Strides` (strides.dfy): index arithmetic of a row-major layout.
  - `ColumnIndex` is `j % n`, computed by whole rows.
  - `RowStart` is `k * n`, computed by repeated addition.
  - `Stride` is the elements at `i, i + n, i + 2n, ...`.
  - The module also holds generic row-reconstruction lemmas.
- `Frame` (frame.dfy): the error type, its three messages and the specification function `Build`.
  - `Build` states what a build returns.
  - The method `New` follows the source's loops and early returns step by step. It is proved to
    return exactly `Build(columnNames, data)`.
- `FrameProperties` (frame_properties.dfy): what the source promises, proved as lemmas about
  `Build` and hence about `New`.
  - It covers the order of the error checks, the if-and-only-if for success, and the columns'
    shape and contents.
  - It includes the round trip: reading the columns back row by row gives the input.
  - It also includes worked examples.

## Model

| member | source | states |
|---|---|---|
| Cells.DataCell.DataType | src/lib.rs:130-135 | The kind is Integer exactly for integer cells and Text exactly for text cells. |
| Columns.EmptyColumn | src/lib.rs:74-88 | A freshly allocated column has the given name and kind and holds no values. |
| Columns.Push | src/lib.rs:93-103 | Pushing a cell of the column's own kind appends its payload: name and kind are unchanged and the cells are the old cells plus the new one. |
| Columns.ColumnOf | src/lib.rs:74-111 | For cells all of kind `t`, there is a column named `name` of kind `t` whose cells are exactly those cells, in order. |
| Columns.ColumnDeterminedByCells | src/lib.rs:17-21 | Two columns with the same name, kind and cells are equal, so a column is fully described by those three. |
| Strides.ColumnIndexIsMod | src/lib.rs:92 | The row-by-row column index of position `j` is `j % n`. |
| Strides.ColumnOfRowStart | src/lib.rs:92 | Position `i + k*n` (with `i < n`) lies in column `i`. |
| Strides.StrideAt | src/lib.rs:91-95 | Element `k` of column `i` is the cell at `i + k*n`, and that position is in range. |
| Strides.StrideAtRow | src/lib.rs:91-95 | The same as `StrideAt`, with `k*n` written as `RowStart(k, n)`, for every start position. |
| Strides.StrideRows | src/lib.rs:67-71 | With `m` whole rows, every column has exactly `m` elements. |
| Strides.StrideLength | src/lib.rs:67-71 | With a cell count divisible by `n`, every column has `|data| / n` elements. |
| Strides.StrideSnoc | src/lib.rs:91-103 | Appending a cell extends exactly the column `|data| % n` by that cell and leaves every other column unchanged. |
| Strides.RowIsSlice | src/lib.rs:91-111 | With `m` whole rows split into columns, row `k` read across the columns is the slice of `n` cells starting at `k*n`. |
| Strides.RowsArePrefix | src/lib.rs:91-111 | With `m` whole rows split into columns, the first `count` rows read back are exactly the first `count*n` cells. |
| Frame.FirstRowFits | src/lib.rs:58-65 | No cell of the first row mismatches the kind inferred for its column. |
| Frame.FirstMismatch | src/lib.rs:91-109 | When some cell mismatches, there is a lowest mismatching index. It mismatches, no earlier index does, and it lies past the first row. |
| Frame.LeastMismatchExists | src/lib.rs:91-109 | If some index mismatches, a least mismatching index exists. |
| Frame.StrideWellTyped | src/lib.rs:91-103 | When no cell mismatches, every cell routed to column `i` has column `i`'s inferred kind. |
| Frame.FrameColumns | src/lib.rs:74-113 | On well-typed input, the columns are one per name, named and typed as inferred, and column `c` holds the cells at `c, c+n, c+2n, ...`. |
| Frame.HoldsUnique | src/lib.rs:74-113 | Names, kinds and routed cells determine the column list uniquely. |
| Frame.HoldsEmpty | src/lib.rs:74-88 | Freshly allocated empty columns hold exactly the cells of an empty input. |
| Frame.HoldsPush | src/lib.rs:91-103 | Pushing the next cell onto column `|data| % n` keeps every column equal to its share of the longer input. |
| Frame.IsFirstMismatch | src/lib.rs:91-109 | A mismatching index with no earlier mismatch is the first mismatch. |
| Frame.BuildTypeError | src/lib.rs:93-109 | A shape-correct input whose first mismatch is `j` fails with the error for the kind of column `j % n`. |
| Frame.BuildSuccess | src/lib.rs:91-113 | A shape-correct input with no mismatch succeeds with the columns that hold all of it. |
| Frame.CellFits | src/lib.rs:91-103 | One loop step: a cell that fits its column is pushed, the columns then hold the first `j + 1` cells, and no cell up to `j` mismatches. |
| Frame.CellMismatch | src/lib.rs:93-109 | One loop step: a cell that does not fit its column makes the whole build fail with the error for that column's kind. |
| Frame.InferColumnTypes | src/lib.rs:58-65 | The kinds computed by the loop are, per column `i`, the kind of `data[i]`, or Integer when `i >= |data|`. |
| Frame.AllocateColumns | src/lib.rs:74-88 | The allocation loop yields one empty column per name, of the kind given for it. |
| Frame.New | src/lib.rs:50-114 | The imperative constructor returns exactly `Build(columnNames, data)`: its loops, checks and early returns have the meaning stated by the lemmas below. |
| FrameProperties.MessagesDistinct | src/lib.rs:67-109 | The three error messages are pairwise different, so the failure cause is observable. |
| FrameProperties.ShapeErrorIffPartialRow | src/lib.rs:67-71 | The result is the shape error exactly when `|data| % n != 0`. Since the messages differ, no type error is ever reported for such input. |
| FrameProperties.SucceedsIff | src/lib.rs:58-113 | The build succeeds iff the cell count is divisible by `n` and every cell `j` has the inferred kind of column `j % n`. |
| FrameProperties.TypeErrorAtFirstMismatch | src/lib.rs:91-109 | A failed build of whole rows names the lowest mismatching index `j >= n`, with all earlier cells fitting. The message is the integer one if column `j % n` is Integer and the text one otherwise. |
| FrameProperties.FirstRowNeverMismatches | src/lib.rs:58-65 | A cell in the first row always has the inferred kind of its column. |
| FrameProperties.SuccessHolds | src/lib.rs:91-113 | A successful build has whole rows and no mismatching cell, and its columns hold the routed cells. |
| FrameProperties.SuccessShape | src/lib.rs:74-113 | On success there are exactly `n` columns. Column `i` is named `columnNames[i]`, has the kind of `data[i]` (Integer if absent) and holds `|data| / n` values. |
| FrameProperties.SuccessColumnValues | src/lib.rs:91-113 | On success, value `k` of column `i` is the cell at `i + k*n`. |
| FrameProperties.RoundTrip | src/lib.rs:91-113 | On success, reading the columns back row by row gives exactly the input cells: every cell is kept, in row-major order. |
| FrameProperties.EmptyDataGivesIntegerColumns | src/lib.rs:59-61 | With no cells, the build succeeds with one empty Integer column per name. |
| FrameProperties.ExampleTwoColumns | src/lib.rs:50-113 | Two columns of kinds Integer and Text, filled row-major from four cells. |
| FrameProperties.ExampleTypeError | src/lib.rs:93-100 | A text cell in an Integer column past the first row gives the integer-column error. |
| FrameProperties.ExampleShapeError | src/lib.rs:67-71 | Three cells for two columns give the shape error. |

## Left out

- The `Display` and `Error` impls and the `Box<dyn Error>` wrapping (src/lib.rs:23-47). They are
  formatting and trait-object plumbing. The error is a datatype carrying its message string.
- The `From` conversions and the `data!` and `columns!` macros (src/lib.rs:138-180). They only
  wrap a value in a variant or collect arguments into a vector.
- `#[derive(Debug)]` output, `clone()` and ownership. Columns, cells and frames are values here.
- Zero columns: the source computes `% 0` and panics. `Frame.New` and `Frame.Build` therefore
  require at least one column name. Every lemma that concerns a build has the same precondition.
- Frame.New: the source mutates `cols[col_index]` in place. The model replaces that column with
  `Push(cols[colIndex], cell)` in a sequence of column values, which has the same observable
  effect because nothing else refers to the column.
- Frame.InferColumnTypes and Frame.AllocateColumns: the first two loops of `DataFrame::new` are
  separate methods that `New` calls. Their loops and bodies are those of the source.
- The arithmetic of row-major positions is stated with `RowStart(k, n)` (proved equal to `k * n`
  by `RowStartIsProduct`) and `ColumnIndex(j, n)` (proved equal to `j % n` by
  `ColumnIndexIsMod`). Where a lemma is stated with `RowStart`, that is the reading of `k * n`.
- Determinism of a build is not a separate lemma. `Build` is a function and `New` is proved equal
  to it, so equal inputs give equal results.
- No invalid-schema error exists in the source. The zero-column case panics instead, as above.
  Duplicate or empty column names are accepted by the code and by the model.
