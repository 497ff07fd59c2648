/**
 * Index arithmetic of a row-major layout with `n` columns: which column a flat position
 * falls in, where a row starts, and the elements that make up one column.
 */
module Strides {

  /** The column of flat position `j` with `n` columns, `j % n`, computed by whole rows. */
  function ColumnIndex(j: nat, n: nat): (c: nat)
    requires 0 < n
    ensures c < n
  {
    if j < n then j else ColumnIndex(j - n, n)
  }

  /** Where row `k` starts: `k * n`, computed by repeated addition so that proofs about rows stay linear. */
  function RowStart(k: nat, n: nat): nat
  {
    if k == 0 then 0 else RowStart(k - 1, n) + n
  }

  /** The elements of `xs` at positions i, i + n, i + 2n, ..., in increasing order. */
  function Stride<T>(xs: seq<T>, n: nat, i: nat): seq<T>
    requires 0 < n
    decreases |xs| - i
  {
    if |xs| <= i then [] else [xs[i]] + Stride(xs, n, i + n)
  }

  /** `d * n` is at least `n` once `d` is positive. */
  lemma {:induction false} MulAtLeast(d: int, n: int)
    requires d >= 1 && n >= 0
    ensures d * n >= n
  {
    if d > 1 {
      MulAtLeast(d - 1, n);
      assert d * n == (d - 1) * n + n;
    }
  }

  /** Quotient and remainder are unique: `q * n + r` with `0 <= r < n` splits into `q` and `r`. */
  lemma DivModUnique(x: int, n: int, q: int, r: int)
    requires n > 0 && 0 <= r < n && x == q * n + r
    ensures x / n == q && x % n == r
  {
    var q', r' := x / n, x % n;
    if q' < q {
      MulAtLeast(q - q', n);
      assert false;
    } else if q < q' {
      MulAtLeast(q' - q, n);
      assert false;
    }
  }

  /** `ColumnIndex` is the remainder of the division by `n`. */
  lemma {:induction false} ColumnIndexIsMod(j: nat, n: nat)
    requires 0 < n
    ensures ColumnIndex(j, n) == j % n
    decreases j
  {
    if n <= j {
      ColumnIndexIsMod(j - n, n);
      DivModUnique(j, n, (j - n) / n + 1, (j - n) % n);
    }
  }

  /** `RowStart` is the product of row and column count. */
  lemma {:induction false} RowStartIsProduct(k: nat, n: nat)
    ensures RowStart(k, n) == k * n
  {
    if k > 0 {
      RowStartIsProduct(k - 1, n);
      assert k * n == (k - 1) * n + n;
    }
  }

  lemma {:induction false} RowStartMono(k: nat, m: nat, n: nat)
    requires k <= m
    ensures RowStart(k, n) <= RowStart(m, n)
    decreases m
  {
    if k < m {
      RowStartMono(k, m - 1, n);
    }
  }

  /** Position `i + k*n` lies in column `i`. */
  lemma {:induction false} ColumnOfRowStart(i: nat, k: nat, n: nat)
    requires i < n
    ensures ColumnIndex(i + RowStart(k, n), n) == i
    decreases k
  {
    if k > 0 {
      ColumnOfRowStart(i, k - 1, n);
    }
  }

  /** Whole rows end exactly at the end: `(len / n) * n == len` when `len % n == 0`. */
  lemma WholeRows(len: nat, n: nat)
    requires 0 < n && len % n == 0
    ensures RowStart(len / n, n) == len
  {
    RowStartIsProduct(len / n, n);
  }

  /** Element `k` of the elements from position `i` on is `xs[i + k*n]` (row start written linearly), and that position is in range. */
  lemma {:induction false} StrideAtRow<T>(xs: seq<T>, n: nat, i: nat, k: nat)
    requires 0 < n && k < |Stride(xs, n, i)|
    ensures i + RowStart(k, n) < |xs| && Stride(xs, n, i)[k] == xs[i + RowStart(k, n)]
    decreases k
  {
    if k > 0 {
      StrideAtRow(xs, n, i + n, k - 1);
    }
  }

  /** Element `k` of column `i` is `xs[i + k*n]`, and that position is in range. */
  lemma StrideAt<T>(xs: seq<T>, n: nat, i: nat, k: nat)
    requires i < n && k < |Stride(xs, n, i)|
    ensures i + k * n < |xs| && Stride(xs, n, i)[k] == xs[i + k * n]
  {
    StrideAtRow(xs, n, i, k);
    RowStartIsProduct(k, n);
  }

  /** With `m` whole rows, what is left of column `i` from row `r` on has `m - r` elements. */
  lemma {:induction false} StrideRowsFrom<T>(xs: seq<T>, n: nat, i: nat, m: nat, r: nat)
    requires i < n && |xs| == RowStart(m, n) && r <= m
    ensures |Stride(xs, n, i + RowStart(r, n))| == m - r
    decreases m - r
  {
    if r < m {
      RowStartMono(r + 1, m, n);
      StrideRowsFrom(xs, n, i, m, r + 1);
    }
  }

  /** With `m` whole rows, every column has exactly `m` elements. */
  lemma StrideRows<T>(xs: seq<T>, n: nat, i: nat, m: nat)
    requires i < n && |xs| == RowStart(m, n)
    ensures |Stride(xs, n, i)| == m
  {
    StrideRowsFrom(xs, n, i, m, 0);
  }

  /** With whole rows only, every column has exactly `|xs| / n` elements. */
  lemma StrideLength<T>(xs: seq<T>, n: nat, i: nat)
    requires i < n && |xs| % n == 0
    ensures |Stride(xs, n, i)| == |xs| / n
  {
    WholeRows(|xs|, n);
    StrideRows(xs, n, i, |xs| / n);
  }

  /** Position `j` is in column `c` exactly when `j` is `c` plus whole rows. */
  lemma {:induction false} ColumnIndexShift(j: nat, n: nat, c: nat)
    requires c < n && c <= j
    ensures ColumnIndex(j, n) == c <==> ColumnIndex(j - c, n) == 0
    decreases j
  {
    if n <= j - c {
      ColumnIndexShift(j - n, n, c);
    }
  }

  /** Appending one element extends the elements from position `i` on by it exactly when it lies in their column. */
  lemma {:induction false} StrideSnocFrom<T>(xs: seq<T>, x: T, n: nat, i: nat)
    requires 0 < n
    ensures Stride(xs + [x], n, i)
            == Stride(xs, n, i) + (if i <= |xs| && ColumnIndex(|xs| - i, n) == 0 then [x] else [])
    decreases |xs| - i
  {
    if i < |xs| {
      StrideSnocFrom(xs, x, n, i + n);
      assert (xs + [x])[i] == xs[i];
    }
  }

  /** Appending one element extends the column of its position by that element and no other column. */
  lemma StrideSnoc<T>(xs: seq<T>, x: T, n: nat, i: nat)
    requires i < n
    ensures Stride(xs + [x], n, i) == Stride(xs, n, i) + (if ColumnIndex(|xs|, n) == i then [x] else [])
  {
    StrideSnocFrom(xs, x, n, i);
    if i <= |xs| {
      ColumnIndexShift(|xs|, n, i);
    }
  }

  /** Every one of `columns` has at least `count` elements. */
  ghost predicate HasRows<T>(columns: seq<seq<T>>, count: nat)
  {
    forall c :: 0 <= c < |columns| ==> count <= |columns[c]|
  }

  /** Row `k` of a table given by its columns: element `k` of each column, in column order. */
  ghost function Row<T>(columns: seq<seq<T>>, k: nat): seq<T>
    requires HasRows(columns, k + 1)
  {
    seq(|columns|, c requires 0 <= c < |columns| => columns[c][k])
  }

  /** The first `count` rows of a table given by its columns, in row-major order. */
  ghost function Rows<T>(columns: seq<seq<T>>, count: nat): seq<T>
    requires HasRows(columns, count)
  {
    if count == 0 then [] else Rows(columns, count - 1) + Row(columns, count - 1)
  }

  /** Of `m` whole rows of `xs` split into columns, row `k` is the slice of `n` elements starting at `k * n`. */
  lemma RowIsSlice<T>(xs: seq<T>, n: nat, m: nat, columns: seq<seq<T>>, k: nat)
    requires 0 < n == |columns| && |xs| == RowStart(m, n) && k < m
    requires forall c :: 0 <= c < n ==> columns[c] == Stride(xs, n, c)
    ensures HasRows(columns, k + 1) && RowStart(k, n) + n <= |xs|
    ensures Row(columns, k) == xs[RowStart(k, n)..RowStart(k, n) + n]
  {
    RowStartMono(k + 1, m, n);
    forall c | 0 <= c < n
      ensures k < |columns[c]| && columns[c][k] == xs[c + RowStart(k, n)]
    {
      ColumnElement(xs, n, m, columns[c], c, k);
    }
    RowOfSlice(columns, k, xs, RowStart(k, n));
  }

  /** Of `m` whole rows of `xs`, element `k` of column `c` is `xs[c + k*n]`. */
  lemma ColumnElement<T>(xs: seq<T>, n: nat, m: nat, column: seq<T>, c: nat, k: nat)
    requires c < n && |xs| == RowStart(m, n) && k < m && column == Stride(xs, n, c)
    ensures k < |column| && c + RowStart(k, n) < |xs| && column[k] == xs[c + RowStart(k, n)]
  {
    StrideRows(xs, n, c, m);
    StrideAtRow(xs, n, c, k);
  }

  /** A row whose values are consecutive elements of `xs` from `start` on is that slice of `xs`. */
  lemma RowOfSlice<T>(columns: seq<seq<T>>, k: nat, xs: seq<T>, start: nat)
    requires start + |columns| <= |xs|
    requires forall c :: 0 <= c < |columns| ==> k < |columns[c]| && columns[c][k] == xs[c + start]
    ensures HasRows(columns, k + 1) && Row(columns, k) == xs[start..start + |columns|]
  {
  }

  /** Of `m` whole rows of `xs` split into columns, the first `count` rows are the first `count * n` elements. */
  lemma {:induction false} RowsArePrefix<T>(xs: seq<T>, n: nat, m: nat, columns: seq<seq<T>>, count: nat)
    requires 0 < n == |columns| && |xs| == RowStart(m, n) && count <= m
    requires forall c :: 0 <= c < n ==> columns[c] == Stride(xs, n, c)
    ensures HasRows(columns, count) && RowStart(count, n) <= |xs|
    ensures Rows(columns, count) == xs[..RowStart(count, n)]
    decreases count
  {
    if count == 0 {
      assert HasRows(columns, 0);
    } else {
      var k := count - 1;
      RowsArePrefix(xs, n, m, columns, k);
      RowIsSlice(xs, n, m, columns, k);
      var start := RowStart(k, n);
      assert xs[..start + n] == xs[..start] + xs[start..start + n];
    }
  }
}
