/** The layout of `ls`: n sorted records in a grid that is read column by column but written row by
    row. */
module Grid {
  import opened Wire
  import opened Table

  const TERM_WIDTH := 125

  // ----- the shape -----

  function ColumnCount(n: nat, maxLen: nat): (ncols: nat)
    requires n >= 1 && maxLen >= 1
    ensures 1 <= ncols <= n
  {
    var fit := TERM_WIDTH / maxLen;
    var atLeastOne := if fit < 1 then 1 else fit;
    if atLeastOne > n then n else atLeastOne
  }

  /** The number of columns is the largest that fits the terminal, each as wide as the longest name,
      but at least one and at most one per record. */
  lemma ColumnCountIs(n: nat, maxLen: nat, ncols: nat)
    requires n >= 1 && maxLen >= 1
    ensures ncols == ColumnCount(n, maxLen)
       <==> && 1 <= ncols <= n
            && (ncols == 1 || ncols * maxLen <= 125)
            && (ncols == n || (ncols + 1) * maxLen > 125)
  {
    FitIs(ncols, maxLen);
    FitIs(ncols + 1, maxLen);
  }

  /** So many columns fit the terminal. */
  lemma FitIs(ncols: nat, maxLen: nat)
    requires maxLen >= 1
    ensures ncols * maxLen <= 125 <==> ncols <= TERM_WIDTH / maxLen
  {
    var fit, left := TERM_WIDTH / maxLen, TERM_WIDTH % maxLen;
    assert 125 == maxLen * fit + left;
    WithinFit(ncols, maxLen, fit, left);
  }

  lemma WithinFit(ncols: nat, maxLen: nat, fit: nat, left: nat)
    requires left < maxLen && 125 == maxLen * fit + left
    ensures ncols * maxLen <= 125 <==> ncols <= fit
  {
    MulMonotone(ncols, fit, maxLen);
    MulMonotone(fit + 1, ncols, maxLen);
    assert (fit + 1) * maxLen == maxLen * fit + maxLen;
  }

  function RowCount(n: nat, ncols: nat): (nrows: nat)
    requires n >= 1 && ncols >= 1
  {
    (n + ncols - 1) / ncols
  }

  lemma MulMonotone(a: int, b: int, n: nat)
    ensures a <= b ==> a * n <= b * n
  {
  }

  lemma SmallMultiple(k: int, n: nat)
    requires k * n + n > 0 && k * n < n
    ensures k == 0
  {
    MulMonotone(1, k, n);
    MulMonotone(k, -1, n);
  }

  /** Enough cells for the records, and not a whole row more. */
  lemma GridIsTight(n: nat, ncols: nat)
    requires 1 <= ncols <= n
    ensures var nrows := RowCount(n, ncols);
            nrows >= 1 && ncols * nrows >= n && ncols * (nrows - 1) < n
  {
    var x := n + ncols - 1;
    var nrows := RowCount(n, ncols);
    assert x == ncols * nrows + x % ncols;
    assert ncols * (nrows - 1) == ncols * nrows - ncols;
    MulMonotone(nrows, 0, ncols);
  }

  // ----- where an index stands -----

  function Cell(nrows: nat, row: nat, col: nat): nat {
    col * nrows + row
  }

  /** An index stands in exactly one cell. */
  lemma CellIsUnique(nrows: nat, row: nat, col: nat, x: nat)
    requires row < nrows
    ensures Cell(nrows, row, col) == x <==> col == x / nrows && row == x % nrows
  {
    var q, r := x / nrows, x % nrows;
    assert x == nrows * q + r;
    if Cell(nrows, row, col) == x {
      assert (col - q) * nrows == r - row;
      SmallMultiple(col - q, nrows);
    }
  }

  lemma ColumnIsInGrid(n: nat, nrows: nat, ncols: nat, x: nat)
    requires nrows >= 1 && ncols * nrows >= n && x < n
    ensures x / nrows < ncols
  {
    var q := x / nrows;
    assert x == q * nrows + x % nrows;
    MulMonotone(ncols, q, nrows);
  }

  // ----- the walk -----

  /** Indices written in one row, up to a column. */
  function RowVisits(n: nat, nrows: nat, row: nat, cols: nat): seq<nat> {
    if cols == 0 then []
    else
      RowVisits(n, nrows, row, cols - 1)
      + if Cell(nrows, row, cols - 1) < n then [Cell(nrows, row, cols - 1)] else []
  }

  /** Indices written in the first rows, in the order of writing. */
  function Walk(n: nat, nrows: nat, ncols: nat, rows: nat): seq<nat> {
    if rows == 0 then [] else Walk(n, nrows, ncols, rows - 1) + RowVisits(n, nrows, rows - 1, ncols)
  }

  function Times(s: seq<nat>, x: nat): nat {
    multiset(s)[x]
  }

  lemma TimesOfConcat(a: seq<nat>, b: seq<nat>, x: nat)
    ensures Times(a + b, x) == Times(a, x) + Times(b, x)
  {
  }

  lemma TimesOfOne(y: nat, x: nat)
    ensures Times([y], x) == if x == y then 1 else 0
    ensures Times([], x) == 0
  {
  }

  lemma {:induction false} RowVisitsOnce(n: nat, nrows: nat, row: nat, cols: nat, x: nat)
    requires row < nrows
    ensures Times(RowVisits(n, nrows, row, cols), x)
         == if x < n && row == x % nrows && x / nrows < cols then 1 else 0
  {
    hide Cell, Times;
    if cols == 0 {
      TimesOfOne(0, x);
    } else {
      var cell := Cell(nrows, row, cols - 1);
      RowVisitsOnce(n, nrows, row, cols - 1, x);
      CellIsUnique(nrows, row, cols - 1, x);
      TimesOfConcat(RowVisits(n, nrows, row, cols - 1), if cell < n then [cell] else [], x);
      TimesOfOne(cell, x);
    }
  }

  lemma {:induction false} WalkVisitsOnce(n: nat, nrows: nat, ncols: nat, rows: nat, x: nat)
    requires rows <= nrows
    ensures Times(Walk(n, nrows, ncols, rows), x)
         == if nrows > 0 && x < n && x % nrows < rows && x / nrows < ncols then 1 else 0
  {
    hide RowVisits, Times;
    if rows == 0 {
      TimesOfOne(0, x);
    } else {
      WalkVisitsOnce(n, nrows, ncols, rows - 1, x);
      RowVisitsOnce(n, nrows, rows - 1, ncols, x);
      TimesOfConcat(Walk(n, nrows, ncols, rows - 1), RowVisits(n, nrows, rows - 1, ncols), x);
    }
  }

  /** Every record is written exactly once, and nothing else is: for all counts and name lengths. */
  lemma EachRecordIsWrittenOnce(n: nat, maxLen: nat, x: nat)
    requires n >= 1 && maxLen >= 1
    ensures var ncols := ColumnCount(n, maxLen);
            var nrows := RowCount(n, ncols);
            Times(Walk(n, nrows, ncols, nrows), x) == if x < n then 1 else 0
  {
    hide ColumnCount, RowCount, Walk;
    var ncols := ColumnCount(n, maxLen);
    var nrows := RowCount(n, ncols);
    GridIsTight(n, ncols);
    WalkVisitsOnce(n, nrows, ncols, nrows, x);
    if x < n {
      ColumnIsInGrid(n, nrows, ncols, x);
    }
  }

  // ----- the order of writing -----

  function RowOf(nrows: nat, x: nat): nat
    requires nrows > 0
  {
    x % nrows
  }

  function ColumnOf(nrows: nat, x: nat): nat
    requires nrows > 0
  {
    x / nrows
  }

  /** Above, or to the left in the same row. */
  predicate Before(nrows: nat, x: nat, y: nat)
    requires nrows > 0
  {
    RowOf(nrows, x) < RowOf(nrows, y) || (RowOf(nrows, x) == RowOf(nrows, y) && ColumnOf(nrows, x) < ColumnOf(nrows, y))
  }

  /** From top to bottom, and from left to right in each row. */
  predicate RowByRow(nrows: nat, order: seq<nat>)
    requires nrows > 0
  {
    forall i, j | 0 <= i < j < |order| :: Before(nrows, order[i], order[j])
  }

  lemma {:induction false} RowVisitsAreOrdered(n: nat, nrows: nat, row: nat, cols: nat)
    requires row < nrows
    ensures RowByRow(nrows, RowVisits(n, nrows, row, cols))
    ensures forall k | 0 <= k < |RowVisits(n, nrows, row, cols)| ::
              var x := RowVisits(n, nrows, row, cols)[k];
              RowOf(nrows, x) == row && ColumnOf(nrows, x) < cols
  {
    if cols > 0 {
      RowVisitsAreOrdered(n, nrows, row, cols - 1);
      CellStands(nrows, row, cols - 1);
      hide Cell, RowOf, ColumnOf;
    }
  }

  lemma CellStands(nrows: nat, row: nat, col: nat)
    requires row < nrows
    ensures RowOf(nrows, Cell(nrows, row, col)) == row && ColumnOf(nrows, Cell(nrows, row, col)) == col
  {
    hide Cell;
    CellIsUnique(nrows, row, col, Cell(nrows, row, col));
  }

  lemma {:induction false} WalkIsRowByRow(n: nat, nrows: nat, ncols: nat, rows: nat)
    requires rows <= nrows && nrows > 0
    ensures RowByRow(nrows, Walk(n, nrows, ncols, rows))
    ensures forall k | 0 <= k < |Walk(n, nrows, ncols, rows)| :: RowOf(nrows, Walk(n, nrows, ncols, rows)[k]) < rows
  {
    hide RowOf, ColumnOf, RowVisits;
    if rows > 0 {
      WalkIsRowByRow(n, nrows, ncols, rows - 1);
      RowVisitsAreOrdered(n, nrows, rows - 1, ncols);
    }
  }

  // ----- reading the grid -----

  /** The filled cells of a column from the top, and of the first columns one after the other. */
  function ReadColumn(n: nat, nrows: nat, col: nat, rows: nat): seq<nat> {
    if rows == 0 then []
    else
      ReadColumn(n, nrows, col, rows - 1)
      + if Cell(nrows, rows - 1, col) < n then [Cell(nrows, rows - 1, col)] else []
  }

  function ReadColumns(n: nat, nrows: nat, cols: nat): seq<nat> {
    if cols == 0 then [] else ReadColumns(n, nrows, cols - 1) + ReadColumn(n, nrows, cols - 1, nrows)
  }

  function UpTo(n: nat): seq<nat> {
    seq(n, i => i)
  }

  lemma {:induction false} ColumnContinues(n: nat, nrows: nat, col: nat, rows: nat)
    ensures UpTo(Min(n, col * nrows)) + ReadColumn(n, nrows, col, rows) == UpTo(Min(n, col * nrows + rows))
  {
    var start := col * nrows;
    if rows == 0 {
    } else {
      ColumnContinues(n, nrows, col, rows - 1);
      var before := ReadColumn(n, nrows, col, rows - 1);
      if start + rows - 1 < n {
        Assoc(UpTo(Min(n, start)), before, [start + rows - 1]);
        assert UpTo(start + rows - 1) + [start + rows - 1] == UpTo(start + rows);
      } else {
        assert before + [] == before;
      }
    }
  }

  /** Read column by column, the grid shows the records in their sorted order. */
  lemma {:induction false} ColumnsAreInOrder(n: nat, nrows: nat, cols: nat)
    ensures ReadColumns(n, nrows, cols) == UpTo(Min(n, cols * nrows))
  {
    if cols > 0 {
      hide ReadColumn;
      ColumnsAreInOrder(n, nrows, cols - 1);
      ColumnContinues(n, nrows, cols - 1, nrows);
      assert (cols - 1) * nrows + nrows == cols * nrows;
    }
  }

  /** The records behind a sequence of indices. */
  function Shown(records: seq<Row>, indices: seq<nat>): (shown: seq<Row>)
    requires forall k | 0 <= k < |indices| :: indices[k] < |records|
    ensures |shown| == |indices|
    ensures forall k | 0 <= k < |indices| :: shown[k] == records[indices[k]]
  {
    seq(|indices|, k requires 0 <= k < |indices| => records[indices[k]])
  }

  lemma GridShowsSortedOrder(records: seq<Row>, maxLen: nat)
    requires records != [] && maxLen >= 1
    ensures var ncols := ColumnCount(|records|, maxLen);
            var indices := ReadColumns(|records|, RowCount(|records|, ncols), ncols);
            && (forall k | 0 <= k < |indices| :: indices[k] < |records|)
            && Shown(records, indices) == records
  {
    hide ColumnCount, RowCount, ReadColumns;
    var ncols := ColumnCount(|records|, maxLen);
    GridIsTight(|records|, ncols);
    ColumnsAreInOrder(|records|, RowCount(|records|, ncols), ncols);
  }

  // ----- the program -----

  function NameLength(records: seq<Row>, i: nat): nat
    requires i < |records|
  {
    |records[i].filename|
  }

  predicate IsMaxLength(records: seq<Row>, maxLen: nat) {
    && (forall i | 0 <= i < |records| :: NameLength(records, i) <= maxLen)
    && (maxLen > 0 ==> exists i :: 0 <= i < |records| && NameLength(records, i) == maxLen)
  }

  method LongestName(records: seq<Row>) returns (maxLen: nat)
    ensures IsMaxLength(records, maxLen)
  {
    maxLen := 0;
    for i := 0 to |records|
      invariant forall j | 0 <= j < i :: NameLength(records, j) <= maxLen
      invariant maxLen > 0 ==> exists j :: 0 <= j < i && NameLength(records, j) == maxLen
    {
      var len := NameLength(records, i);
      if len > maxLen {
        maxLen := len;
      }
    }
  }

  /** A column's width: wide enough for each of its names and no wider than one of them. */
  predicate IsColumnWidth(records: seq<Row>, nrows: nat, col: nat, width: nat) {
    && (forall row | 0 <= row < nrows && Cell(nrows, row, col) < |records| ::
          NameLength(records, Cell(nrows, row, col)) <= width)
    && (width > 0 ==> exists row :: 0 <= row < nrows && Cell(nrows, row, col) < |records|
                                    && NameLength(records, Cell(nrows, row, col)) == width)
  }

  method ColumnWidth(records: seq<Row>, nrows: nat, col: nat) returns (width: nat)
    ensures IsColumnWidth(records, nrows, col, width)
  {
    width := 0;
    for row := 0 to nrows
      invariant forall r | 0 <= r < row && Cell(nrows, r, col) < |records| ::
                  NameLength(records, Cell(nrows, r, col)) <= width
      invariant width > 0 ==> exists r :: 0 <= r < row && Cell(nrows, r, col) < |records|
                                          && NameLength(records, Cell(nrows, r, col)) == width
    {
      var idx := Cell(nrows, row, col);
      if idx < |records| {
        var len := NameLength(records, idx);
        if len > width {
          width := len;
        }
      }
    }
  }

  /** All names are empty: the code divides by the longest length and dies. */
  predicate AllNamesEmpty(records: seq<Row>) {
    forall i | 0 <= i < |records| :: NameLength(records, i) == 0
  }

  lemma NoLengthIff(records: seq<Row>, maxLen: nat)
    requires IsMaxLength(records, maxLen)
    ensures maxLen == 0 <==> AllNamesEmpty(records)
  {
    if maxLen > 0 {
      var i :| 0 <= i < |records| && NameLength(records, i) == maxLen;
      assert NameLength(records, i) > 0;
    }
  }

  method GridShape(n: nat, maxLen: nat) returns (nrows: nat, ncols: nat)
    requires n >= 1 && maxLen >= 1
    ensures ncols == ColumnCount(n, maxLen) && nrows == RowCount(n, ncols)
  {
    ncols := TERM_WIDTH / maxLen;
    if ncols < 1 {
      ncols := 1;
    }
    if ncols > n {
      ncols := n;
    }
    nrows := (n + ncols - 1) / ncols;
  }

  method ColumnWidths(records: seq<Row>, nrows: nat, ncols: nat) returns (widths: array<nat>)
    ensures fresh(widths) && widths.Length == ncols
    ensures forall col | 0 <= col < ncols :: IsColumnWidth(records, nrows, col, widths[col])
  {
    hide Cell;
    widths := new nat[ncols](_ => 0);
    for col := 0 to ncols
      invariant forall c | 0 <= c < col :: IsColumnWidth(records, nrows, c, widths[c])
    {
      widths[col] := ColumnWidth(records, nrows, col);
    }
  }

  /** Row by row, each index below n once and nothing else. */
  ghost predicate WritesAll(n: nat, nrows: nat, order: seq<nat>) {
    nrows > 0 && RowByRow(nrows, order) && forall x: nat :: Times(order, x) == if x < n then 1 else 0
  }

  lemma WalkWritesAll(n: nat, maxLen: nat)
    requires n >= 1 && maxLen >= 1
    ensures var ncols := ColumnCount(n, maxLen);
            var nrows := RowCount(n, ncols);
            WritesAll(n, nrows, Walk(n, nrows, ncols, nrows))
  {
    hide ColumnCount, RowCount, Walk, Times, RowByRow;
    var ncols := ColumnCount(n, maxLen);
    var nrows := RowCount(n, ncols);
    GridIsTight(n, ncols);
    WalkIsRowByRow(n, nrows, ncols, nrows);
    forall x: nat
      ensures Times(Walk(n, nrows, ncols, nrows), x) == if x < n then 1 else 0
    {
      EachRecordIsWrittenOnce(n, maxLen, x);
    }
  }

  /** Grid size, column widths and the order in which the records are written: row by row, each once.
      The program survives exactly if some name is not empty. */
  method LayOut(records: seq<Row>)
    returns (survives: bool, nrows: nat, ncols: nat, widths: array<nat>, order: seq<nat>)
    requires records != []
    ensures survives <==> !AllNamesEmpty(records)
    ensures survives ==>
              && (exists maxLen: nat ::
                    maxLen >= 1 && IsMaxLength(records, maxLen) && ncols == ColumnCount(|records|, maxLen))
              && nrows >= 1 && ncols * nrows >= |records| && ncols * (nrows - 1) < |records|
              && WritesAll(|records|, nrows, order)
              && widths.Length == ncols
              && forall col | 0 <= col < ncols :: IsColumnWidth(records, nrows, col, widths[col])
  {
    hide ColumnCount, RowCount, Walk, WritesAll, IsMaxLength, IsColumnWidth, AllNamesEmpty;
    var n := |records|;
    var maxLen := LongestName(records);
    NoLengthIff(records, maxLen);
    if maxLen == 0 {
      widths := new nat[0];
      return false, 0, 0, widths, [];
    }
    nrows, ncols := GridShape(n, maxLen);
    GridIsTight(n, ncols);
    widths := ColumnWidths(records, nrows, ncols);
    order := WriteRows(n, nrows, ncols);
    WalkWritesAll(n, maxLen);
    survives := true;
  }

  method WriteRows(n: nat, nrows: nat, ncols: nat) returns (order: seq<nat>)
    ensures order == Walk(n, nrows, ncols, nrows)
  {
    order := [];
    for row := 0 to nrows
      invariant order == Walk(n, nrows, ncols, row)
    {
      ghost var before := order;
      assert before + [] == before;
      for col := 0 to ncols
        invariant order == before + RowVisits(n, nrows, row, col)
      {
        var idx := col * nrows + row;
        if idx < n {
          Assoc(before, RowVisits(n, nrows, row, col), [idx]);
          order := order + [idx];
        }
      }
    }
  }
}
