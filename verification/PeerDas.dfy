/** Data availability sampling: the extended data as a matrix of cells with one row per blob and one column per
    sidecar. */
module PeerDas {
  import opened Results
  import opened Arithmetic
  import opened Sequences

  // --- The matrix --------------------------------------------------------------------------------

  datatype MatrixEntry<C, P> = MatrixEntry(cell: C, kzgProof: P, rowIndex: nat, columnIndex: nat)

  /** The cells and proofs of one blob. */
  datatype Row<C, P> = Row(cells: seq<C>, proofs: seq<P>)

  predicate WellFormed<C, P>(rows: seq<Row<C, P>>, columns: nat) {
    forall i | 0 <= i < |rows| :: |rows[i].cells| == |rows[i].proofs| == columns
  }

  function RowEntries<C, P>(row: Row<C, P>, index: nat): (r: seq<MatrixEntry<C, P>>)
    requires |row.cells| == |row.proofs|
  {
    seq(|row.cells|, j requires 0 <= j < |row.cells| => MatrixEntry(row.cells[j], row.proofs[j], index, j))
  }

  /** `construct_full_matrix`. */
  function FullMatrix<C, P>(rows: seq<Row<C, P>>, columns: nat): (r: seq<MatrixEntry<C, P>>)
    requires WellFormed(rows, columns)
    ensures |r| == |rows| * columns
  {
    if rows == [] then [] else
      var n := |rows| - 1;
      MulDistributes(n, 1, columns);
      FullMatrix(rows[..n], columns) + RowEntries(rows[n], n)
  }

  /** The matrix lists row after row; entry `j` of row `i` names both and carries cell and proof `j` of that row. */
  lemma {:induction false} FullMatrixAt<C, P>(rows: seq<Row<C, P>>, columns: nat, i: nat, j: nat)
    requires WellFormed(rows, columns) && i < |rows| && j < columns
    ensures 0 <= i * columns + j < |FullMatrix(rows, columns)|
    ensures FullMatrix(rows, columns)[i * columns + j] == MatrixEntry(rows[i].cells[j], rows[i].proofs[j], i, j)
  {
    var n := |rows| - 1;
    MulDistributes(n, 1, columns);
    MulDistributes(i, 1, columns);
    MulMonotone(i + 1, |rows|, columns);
    if i < n {
      MulMonotone(i + 1, n, columns);
      FullMatrixAt(rows[..n], columns, i, j);
    }
  }

  // --- Grouping by row ---------------------------------------------------------------------------

  /** The entries of one row, in the order of the list. */
  function RowOf<C, P>(entries: seq<MatrixEntry<C, P>>, row: nat): (r: seq<MatrixEntry<C, P>>) {
    if entries == [] then [] else
      var last := entries[|entries| - 1];
      RowOf(entries[..|entries| - 1], row) + if last.rowIndex == row then [last] else []
  }

  ghost predicate HasRow<C, P>(entries: seq<MatrixEntry<C, P>>, row: nat) {
    exists i :: 0 <= i < |entries| && entries[i].rowIndex == row
  }

  /** The indices of the rows that occur, ascending. */
  function RowOrder<C, P>(entries: seq<MatrixEntry<C, P>>): (r: seq<nat>)
    ensures StrictlyAscending(r)
    ensures forall row: nat :: row in r <==> HasRow(entries, row)
  {
    if entries == [] then [] else
      var n := |entries| - 1;
      assert forall i | 0 <= i < n :: entries[..n][i] == entries[i];
      assert forall row: nat :: HasRow(entries, row) <==> HasRow(entries[..n], row) || row == entries[n].rowIndex;
      InsertKey(RowOrder(entries[..n]), entries[n].rowIndex)
  }

  /** The loop that fills a `BTreeMap` from row indices to entries. */
  method GroupByRow<C, P>(entries: seq<MatrixEntry<C, P>>)
    returns (order: seq<nat>, groups: map<nat, seq<MatrixEntry<C, P>>>)
    ensures order == RowOrder(entries)
    ensures forall row: nat | row in order :: row in groups && groups[row] == RowOf(entries, row)
  {
    hide RowOf, RowOrder, HasRow, InsertKey;
    order, groups := [], map[];
    NothingGrouped<C, P>();
    for n := 0 to |entries|
      invariant order == RowOrder(entries[..n])
      invariant forall row: nat :: row in groups <==> row in order
      invariant forall row: nat | row in groups :: groups[row] == RowOf(entries[..n], row)
    {
      var row := entries[n].rowIndex;
      GroupStep(entries, n);
      if row !in groups {
        NoEntries(entries[..n], row);
      }
      order := InsertKey(order, row);
      groups := groups[row := (if row in groups then groups[row] else []) + [entries[n]]];
    }
    assert entries[..|entries|] == entries;
  }

  lemma NothingGrouped<C, P>()
    ensures RowOrder<C, P>([]) == []
  {
  }

  lemma GroupStep<C, P>(entries: seq<MatrixEntry<C, P>>, n: nat)
    requires n < |entries|
    ensures RowOrder(entries[..n + 1]) == InsertKey(RowOrder(entries[..n]), entries[n].rowIndex)
    ensures forall row: nat ::
      RowOf(entries[..n + 1], row) == RowOf(entries[..n], row) + if entries[n].rowIndex == row then [entries[n]] else []
  {
    hide InsertKey;
    assert entries[..n + 1][..n] == entries[..n];
  }

  lemma {:induction false} NoEntries<C, P>(entries: seq<MatrixEntry<C, P>>, row: nat)
    requires !HasRow(entries, row)
    ensures RowOf(entries, row) == []
  {
    if entries != [] {
      NoEntries(entries[..|entries| - 1], row);
    }
  }

  /** The entries of a row are exactly those of the list with its index, in the order of the list. */
  lemma {:induction false} RowOfInOrder<C, P>(entries: seq<MatrixEntry<C, P>>, row: nat) returns (positions: seq<nat>)
    ensures StrictlyAscending(positions) && |RowOf(entries, row)| == |positions|
    ensures forall n: nat :: n in positions <==> n < |entries| && entries[n].rowIndex == row
    ensures forall i | 0 <= i < |positions| ::
      positions[i] < |entries| && RowOf(entries, row)[i] == entries[positions[i]]
  {
    hide RowOf;
    if entries == [] {
      positions := [];
      RowOfNothing<C, P>(row);
    } else {
      var last := |entries| - 1;
      var before := RowOfInOrder(entries[..last], row);
      RowOfOneMore(entries[..last], entries[last], row);
      assert entries == entries[..last] + [entries[last]];
      AppendAscends(before, last);
      positions := if entries[last].rowIndex == row then before + [last] else before;
    }
  }

  function Unzip<C, P>(entries: seq<MatrixEntry<C, P>>): (r: Row<C, P>)
    ensures |r.cells| == |r.proofs| == |entries|
  {
    Row(seq(|entries|, i requires 0 <= i < |entries| => entries[i].cell),
        seq(|entries|, i requires 0 <= i < |entries| => entries[i].kzgProof))
  }

  /** The rows of a matrix in ascending order, if each has exactly one entry per column. */
  function Regrouped<C, P>(entries: seq<MatrixEntry<C, P>>, order: seq<nat>, columns: nat):
    (r: Option<seq<Row<C, P>>>)
  {
    if order == [] then Some([]) else
      var n := |order| - 1;
      var rest, row := Regrouped(entries, order[..n], columns), RowOf(entries, order[n]);
      if rest.None? || |row| != columns then None else Some(rest.value + [Unzip(row)])
  }

  /** `construct_cells_and_kzg_proofs`. A row of the wrong length is an error. */
  method ConstructCellsAndKzgProofs<C, P>(fullMatrix: seq<MatrixEntry<C, P>>, columns: nat)
    returns (r: Option<seq<Row<C, P>>>)
    ensures r == Regrouped(fullMatrix, RowOrder(fullMatrix), columns)
  {
    hide RowOf, RowOrder;
    var order, groups := GroupByRow(fullMatrix);
    var rows := [];
    for n := 0 to |order|
      invariant Regrouped(fullMatrix, order[..n], columns) == Some(rows)
    {
      assert order[n] in order;
      var entries := groups[order[n]];
      assert order[..n + 1][..n] == order[..n];
      if |entries| != columns {
        RegroupFails(fullMatrix, order, columns, n + 1);
        return None;
      }
      rows := rows + [Unzip(entries)];
    }
    assert order[..|order|] == order;
    r := Some(rows);
  }

  /** Regrouping succeeds exactly when every row has one entry per column, and row `k` of the result has the cells and
      proofs of the `k`th row that occurs. */
  lemma {:induction false} RegroupedMeans<C, P>(entries: seq<MatrixEntry<C, P>>, order: seq<nat>, columns: nat)
    ensures Regrouped(entries, order, columns).Some? <==>
      forall k | 0 <= k < |order| :: |RowOf(entries, order[k])| == columns
    ensures Regrouped(entries, order, columns).Some? ==>
      var rows := Regrouped(entries, order, columns).value;
      |rows| == |order| && forall k | 0 <= k < |rows| ::
        && |rows[k].cells| == |rows[k].proofs| == |RowOf(entries, order[k])|
        && forall j | 0 <= j < |rows[k].cells| ::
             && rows[k].cells[j] == RowOf(entries, order[k])[j].cell
             && rows[k].proofs[j] == RowOf(entries, order[k])[j].kzgProof
  {
    hide RowOf;
    if order != [] {
      var n := |order| - 1;
      RegroupedMeans(entries, order[..n], columns);
      assert forall k | 0 <= k < n :: order[..n][k] == order[k];
    }
  }

  lemma {:induction false} RegroupFails<C, P>(entries: seq<MatrixEntry<C, P>>, order: seq<nat>, columns: nat, n: nat)
    requires n <= |order| && Regrouped(entries, order[..n], columns).None?
    ensures Regrouped(entries, order, columns).None?
    decreases |order|
  {
    hide RowOf;
    if n == |order| {
      assert order[..n] == order;
    } else {
      assert order[..|order| - 1][..n] == order[..n];
      RegroupFails(entries, order[..|order| - 1], columns, n);
    }
  }

  // --- Round trip --------------------------------------------------------------------------------

  lemma RowOfOneMore<C, P>(entries: seq<MatrixEntry<C, P>>, entry: MatrixEntry<C, P>, row: nat)
    ensures RowOf(entries + [entry], row) == RowOf(entries, row) + if entry.rowIndex == row then [entry] else []
  {
    assert (entries + [entry])[..|entries|] == entries;
  }

  lemma {:induction false} RowOfAppend<C, P>(a: seq<MatrixEntry<C, P>>, b: seq<MatrixEntry<C, P>>, row: nat)
    ensures RowOf(a + b, row) == RowOf(a, row) + RowOf(b, row)
  {
    hide RowOf;
    if b == [] {
      assert a + b == a;
      RowOfNothing<C, P>(row);
    } else {
      var n := |b| - 1;
      RowOfAppend(a, b[..n], row);
      RowOfOneMore(b[..n], b[n], row);
      RowOfOneMore(a + b[..n], b[n], row);
      assert b == b[..n] + [b[n]] && a + b == (a + b[..n]) + [b[n]];
    }
  }

  lemma {:induction false} RowOfOneRow<C, P>(entries: seq<MatrixEntry<C, P>>, index: nat, row: nat)
    requires forall i | 0 <= i < |entries| :: entries[i].rowIndex == index
    ensures RowOf(entries, row) == if row == index then entries else []
  {
    hide RowOf;
    if entries == [] {
      RowOfNothing<C, P>(row);
    } else {
      var n := |entries| - 1;
      RowOfOneRow(entries[..n], index, row);
      RowOfOneMore(entries[..n], entries[n], row);
      assert entries == entries[..n] + [entries[n]];
    }
  }

  lemma {:induction false} RowOfFullMatrix<C, P>(rows: seq<Row<C, P>>, columns: nat, row: nat)
    requires WellFormed(rows, columns)
    ensures RowOf(FullMatrix(rows, columns), row) == if row < |rows| then RowEntries(rows[row], row) else []
  {
    hide RowOf;
    if rows == [] {
      RowOfNothing<C, P>(row);
    } else {
      var n := |rows| - 1;
      RowOfFullMatrix(rows[..n], columns, row);
      RowOfAppend(FullMatrix(rows[..n], columns), RowEntries(rows[n], n), row);
      RowOfOneRow(RowEntries(rows[n], n), n, row);
    }
  }

  lemma RowOfNothing<C, P>(row: nat)
    ensures RowOf<C, P>([], row) == []
  {
  }

  lemma {:induction false} RowOfIsWithin<C, P>(entries: seq<MatrixEntry<C, P>>, row: nat)
    ensures RowOf(entries, row) != [] <==> HasRow(entries, row)
    ensures forall i | 0 <= i < |RowOf(entries, row)| ::
      RowOf(entries, row)[i] in entries && RowOf(entries, row)[i].rowIndex == row
  {
    if entries != [] {
      var n := |entries| - 1;
      RowOfIsWithin(entries[..n], row);
      assert forall i | 0 <= i < n :: entries[..n][i] == entries[i];
      assert HasRow(entries, row) <==> HasRow(entries[..n], row) || row == entries[n].rowIndex;
    }
  }

  lemma RowOrderOfFullMatrix<C, P>(rows: seq<Row<C, P>>, columns: nat)
    requires WellFormed(rows, columns) && columns > 0
    ensures RowOrder(FullMatrix(rows, columns)) == Range(|rows|)
  {
    hide FullMatrix, RowOf;
    var matrix := FullMatrix(rows, columns);
    forall row: nat ensures row in RowOrder(matrix) <==> row < |rows| {
      RowOfFullMatrix(rows, columns, row);
      RowOfIsWithin(matrix, row);
    }
    AscendingUnique(RowOrder(matrix), Range(|rows|));
  }

  lemma {:induction false} RegroupRange<C, P>(
    entries: seq<MatrixEntry<C, P>>, rows: seq<Row<C, P>>, columns: nat, n: nat)
    requires WellFormed(rows, columns) && n <= |rows|
    requires forall i | 0 <= i < |rows| :: RowOf(entries, i) == RowEntries(rows[i], i)
    ensures Regrouped(entries, Range(n), columns) == Some(rows[..n])
  {
    hide RowOf, Range;
    if n > 0 {
      RegroupRange(entries, rows, columns, n - 1);
      assert Range(n)[..n - 1] == Range(n - 1) && Range(n)[n - 1] == n - 1;
      assert rows[..n] == rows[..n - 1] + [rows[n - 1]];
      UnzipOfRow(rows[n - 1], n - 1);
    }
  }

  lemma UnzipOfRow<C, P>(row: Row<C, P>, index: nat)
    requires |row.cells| == |row.proofs|
    ensures Unzip(RowEntries(row, index)) == row
  {
  }

  /** Regrouping the full matrix returns the rows. */
  lemma RegroupOfFullMatrix<C, P>(rows: seq<Row<C, P>>, columns: nat)
    requires WellFormed(rows, columns) && columns > 0
    ensures var matrix := FullMatrix(rows, columns); Regrouped(matrix, RowOrder(matrix), columns) == Some(rows)
  {
    hide FullMatrix, RowOf, Regrouped, RowOrder, Range;
    var matrix := FullMatrix(rows, columns);
    RowOrderOfFullMatrix(rows, columns);
    forall i | 0 <= i < |rows| ensures RowOf(matrix, i) == RowEntries(rows[i], i) {
      RowOfFullMatrix(rows, columns, i);
    }
    RegroupRange(matrix, rows, columns, |rows|);
    assert rows[..|rows|] == rows;
  }
}
