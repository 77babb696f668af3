/** Reconstructing all data column sidecars of a block from half of them. */
module Reconstruction {
  import opened Results
  import opened Arithmetic
  import opened Sequences
  import opened PeerDas

  // --- Recovering the matrix ---------------------------------------------------------------------

  /** Recovery of one row by the KZG library, from column indices and the cells there. */
  type Recover<!C, !P> = (seq<nat>, seq<C>) -> Option<Row<C, P>>

  /** The library returns vectors with one element per column. */
  ghost predicate YieldsRows<C(!new), P>(recover: Recover<C, P>, columns: nat) {
    forall indices: seq<nat>, cells: seq<C> | recover(indices, cells).Some? ::
      |recover(indices, cells).value.cells| == |recover(indices, cells).value.proofs| == columns
  }

  function ColumnIndices<C, P>(entries: seq<MatrixEntry<C, P>>): (r: seq<nat>)
    ensures |r| == |entries| && forall i | 0 <= i < |r| :: r[i] == entries[i].columnIndex
  {
    seq(|entries|, i requires 0 <= i < |entries| => entries[i].columnIndex)
  }

  function Cells<C, P>(entries: seq<MatrixEntry<C, P>>): (r: seq<C>)
    ensures |r| == |entries| && forall i | 0 <= i < |r| :: r[i] == entries[i].cell
  {
    seq(|entries|, i requires 0 <= i < |entries| => entries[i].cell)
  }

  function RecoverRow<C, P>(entries: seq<MatrixEntry<C, P>>, row: nat, recover: Recover<C, P>): (r: Option<Row<C, P>>) {
    recover(ColumnIndices(RowOf(entries, row)), Cells(RowOf(entries, row)))
  }

  /** The recovered rows, if all of them can be recovered. */
  function RecoverRows<C, P>(entries: seq<MatrixEntry<C, P>>, order: seq<nat>, recover: Recover<C, P>):
    (r: Option<seq<Row<C, P>>>)
  {
    if order == [] then Some([]) else
      var n := |order| - 1;
      var rest, row := RecoverRows(entries, order[..n], recover), RecoverRow(entries, order[n], recover);
      if rest.None? || row.None? then None else Some(rest.value + [row.value])
  }

  /** Recovery succeeds exactly when it does for every row that occurs, from the column indices and cells of its
      entries, and the `k`th recovered row is that of the `k`th row that occurs. */
  lemma {:induction false} RecoverRowsMeans<C, P>(
    entries: seq<MatrixEntry<C, P>>, order: seq<nat>, recover: Recover<C, P>)
    ensures RecoverRows(entries, order, recover).Some? <==> forall k | 0 <= k < |order| ::
      recover(ColumnIndices(RowOf(entries, order[k])), Cells(RowOf(entries, order[k]))).Some?
    ensures RecoverRows(entries, order, recover).Some? ==>
      var rows := RecoverRows(entries, order, recover).value;
      |rows| == |order| && forall k | 0 <= k < |order| ::
        recover(ColumnIndices(RowOf(entries, order[k])), Cells(RowOf(entries, order[k]))) == Some(rows[k])
  {
    hide RowOf, ColumnIndices, Cells;
    if order != [] {
      var n := |order| - 1;
      RecoverRowsMeans(entries, order[..n], recover);
      assert forall k | 0 <= k < n :: order[..n][k] == order[k];
    }
  }

  lemma {:induction false} RecoverRowsWellFormed<C(!new), P>(
    entries: seq<MatrixEntry<C, P>>, order: seq<nat>, recover: Recover<C, P>, columns: nat)
    requires YieldsRows(recover, columns) && RecoverRows(entries, order, recover).Some?
    ensures WellFormed(RecoverRows(entries, order, recover).value, columns)
  {
    hide RowOf;
    if order != [] {
      RecoverRowsWellFormed(entries, order[..|order| - 1], recover, columns);
    }
  }

  /** `recover_matrix`: entries are grouped by row, and every row is recovered on its own. */
  method RecoverMatrix<C(!new), P>(partialMatrix: seq<MatrixEntry<C, P>>, columns: nat, recover: Recover<C, P>)
    returns (r: Option<seq<MatrixEntry<C, P>>>)
    requires YieldsRows(recover, columns)
    ensures var rows := RecoverRows(partialMatrix, RowOrder(partialMatrix), recover);
      && (r.Some? <==> rows.Some?)
      && (r.Some? ==> WellFormed(rows.value, columns) && r.value == FullMatrix(rows.value, columns))
  {
    hide RowOf, RowOrder, FullMatrix, YieldsRows, WellFormed;
    var order, groups := GroupByRow(partialMatrix);
    var rows := [];
    for n := 0 to |order|
      invariant RecoverRows(partialMatrix, order[..n], recover) == Some(rows)
    {
      assert order[n] in order;
      var entries := groups[order[n]];
      assert order[..n + 1][..n] == order[..n];
      var row := recover(ColumnIndices(entries), Cells(entries));
      if row.None? {
        RecoveryFails(partialMatrix, order, recover, n + 1);
        return None;
      }
      rows := rows + [row.value];
    }
    assert order[..|order|] == order;
    RecoverRowsWellFormed(partialMatrix, order, recover, columns);
    r := Some(FullMatrix(rows, columns));
  }

  lemma {:induction false} RecoveryFails<C, P>(
    entries: seq<MatrixEntry<C, P>>, order: seq<nat>, recover: Recover<C, P>, n: nat)
    requires n <= |order| && RecoverRows(entries, order[..n], recover).None?
    ensures RecoverRows(entries, order, recover).None?
    decreases |order|
  {
    hide RecoverRow;
    if n == |order| {
      assert order[..n] == order;
    } else {
      assert order[..|order| - 1][..n] == order[..n];
      RecoveryFails(entries, order[..|order| - 1], recover, n);
    }
  }

  // --- Recovery is correct -----------------------------------------------------------------------

  ghost predicate Distinct(indices: seq<nat>) {
    forall i, j | 0 <= i < j < |indices| :: indices[i] != indices[j]
  }

  /** Different columns, at least half of all. */
  ghost predicate Enough(indices: seq<nat>, columns: nat) {
    && Distinct(indices) && 2 * |indices| >= columns
    && forall i | 0 <= i < |indices| :: indices[i] < columns
  }

  function CellsAt<C, P>(row: Row<C, P>, indices: seq<nat>): (r: seq<C>)
    requires forall i | 0 <= i < |indices| :: indices[i] < |row.cells|
  {
    seq(|indices|, i requires 0 <= i < |indices| => row.cells[indices[i]])
  }

  /** Recovery returns the row whenever it is given enough of its cells, in whatever order. */
  ghost predicate Recovers<C, P>(recover: Recover<C, P>, row: Row<C, P>, columns: nat)
    requires |row.cells| == columns
  {
    forall indices: seq<nat> | Enough(indices, columns) :: recover(indices, CellsAt(row, indices)) == Some(row)
  }

  /** The entries lie in the matrix. */
  ghost predicate IsPartialOf<C, P>(entries: seq<MatrixEntry<C, P>>, rows: seq<Row<C, P>>, columns: nat)
    requires WellFormed(rows, columns)
  {
    forall i | 0 <= i < |entries| ::
      && entries[i].rowIndex < |rows| && entries[i].columnIndex < columns
      && entries[i].cell == rows[entries[i].rowIndex].cells[entries[i].columnIndex]
  }

  ghost predicate Recoverable<C, P>(
    entries: seq<MatrixEntry<C, P>>, rows: seq<Row<C, P>>, columns: nat, recover: Recover<C, P>)
    requires WellFormed(rows, columns)
  {
    && IsPartialOf(entries, rows, columns)
    && (forall i | 0 <= i < |rows| :: Recovers(recover, rows[i], columns))
    && (forall row: nat | HasRow(entries, row) :: Enough(ColumnIndices(RowOf(entries, row)), columns))
  }

  lemma RowIsRecovered<C, P>(
    entries: seq<MatrixEntry<C, P>>, rows: seq<Row<C, P>>, columns: nat, recover: Recover<C, P>, row: nat)
    requires WellFormed(rows, columns) && Recoverable(entries, rows, columns, recover) && HasRow(entries, row)
    ensures row < |rows| && RecoverRow(entries, row, recover) == Some(rows[row])
  {
    hide Recovers, Enough, RowOf;
    RowOfIsWithin(entries, row);
    var part := RowOf(entries, row);
    var indices := ColumnIndices(part);
    RowCells(entries, rows, columns, row);
    assert Cells(part) == CellsAt(rows[row], indices);
    RecoversAt(recover, rows[row], columns, indices);
  }

  lemma RecoversAt<C, P>(recover: Recover<C, P>, row: Row<C, P>, columns: nat, indices: seq<nat>)
    requires |row.cells| == columns && Recovers(recover, row, columns) && Enough(indices, columns)
    ensures recover(indices, CellsAt(row, indices)) == Some(row)
  {
  }

  lemma RowCells<C, P>(entries: seq<MatrixEntry<C, P>>, rows: seq<Row<C, P>>, columns: nat, row: nat)
    requires WellFormed(rows, columns) && IsPartialOf(entries, rows, columns) && HasRow(entries, row)
    ensures row < |rows|
    ensures forall i | 0 <= i < |RowOf(entries, row)| ::
      && RowOf(entries, row)[i].columnIndex < columns
      && RowOf(entries, row)[i].cell == rows[row].cells[RowOf(entries, row)[i].columnIndex]
  {
    hide RowOf;
    RowOfIsWithin(entries, row);
    forall i | 0 <= i < |RowOf(entries, row)|
      ensures
        && RowOf(entries, row)[i].columnIndex < columns
        && RowOf(entries, row)[i].cell == rows[row].cells[RowOf(entries, row)[i].columnIndex]
    {
      var e := RowOf(entries, row)[i];
      var k :| 0 <= k < |entries| && entries[k] == e;
    }
  }

  function SelectRows<C, P>(rows: seq<Row<C, P>>, order: seq<nat>): (r: seq<Row<C, P>>)
    requires forall k | 0 <= k < |order| :: order[k] < |rows|
  {
    seq(|order|, k requires 0 <= k < |order| => rows[order[k]])
  }

  /** Recovery returns the rows that occur, numbered anew from zero. */
  lemma {:induction false} RowsAreRecovered<C, P>(
    entries: seq<MatrixEntry<C, P>>, rows: seq<Row<C, P>>, columns: nat, recover: Recover<C, P>, order: seq<nat>)
    requires WellFormed(rows, columns) && Recoverable(entries, rows, columns, recover)
    requires forall k | 0 <= k < |order| :: HasRow(entries, order[k])
    ensures forall k | 0 <= k < |order| :: order[k] < |rows|
    ensures RecoverRows(entries, order, recover) == Some(SelectRows(rows, order))
  {
    hide Recoverable, RecoverRow, HasRow;
    if order == [] {
      assert SelectRows(rows, order) == [];
    } else {
      var n := |order| - 1;
      RowsAreRecovered(entries, rows, columns, recover, order[..n]);
      RowIsRecovered(entries, rows, columns, recover, order[n]);
      assert forall k | 0 <= k < n :: order[k] == order[..n][k];
      assert SelectRows(rows, order) == SelectRows(rows, order[..n]) + [rows[order[n]]];
    }
  }

  /** From enough cells of every row that occurs, listed in any order, the full matrix is recovered exactly when every
      row occurs. A row without entries is lost and the later ones move up. */
  lemma RecoveredIsFull<C, P>(
    entries: seq<MatrixEntry<C, P>>, rows: seq<Row<C, P>>, columns: nat, recover: Recover<C, P>)
    requires WellFormed(rows, columns) && columns > 0 && Recoverable(entries, rows, columns, recover)
    ensures var recovered := RecoverRows(entries, RowOrder(entries), recover);
      && recovered.Some? && WellFormed(recovered.value, columns)
      && (FullMatrix(recovered.value, columns) == FullMatrix(rows, columns) <==>
            forall row: nat | row < |rows| :: HasRow(entries, row))
  {
    hide Recoverable, RecoverRows, FullMatrix, HasRow, RowOrder, SelectRows;
    var order := RowOrder(entries);
    OrderHasRows(entries);
    RowsAreRecovered(entries, rows, columns, recover, order);
    SelectedWellFormed(rows, columns, order);
    if forall row: nat | row < |rows| :: HasRow(entries, row) {
      AllRowsRecovered(entries, rows, columns, recover);
    } else {
      var row: nat :| row < |rows| && !HasRow(entries, row);
      ShorterThanRange(order, |rows|, row);
      FewerRowsDiffer(SelectRows(rows, order), rows, columns);
    }
  }

  lemma OrderHasRows<C, P>(entries: seq<MatrixEntry<C, P>>)
    ensures forall k | 0 <= k < |RowOrder(entries)| :: HasRow(entries, RowOrder(entries)[k])
  {
    hide HasRow;
    var order := RowOrder(entries);
    assert forall k | 0 <= k < |order| :: order[k] in order;
  }

  lemma SelectedWellFormed<C, P>(rows: seq<Row<C, P>>, columns: nat, order: seq<nat>)
    requires WellFormed(rows, columns) && forall k | 0 <= k < |order| :: order[k] < |rows|
    ensures |SelectRows(rows, order)| == |order| && WellFormed(SelectRows(rows, order), columns)
  {
  }

  lemma FewerRowsDiffer<C, P>(a: seq<Row<C, P>>, b: seq<Row<C, P>>, columns: nat)
    requires WellFormed(a, columns) && WellFormed(b, columns) && columns > 0 && |a| < |b|
    ensures FullMatrix(a, columns) != FullMatrix(b, columns)
  {
    hide FullMatrix;
    MulMonotone(|a| + 1, |b|, columns);
    MulDistributes(|a|, 1, columns);
  }

  /** If one row has no entry, and of every other row there are enough, exactly that row is lost and the later ones move
      up by one. */
  lemma MissingRowMovesUp<C, P>(
    entries: seq<MatrixEntry<C, P>>, rows: seq<Row<C, P>>, columns: nat, recover: Recover<C, P>, missing: nat)
    requires WellFormed(rows, columns) && columns > 0 && Recoverable(entries, rows, columns, recover)
    requires missing < |rows| && forall row: nat | row < |rows| :: HasRow(entries, row) <==> row != missing
    ensures var recovered := rows[..missing] + rows[missing + 1..];
      && RecoverRows(entries, RowOrder(entries), recover) == Some(recovered)
      && WellFormed(recovered, columns) && FullMatrix(recovered, columns) != FullMatrix(rows, columns)
  {
    hide Recoverable, RecoverRows, HasRow, FullMatrix;
    var order, recovered := RowOrder(entries), rows[..missing] + rows[missing + 1..];
    OrderHasRows(entries);
    RowsAreRecovered(entries, rows, columns, recover, order);
    forall row: nat ensures row in order <==> row < |rows| && row != missing {
      if row in order {
        var k :| 0 <= k < |order| && order[k] == row;
      }
    }
    AllButOne(order, |rows|, missing);
    assert SelectRows(rows, order) == recovered;
    FewerRowsDiffer(recovered, rows, columns);
  }

  lemma AllButOne(order: seq<nat>, n: nat, missing: nat)
    requires StrictlyAscending(order) && missing < n
    requires forall row: nat :: row in order <==> row < n && row != missing
    ensures |order| == n - 1
    ensures forall k | 0 <= k < |order| :: order[k] == if k < missing then k else k + 1
  {
    var others := seq(n - 1, k requires k >= 0 => if k < missing then k else k + 1);
    forall row: nat ensures row in order <==> row in others {
      if row < n && row != missing {
        assert others[if row < missing then row else row - 1] == row;
      }
    }
    AscendingUnique(order, others);
  }

  /** Of two rows only the second is given, with all its cells. It is recovered as the first and only row. */
  lemma FirstRowIsLost<C, P>(rows: seq<Row<C, P>>, columns: nat, recover: Recover<C, P>)
    requires |rows| == 2 && WellFormed(rows, columns) && columns > 0
    requires forall i | 0 <= i < |rows| :: Recovers(recover, rows[i], columns)
    ensures var entries := RowEntries(rows[1], 1);
      && RecoverRows(entries, RowOrder(entries), recover) == Some([rows[1]])
      && FullMatrix([rows[1]], columns) != FullMatrix(rows, columns)
  {
    hide RecoverRows, RowOrder, FullMatrix, Recovers, RowOf;
    var entries := RowEntries(rows[1], 1);
    forall row: nat | row < |rows| ensures HasRow(entries, row) <==> row != 0 {
      assert row == 1 ==> entries[0].rowIndex == row;
    }
    RowOfOneRow(entries, 1, 1);
    forall row: nat | HasRow(entries, row) ensures Enough(ColumnIndices(RowOf(entries, row)), columns) {
      assert row == 1;
    }
    MissingRowMovesUp(entries, rows, columns, recover, 0);
    assert rows[..0] + rows[1..] == [rows[1]];
  }

  lemma {:induction false} ShorterThanRange(order: seq<nat>, n: nat, missing: nat)
    requires StrictlyAscending(order) && missing < n && missing !in order
    requires forall k | 0 <= k < |order| :: order[k] < n
    ensures |order| < n
  {
    AscendingIsShort(order, |order|, n, missing);
  }

  /** The first `k` elements are at most as many as the numbers below the next one, without the missing one. */
  lemma {:induction false} AscendingIsShort(order: seq<nat>, k: nat, bound: nat, missing: nat)
    requires StrictlyAscending(order) && k <= |order| && missing !in order
    requires forall i | 0 <= i < k :: order[i] < bound
    ensures k <= if missing < bound then bound - 1 else bound
  {
    if k > 0 {
      assert order[k - 1] in order;
      AscendingIsShort(order, k - 1, order[k - 1], missing);
    }
  }

  // --- Sidecars ----------------------------------------------------------------------------------

  datatype Sidecar<C, P> = Sidecar(index: nat, column: seq<C>, kzgProofs: seq<P>)

  /** Sidecar `j` holds cell and proof `j` of every row. */
  function SidecarOf<C, P>(rows: seq<Row<C, P>>, columns: nat, j: nat): (r: Sidecar<C, P>)
    requires WellFormed(rows, columns) && j < columns
  {
    Sidecar(j, seq(|rows|, i requires 0 <= i < |rows| => rows[i].cells[j]),
            seq(|rows|, i requires 0 <= i < |rows| => rows[i].proofs[j]))
  }

  function Sidecars<C, P>(rows: seq<Row<C, P>>, columns: nat): (r: seq<Sidecar<C, P>>)
    requires WellFormed(rows, columns)
  {
    seq(columns, j requires 0 <= j < columns => SidecarOf(rows, columns, j))
  }

  /** The loop over columns of the sidecar builders. The number of rows must be that of the block's commitments. */
  method GetDataColumnSidecars<C, P>(rows: seq<Row<C, P>>, columns: nat, blobCount: nat)
    returns (r: Option<seq<Sidecar<C, P>>>)
    requires WellFormed(rows, columns)
    ensures r == if |rows| == blobCount then Some(Sidecars(rows, columns)) else None
    ensures r.Some? ==> |r.value| == columns && forall j | 0 <= j < columns ::
      && r.value[j].index == j && |r.value[j].column| == |r.value[j].kzgProofs| == |rows|
      && forall i | 0 <= i < |rows| ::
           r.value[j].column[i] == rows[i].cells[j] && r.value[j].kzgProofs[i] == rows[i].proofs[j]
  {
    if |rows| != blobCount {
      return None;
    }
    var sidecars := [];
    for columnIndex := 0 to columns
      invariant |sidecars| == columnIndex
      invariant forall j | 0 <= j < columnIndex :: sidecars[j] == SidecarOf(rows, columns, j)
    {
      var column, kzgProofs := [], [];
      for rowIndex := 0 to blobCount
        invariant |column| == |kzgProofs| == rowIndex
        invariant forall i | 0 <= i < rowIndex ::
          column[i] == rows[i].cells[columnIndex] && kzgProofs[i] == rows[i].proofs[columnIndex]
      {
        column := column + [rows[rowIndex].cells[columnIndex]];
        kzgProofs := kzgProofs + [rows[rowIndex].proofs[columnIndex]];
      }
      assert column == SidecarOf(rows, columns, columnIndex).column;
      assert kzgProofs == SidecarOf(rows, columns, columnIndex).kzgProofs;
      sidecars := sidecars + [Sidecar(columnIndex, column, kzgProofs)];
    }
    assert sidecars == Sidecars(rows, columns);
    r := Some(sidecars);
  }

  /** `compute_matrix_for_data_column_sidecar`. Cells without a proof and proofs without a cell are dropped. */
  function SidecarMatrix<C, P>(sidecar: Sidecar<C, P>): (r: seq<MatrixEntry<C, P>>) {
    var rows := Min(|sidecar.column|, |sidecar.kzgProofs|);
    seq(rows, i requires 0 <= i < rows => MatrixEntry(sidecar.column[i], sidecar.kzgProofs[i], i, sidecar.index))
  }

  /** A sidecar contributes one entry per row for which it has a cell and a proof. */
  lemma SidecarMatrixAt<C, P>(sidecar: Sidecar<C, P>)
    ensures |SidecarMatrix(sidecar)| ==
      if |sidecar.column| <= |sidecar.kzgProofs| then |sidecar.column| else |sidecar.kzgProofs|
    ensures forall i | 0 <= i < |SidecarMatrix(sidecar)| ::
      && SidecarMatrix(sidecar)[i].rowIndex == i && SidecarMatrix(sidecar)[i].columnIndex == sidecar.index
      && SidecarMatrix(sidecar)[i].cell == sidecar.column[i]
      && SidecarMatrix(sidecar)[i].kzgProof == sidecar.kzgProofs[i]
  {
  }

  function PartialMatrix<C, P>(sidecars: seq<Sidecar<C, P>>): (r: seq<MatrixEntry<C, P>>)
  {
    if sidecars == [] then [] else
      PartialMatrix(sidecars[..|sidecars| - 1]) + SidecarMatrix(sidecars[|sidecars| - 1])
  }

  /** The reconstruction task: from the sidecars at hand to all sidecars of the block. It does not start with fewer
      than half of them. */
  method Reconstruct<C(!new), P>(available: seq<Sidecar<C, P>>, columns: nat, blobCount: nat, recover: Recover<C, P>)
    returns (r: Option<seq<Sidecar<C, P>>>)
    requires YieldsRows(recover, columns) && columns > 0
    ensures var partialMatrix := PartialMatrix(available);
      var recovered := RecoverRows(partialMatrix, RowOrder(partialMatrix), recover);
      && (recovered.Some? ==> WellFormed(recovered.value, columns))
      && r == if |available| * 2 >= columns && recovered.Some? && |recovered.value| == blobCount
              then Some(Sidecars(recovered.value, columns)) else None
    ensures r.Some? ==>
      var partialMatrix := PartialMatrix(available);
      var rows := RecoverRows(partialMatrix, RowOrder(partialMatrix), recover).value;
      |r.value| == columns && forall j | 0 <= j < columns ::
        && r.value[j].index == j && |r.value[j].column| == |r.value[j].kzgProofs| == |rows|
        && forall i | 0 <= i < |rows| ::
             r.value[j].column[i] == rows[i].cells[j] && r.value[j].kzgProofs[i] == rows[i].proofs[j]
  {
    hide RowOrder, RowOf, Sidecars, FullMatrix, Regrouped, YieldsRows, RecoverRows;
    if |available| * 2 < columns {
      if RecoverRows(PartialMatrix(available), RowOrder(PartialMatrix(available)), recover).Some? {
        RecoverRowsWellFormed(PartialMatrix(available), RowOrder(PartialMatrix(available)), recover, columns);
      }
      return None;
    }
    var partialMatrix := [];
    for n := 0 to |available|
      invariant partialMatrix == PartialMatrix(available[..n])
    {
      assert available[..n + 1][..n] == available[..n];
      partialMatrix := partialMatrix + SidecarMatrix(available[n]);
    }
    assert available[..|available|] == available;
    var fullMatrix := RecoverMatrix(partialMatrix, columns, recover);
    if fullMatrix.None? {
      return None;
    }
    var rows := ConstructCellsAndKzgProofs(fullMatrix.value, columns);
    ghost var recovered := RecoverRows(partialMatrix, RowOrder(partialMatrix), recover).value;
    RegroupOfFullMatrix(recovered, columns);
    r := GetDataColumnSidecars(rows.value, columns, blobCount);
  }

  // --- Any half of the sidecars is enough --------------------------------------------------------

  function SidecarsAt<C, P>(rows: seq<Row<C, P>>, columns: nat, indices: seq<nat>): (r: seq<Sidecar<C, P>>)
    requires WellFormed(rows, columns) && forall k | 0 <= k < |indices| :: indices[k] < columns
    ensures forall k | 0 <= k < |r| :: |r[k].column| == |r[k].kzgProofs| == |rows|
  {
    seq(|indices|, k requires 0 <= k < |indices| => SidecarOf(rows, columns, indices[k]))
  }

  function EntryAt<C, P>(rows: seq<Row<C, P>>, columns: nat, i: nat, j: nat): (r: MatrixEntry<C, P>)
    requires WellFormed(rows, columns) && i < |rows| && j < columns
  {
    MatrixEntry(rows[i].cells[j], rows[i].proofs[j], i, j)
  }

  lemma {:induction false} RowOfPrefix<C, P>(rows: seq<Row<C, P>>, columns: nat, j: nat, n: nat, row: nat)
    requires WellFormed(rows, columns) && j < columns && n <= |rows|
    ensures RowOf(SidecarMatrix(SidecarOf(rows, columns, j))[..n], row) ==
      if row < n then [EntryAt(rows, columns, row, j)] else []
  {
    var matrix := SidecarMatrix(SidecarOf(rows, columns, j));
    if n > 0 {
      RowOfPrefix(rows, columns, j, n - 1, row);
      assert matrix[..n][..n - 1] == matrix[..n - 1];
      assert matrix[n - 1] == EntryAt(rows, columns, n - 1, j);
    }
  }

  /** A row of the partial matrix has one entry per sidecar, in the order of the sidecars. */
  lemma {:induction false} RowOfSidecars<C, P>(rows: seq<Row<C, P>>, columns: nat, indices: seq<nat>, row: nat)
    requires WellFormed(rows, columns) && forall k | 0 <= k < |indices| :: indices[k] < columns
    ensures var r := RowOf(PartialMatrix(SidecarsAt(rows, columns, indices)), row);
      && |r| == (if row < |rows| then |indices| else 0)
      && forall k | 0 <= k < |r| ::
           && r[k].rowIndex == row && r[k].columnIndex == indices[k]
           && r[k].cell == rows[row].cells[indices[k]] && r[k].kzgProof == rows[row].proofs[indices[k]]
  {
    hide RowOf;
    if indices == [] {
      RowOfNothing<C, P>(row);
    } else {
      var n := |indices| - 1;
      var sidecars := SidecarsAt(rows, columns, indices);
      assert sidecars[..n] == SidecarsAt(rows, columns, indices[..n]);
      RowOfSidecars(rows, columns, indices[..n], row);
      var matrix := SidecarMatrix(sidecars[n]);
      RowOfAppend(PartialMatrix(sidecars[..n]), matrix, row);
      RowOfPrefix(rows, columns, indices[n], |rows|, row);
      assert matrix[..|rows|] == matrix;
    }
  }

  lemma {:induction false} SidecarsArePartial<C, P>(rows: seq<Row<C, P>>, columns: nat, indices: seq<nat>)
    requires WellFormed(rows, columns) && forall k | 0 <= k < |indices| :: indices[k] < columns
    ensures IsPartialOf(PartialMatrix(SidecarsAt(rows, columns, indices)), rows, columns)
  {
    if indices != [] {
      var n := |indices| - 1;
      var sidecars := SidecarsAt(rows, columns, indices);
      assert sidecars[..n] == SidecarsAt(rows, columns, indices[..n]);
      SidecarsArePartial(rows, columns, indices[..n]);
      assert IsPartialOf(SidecarMatrix(sidecars[n]), rows, columns);
    }
  }

  lemma SidecarsAreRecoverable<C, P>(
    rows: seq<Row<C, P>>, columns: nat, indices: seq<nat>, recover: Recover<C, P>)
    requires WellFormed(rows, columns) && columns > 0 && Enough(indices, columns)
    requires forall i | 0 <= i < |rows| :: Recovers(recover, rows[i], columns)
    ensures var partialMatrix := PartialMatrix(SidecarsAt(rows, columns, indices));
      && Recoverable(partialMatrix, rows, columns, recover)
      && forall row: nat :: HasRow(partialMatrix, row) <==> row < |rows|
  {
    hide RowOf, PartialMatrix, HasRow, Recovers;
    var partialMatrix := PartialMatrix(SidecarsAt(rows, columns, indices));
    SidecarsArePartial(rows, columns, indices);
    forall row: nat
      ensures HasRow(partialMatrix, row) <==> row < |rows|
      ensures row < |rows| ==> ColumnIndices(RowOf(partialMatrix, row)) == indices
    {
      RowOfSidecars(rows, columns, indices, row);
      RowOfIsWithin(partialMatrix, row);
    }
  }

  /** Reconstruction from any half of the sidecars, in any order, returns all sidecars of the block. */
  method ReconstructFromHalf<C(!new), P>(
    rows: seq<Row<C, P>>, columns: nat, indices: seq<nat>, recover: Recover<C, P>)
    returns (r: Option<seq<Sidecar<C, P>>>)
    requires WellFormed(rows, columns) && columns > 0 && Enough(indices, columns) && YieldsRows(recover, columns)
    requires forall i | 0 <= i < |rows| :: Recovers(recover, rows[i], columns)
    ensures r == Some(Sidecars(rows, columns))
    ensures |r.value| == columns && forall j | 0 <= j < columns ::
      && r.value[j].index == j && |r.value[j].column| == |r.value[j].kzgProofs| == |rows|
      && forall i | 0 <= i < |rows| ::
           r.value[j].column[i] == rows[i].cells[j] && r.value[j].kzgProofs[i] == rows[i].proofs[j]
  {
    hide Recovers, YieldsRows, RowOf, PartialMatrix, RowOrder, RecoverRows, Sidecars, HasRow, FullMatrix, Recoverable;
    SidecarsAreRecoverable(rows, columns, indices, recover);
    var available := SidecarsAt(rows, columns, indices);
    ghost var partialMatrix := PartialMatrix(available);
    AllRowsRecovered(partialMatrix, rows, columns, recover);
    r := Reconstruct(available, columns, |rows|, recover);
  }

  lemma AllRowsRecovered<C, P>(
    entries: seq<MatrixEntry<C, P>>, rows: seq<Row<C, P>>, columns: nat, recover: Recover<C, P>)
    requires WellFormed(rows, columns) && Recoverable(entries, rows, columns, recover)
    requires forall row: nat | row < |rows| :: HasRow(entries, row)
    ensures RecoverRows(entries, RowOrder(entries), recover) == Some(rows)
  {
    hide Recoverable, RecoverRows, HasRow;
    var order := RowOrder(entries);
    OrderHasRows(entries);
    RowsAreRecovered(entries, rows, columns, recover, order);
    AscendingUnique(order, Range(|rows|));
    assert SelectRows(rows, order) == rows;
  }
}
