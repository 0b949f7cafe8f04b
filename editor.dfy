/**
 * The collation editor's state: the loaded rows, the column count, the
 * collation being edited and the store it is saved to. Every edit hands new
 * rows to `handleUpdateData`, which saves their alignment table to the
 * store; the effect on the collation then reloads the rows from that table,
 * stamping every token afresh.
 */
module Editor {
  import opened Wrappers
  import opened Schema
  import opened Grid
  import opened Codec
  import Columns
  import Rows
  import Relocate
  import Store

  /** The rows the reload effect computes from the table saved for `newData`. */
  function Reload(newData: seq<Row>, firstId: nat): (rows: seq<Row>)
    requires newData != []
    ensures |rows| == |newData|
  {
    EditRowsFrom(GetAlignmentTable(newData).value, 0, firstId)
  }

  /** The table saved for non-empty rows always loads, giving `Reload`. */
  lemma ReloadLoads(newData: seq<Row>, firstId: nat)
    requires newData != []
    ensures EditRows(GetAlignmentTable(newData).value, firstId) == Some(Reload(newData, firstId))
  {
    AlignmentTableShape(newData);
  }

  /**
   * Saving and reloading always succeeds on non-empty rows and restores what
   * every edit relies on: each token sits where its fields say, ids are
   * unique, every row has as many cells as the longest row had, and every
   * cell holds the same tokens as before, `[]` where a row was short.
   */
  lemma ReloadPlaced(newData: seq<Row>, firstId: nat)
    requires newData != []
    ensures var rows := Reload(newData, firstId);
      && EditRows(GetAlignmentTable(newData).value, firstId) == Some(rows)
      && Placed(rows) && Grid.UniqueIds(rows) && Rectangular(rows, MaxCols(newData))
      && (forall r :: 0 <= r < |rows| ==> rows[r].siglum == newData[r].siglum)
      && (forall r, c :: 0 <= r < |rows| && 0 <= c < MaxCols(newData) ==>
            StripCell(rows[r].cells[c]) == StripCell(CellAt(newData[r], c)))
  {
    var t := GetAlignmentTable(newData).value;
    var rows := Reload(newData, firstId);
    assert Loadable(t) && |t.table| == MaxCols(newData) && |t.witnesses| == |newData| by {
      AlignmentTableShape(newData);
    }
    EditRowsPlaced(t, firstId);
    LoadedIdsDistinct(t, firstId);
    forall r, c | 0 <= r < |rows| && 0 <= c < MaxCols(newData)
      ensures StripCell(rows[r].cells[c]) == StripCell(CellAt(newData[r], c))
    {
      assert t.table[c][r] == CellAt(newData[r], c);
    }
    forall r | 0 <= r < |rows| ensures rows[r].siglum == newData[r].siglum {
      assert t.witnesses[r] == newData[r].siglum;
    }
  }

  /** What the editor keeps between edits holds of every reload. */
  lemma ReloadValid(newData: seq<Row>, firstId: nat)
    requires newData != []
    ensures var rows := Reload(newData, firstId);
      Placed(rows) && Grid.UniqueIds(rows) && Rectangular(rows, MaxCols(newData)) && InReadingOrder(rows)
  {
    ReloadPlaced(newData, firstId);
    LoadedInReadingOrder(GetAlignmentTable(newData).value, firstId);
  }

  /** Reloading rectangular rows gives every row the same tokens in the same order, apart from the editor fields. */
  lemma ReloadReads(newData: seq<Row>, firstId: nat, n: nat)
    requires newData != [] && Rectangular(newData, n)
    ensures var rows := Reload(newData, firstId);
      forall r :: 0 <= r < |rows| ==> StripCell(Flatten(rows[r].cells)) == StripCell(Flatten(newData[r].cells))
  {
    var rows := Reload(newData, firstId);
    ReloadPlaced(newData, firstId);
    MaxColsRectangular(newData, n);
    forall r | 0 <= r < |rows| ensures StripCell(Flatten(rows[r].cells)) == StripCell(Flatten(newData[r].cells)) {
      forall c | 0 <= c < n ensures StripCell(rows[r].cells[c]) == StripCell(newData[r].cells[c]) {
        assert CellAt(newData[r], c) == newData[r].cells[c];
      }
      StripFlatten(rows[r].cells, newData[r].cells);
    }
  }

  /**
   * A token drop followed by the save and the reload keeps every row's
   * tokens, in reading order, apart from the editor fields: only the cell
   * boundaries of the dragged token's row move.
   */
  lemma DragKeepsReading(data: seq<Row>, e: Relocate.Drag, firstId: nat, n: nat)
    requires data != [] && Relocate.Fits(data, e) && Relocate.Moves(e)
    requires Placed(data) && Grid.UniqueIds(data) && InReadingOrder(data) && Rectangular(data, n)
    ensures var rows := Reload(Relocate.Relocated(data, e), firstId);
      forall r :: 0 <= r < |rows| ==> StripCell(Flatten(rows[r].cells)) == StripCell(Flatten(data[r].cells))
  {
    Relocate.RelocatedRowsRead(data, e);
    RelocatedRectangular(data, e, n);
    ReloadReadsAs(Relocate.Relocated(data, e), data, firstId, n);
  }

  /** A drop keeps the grid rectangular. */
  lemma RelocatedRectangular(data: seq<Row>, e: Relocate.Drag, n: nat)
    requires Relocate.Fits(data, e) && Rectangular(data, n)
    ensures Rectangular(Relocate.Relocated(data, e), n)
  {
  }

  /** Reloading rows that read like `data` gives rows reading like `data`, apart from the editor fields. */
  lemma ReloadReadsAs(newData: seq<Row>, data: seq<Row>, firstId: nat, n: nat)
    requires newData != [] && Rectangular(newData, n) && |newData| == |data|
    requires forall r :: 0 <= r < |data| ==> Flatten(newData[r].cells) == Flatten(data[r].cells)
    ensures var rows := Reload(newData, firstId);
      forall r :: 0 <= r < |rows| ==> StripCell(Flatten(rows[r].cells)) == StripCell(Flatten(data[r].cells))
  {
    ReloadReads(newData, firstId, n);
  }

  /** Rows that all have `n` cells have `n` as their longest. */
  lemma MaxColsRectangular(rows: seq<Row>, n: nat)
    requires rows != [] && Rectangular(rows, n)
    ensures MaxCols(rows) == n
  {
  }

  /**
   * The finding in `handleDeleteColumn`, seen from the save: on a grid of
   * `n` columns, deleting any column but the last saves a table that still
   * has `n` columns, while the column count drops to `n - 1`.
   */
  lemma DeleteAsWrittenSavesStaleColumn(data: seq<Row>, n: nat, col: nat)
    requires data != [] && Rectangular(data, n) && col + 1 < n
    ensures |GetAlignmentTable(Columns.DeletedRowsAsWritten(data, col)).value.table| == n
    ensures |GetAlignmentTable(Columns.DeletedRows(data, col)).value.table| == n - 1
  {
    var w := Columns.DeletedRowsAsWritten(data, col);
    var d := Columns.DeletedRows(data, col);
    assert Rectangular(w, n);
    assert Rectangular(d, n - 1);
    MaxColsRectangular(w, n);
    MaxColsRectangular(d, n - 1);
  }

  /** A column that is empty in every saved row is empty after the reload, so it may be deleted. */
  lemma ReloadEmptyColumn(newData: seq<Row>, firstId: nat, c: nat)
    requires newData != [] && c < MaxCols(newData)
    requires forall r :: 0 <= r < |newData| ==> CellAt(newData[r], c) == []
    ensures !Columns.DisableDeleteColumn(FlattenedTokens(Reload(newData, firstId)), c)
  {
    var rows := Reload(newData, firstId);
    ReloadPlaced(newData, firstId);
    forall r | 0 <= r < |rows| ensures CellAt(rows[r], c) == [] {
      assert StripCell(rows[r].cells[c]) == StripCell(CellAt(newData[r], c));
    }
    Columns.DisableIffOccupied(rows, c);
  }

  /** Inserting a column into a rectangular grid gives a rectangular grid one column wider, the new column empty. */
  lemma InsertedShape(data: seq<Row>, col: nat, n: nat, side: Columns.Side)
    requires data != [] && Rectangular(data, n) && col < n
    ensures var newData := Columns.InsertedRows(data, col, n, side);
      && Rectangular(newData, n + 1) && MaxCols(newData) == n + 1
      && forall r :: 0 <= r < |newData| ==> CellAt(newData[r], if side == Columns.Right then col + 1 else col) == []
  {
    var newData := Columns.InsertedRows(data, col, n, side);
    assert Rectangular(newData, n + 1);
    MaxColsRectangular(newData, n + 1);
  }

  /** A moved row sequence is still rectangular. */
  lemma MovedRectangular(s: seq<Row>, from: nat, to: nat, n: nat)
    requires from < |s| && to < |s| && Rectangular(s, n)
    ensures Rectangular(Rows.Moved(s, from, to), n)
  {
    forall k | 0 <= k < |s| ensures |Rows.Moved(s, from, to)[k].cells| == n {
      Rows.MovedAt(s, from, to, k);
    }
  }

  class Editor {
    /** The rows on screen (`data`). */
    var data: seq<Row>
    /** The column count (`numCols`). */
    var numCols: nat
    /** Where the id supply stands. */
    var nextId: nat
    /** The collation being edited, as last saved. */
    var collation: Collation
    /** The collation store. */
    const store: Store.CollationStore

    /**
     * What holds between edits: the tokens sit where their fields say, with
     * unique ids, in a grid `numCols` wide, each row read in increasing
     * order; the store holds the collation being edited under its id.
     */
    ghost predicate Valid()
      reads this, store
    {
      && Placed(data) && Grid.UniqueIds(data) && Rectangular(data, numCols) && InReadingOrder(data)
      && Store.Find(store.collations, collation.id) == Some(collation)
    }

    /** Opening the collation the store holds under its id, with a table that loads. */
    constructor (store: Store.CollationStore, collation: Collation, firstId: nat)
      requires Store.Find(store.collations, collation.id) == Some(collation)
      requires collation.alignmentTable.Some? && Loadable(collation.alignmentTable.value)
      ensures Valid()
      ensures this.store == store && this.collation == collation
      ensures numCols == |collation.alignmentTable.value.table|
      ensures EditRows(collation.alignmentTable.value, firstId) == Some(data)
    {
      var t := collation.alignmentTable.value;
      var rows := GetReactTableData(t, firstId);
      EditRowsPlaced(t, firstId);
      LoadedIdsDistinct(t, firstId);
      LoadedInReadingOrder(t, firstId);
      this.store := store;
      this.collation := collation;
      data := rows.value;
      numCols := |t.table|;
      nextId := firstId + |FlattenedTokens(rows.value)|;
    }

    /**
     * `handleUpdateData` and the reload it triggers: save the table of the
     * new rows to the store, then load the rows back from it.
     */
    method Save(newData: seq<Row>)
      requires newData != []
      requires Store.Find(store.collations, collation.id) == Some(collation)
      modifies this, store
      ensures collation == old(collation).(alignmentTable := GetAlignmentTable(newData))
      ensures store.collations == Store.Replace(old(store.collations), collation)
      ensures Store.Find(store.collations, collation.id) == Some(collation)
      ensures data == Reload(newData, old(nextId))
      ensures numCols == old(numCols)
    {
      var t := GetAlignmentTable(newData);
      UpdateCollation(t);
      ReloadLoads(newData, nextId);
      var rows := GetReactTableData(t.value, nextId);
      data := rows.value;
      nextId := nextId + |FlattenedTokens(rows.value)|;
    }

    /** `updateCollation({ ...collation, alignmentTable })`: the store's entry for the collation gets the new table. */
    method UpdateCollation(t: Option<Table>)
      requires Store.Find(store.collations, collation.id) == Some(collation)
      modifies this, store
      ensures collation == old(collation).(alignmentTable := t)
      ensures store.collations == Store.Replace(old(store.collations), collation)
      ensures Store.Find(store.collations, collation.id) == Some(collation)
      ensures data == old(data) && numCols == old(numCols) && nextId == old(nextId)
    {
      var saved := collation.(alignmentTable := t);
      Store.FindUpdated(store.collations, collation, saved);
      collation := saved;
      store.UpdateCollation(saved);
    }

    /** Saving rows `n` columns wide and reloading them keeps what holds between edits. */
    method Commit(newData: seq<Row>, n: nat)
      requires newData != [] && Rectangular(newData, n)
      requires Store.Find(store.collations, collation.id) == Some(collation)
      modifies this, store
      ensures Valid() && numCols == n
      ensures data == Reload(newData, old(nextId))
      ensures collation == old(collation).(alignmentTable := GetAlignmentTable(newData))
      ensures store.collations == Store.Replace(old(store.collations), collation)
    {
      MaxColsRectangular(newData, n);
      ReloadValid(newData, nextId);
      Save(newData);
      numCols := n;
    }

    /**
     * Inserting a column: one more column, every token where it was
     * relative to the others, and the new empty column can be deleted again.
     */
    method InsertColumn(col: nat, side: Columns.Side)
      requires Valid() && col < numCols && data != []
      modifies this, store
      ensures Valid() && numCols == old(numCols) + 1
      ensures data == Reload(Columns.InsertedRows(old(data), col, old(numCols), side), old(nextId))
      ensures collation == old(collation).(alignmentTable := GetAlignmentTable(Columns.InsertedRows(old(data), col, old(numCols), side)))
      ensures store.collations == Store.Replace(old(store.collations), collation)
      ensures !Columns.DisableDeleteColumn(FlattenedTokens(data), if side == Columns.Right then col + 1 else col)
    {
      var newData := Columns.InsertColumn(data, col, numCols, side);
      var n := numCols + 1;
      InsertedShape(data, col, numCols, side);
      var newCol := if side == Columns.Right then col + 1 else col;
      ReloadEmptyColumn(newData, nextId, newCol);
      Commit(newData, n);
    }

    /**
     * Deleting a column: nothing when some token is in it; otherwise one
     * column fewer and the rows reloaded from the rows without it.
     */
    method DeleteColumn(col: nat)
      requires Valid() && col < numCols && data != []
      modifies this, store
      ensures Valid()
      ensures Columns.DisableDeleteColumn(FlattenedTokens(old(data)), col) ==> unchanged(this) && unchanged(store)
      ensures !Columns.DisableDeleteColumn(FlattenedTokens(old(data)), col) ==>
        && data == Reload(Columns.DeletedRows(old(data), col), old(nextId)) && numCols == old(numCols) - 1
        && collation == old(collation).(alignmentTable := GetAlignmentTable(Columns.DeletedRows(old(data), col)))
        && store.collations == Store.Replace(old(store.collations), collation)
    {
      var newData := Columns.DeleteColumn(data, col);
      if newData.None? {
        return;
      }
      assert Rectangular(newData.value, numCols - 1);
      Commit(newData.value, numCols - 1);
    }

    /** Dragging row `dragging` onto row `hovered` (the guard as intended). */
    method MoveRow(hovered: Option<nat>, dragging: Option<nat>)
      requires Valid() && data != []
      requires hovered.Some? ==> hovered.value < |data|
      requires dragging.Some? ==> dragging.value < |data|
      modifies this, store
      ensures Valid() && numCols == old(numCols)
      ensures hovered.None? || dragging.None? ==> unchanged(this) && unchanged(store)
      ensures hovered.Some? && dragging.Some? ==>
        && data == Reload(Rows.Moved(old(data), dragging.value, hovered.value), old(nextId))
        && collation == old(collation).(alignmentTable := GetAlignmentTable(Rows.Moved(old(data), dragging.value, hovered.value)))
        && store.collations == Store.Replace(old(store.collations), collation)
    {
      var a := new Row[|data|](i requires 0 <= i < |data| reads this => data[i]);
      assert a[..] == data;
      Rows.RowDragEnd(a, hovered, dragging);
      if hovered.Some? && dragging.Some? {
        MovedRectangular(data, dragging.value, hovered.value, numCols);
        Commit(a[..], numCols);
      }
    }

    /** Dropping a token on a column of its row, then saving and reloading. */
    method DragToken(e: Relocate.Drag)
      requires Valid() && Relocate.Fits(data, e) && data != []
      modifies this, store
      ensures Valid() && numCols == old(numCols)
      ensures |data| == |old(data)|
      ensures forall r :: 0 <= r < |data| ==> StripCell(Flatten(data[r].cells)) == StripCell(Flatten(old(data)[r].cells))
      ensures !Relocate.Moves(e) ==> unchanged(this) && unchanged(store)
      ensures Relocate.Moves(e) ==>
        && data == Reload(Relocate.Relocated(old(data), e), old(nextId))
        && collation == old(collation).(alignmentTable := GetAlignmentTable(Relocate.Relocated(old(data), e)))
        && store.collations == Store.Replace(old(store.collations), collation)
    {
      var newData := Relocate.DragEnd(data, e);
      if newData.Some? {
        RelocatedRectangular(data, e, numCols);
        DragKeepsReading(data, e, nextId, numCols);
        Commit(newData.value, numCols);
      }
    }
  }
}
