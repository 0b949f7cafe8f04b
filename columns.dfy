/**
 * Inserting and deleting a column of the editor's grid (`handleInsertColumn`,
 * `handleDeleteColumn` and its guard `disableDeleteColumn`). Both handlers
 * build each new row as a keyed object; here that object is a
 * `map<nat, Cell>` and, once its keys are shown to be `0..n-1`, the row's
 * cell sequence.
 */
module Columns {
  import opened Wrappers
  import opened Schema
  import opened Grid

  /** The two header-menu entries: insert to the left or to the right of the column. */
  datatype Side = Left | Right

  /** The cells of a row object whose keys are exactly `0..n-1`. */
  function Dense(m: map<nat, Cell>, n: nat): (cells: seq<Cell>)
    requires forall k :: 0 <= k < n ==> k in m
    ensures |cells| == n && forall k :: 0 <= k < n ==> cells[k] == m[k]
  {
    seq(n, k requires 0 <= k < n => m[k])
  }

  /**
   * One row after inserting an empty column beside column `col`: the cells
   * before `col` stay, the cells after it move up by one, and the new empty
   * cell goes to the left or the right of the original one. Only the first
   * `numCols` cells are carried over.
   */
  function Inserted(cells: seq<Cell>, col: nat, numCols: nat, side: Side): (r: seq<Cell>)
    requires col < numCols <= |cells|
    ensures |r| == numCols + 1
    ensures forall k :: 0 <= k < col ==> r[k] == cells[k]
    ensures forall k :: col + 1 < k <= numCols ==> r[k] == cells[k - 1]
    ensures side == Right ==> r[col] == cells[col] && r[col + 1] == []
    ensures side == Left ==> r[col] == [] && r[col + 1] == cells[col]
  {
    cells[..col] + (if side == Right then [cells[col], []] else [[], cells[col]]) + cells[col + 1..numCols]
  }

  /** The `data.map` body of `handleInsertColumn` for one row. */
  method InsertColumnRow(row: Row, col: nat, numCols: nat, side: Side) returns (newRow: Row)
    requires col < numCols <= |row.cells|
    ensures newRow == Row(row.siglum, Inserted(row.cells, col, numCols, side))
  {
    var cells := row.cells;
    var m: map<nat, Cell> := map[];
    for i := 0 to numCols
      invariant forall k: nat :: k in m ==> (k < col && k < i) || (col + 2 <= k <= i)
      invariant forall k: nat :: k < col && k < i ==> k in m && m[k] == cells[k]
      invariant forall k: nat :: col + 2 <= k <= i ==> k in m && m[k] == cells[k - 1]
    {
      if i < col {
        m := m[i := cells[i]];
      } else if i > col {
        m := m[i + 1 := cells[i]];
      }
    }
    if side == Right {
      m := m[col := cells[col]][col + 1 := []];
    } else {
      m := m[col := []][col + 1 := cells[col]];
    }
    var result := Dense(m, numCols + 1);
    ghost var ins := Inserted(cells, col, numCols, side);
    assert forall k :: 0 <= k < |result| ==> result[k] == ins[k];
    assert result == ins;
    newRow := Row(row.siglum, result);
  }

  /** Every row with the new column inserted. */
  function InsertedRows(data: seq<Row>, col: nat, numCols: nat, side: Side): (r: seq<Row>)
    requires col < numCols
    requires forall q :: 0 <= q < |data| ==> numCols <= |data[q].cells|
    ensures |r| == |data|
    ensures forall q :: 0 <= q < |data| ==> r[q] == Row(data[q].siglum, Inserted(data[q].cells, col, numCols, side))
  {
    seq(|data|, q requires 0 <= q < |data| => Row(data[q].siglum, Inserted(data[q].cells, col, numCols, side)))
  }

  /** `handleInsertColumn`'s new data: every row gets the new column. */
  method InsertColumn(data: seq<Row>, col: nat, numCols: nat, side: Side) returns (newData: seq<Row>)
    requires col < numCols
    requires forall r :: 0 <= r < |data| ==> numCols <= |data[r].cells|
    ensures newData == InsertedRows(data, col, numCols, side)
  {
    newData := [];
    for r := 0 to |data|
      invariant |newData| == r
      invariant forall q :: 0 <= q < r ==>
        newData[q] == Row(data[q].siglum, Inserted(data[q].cells, col, numCols, side))
    {
      var newRow := InsertColumnRow(data[r], col, numCols, side);
      newData := newData + [newRow];
    }
    assert forall q :: 0 <= q < |data| ==> newData[q] == InsertedRows(data, col, numCols, side)[q];
  }

  /** `{...t, collatexEditorTokenCol: c}` for every token of a cell. */
  function Recol(cell: Cell, c: nat): (r: Cell)
    ensures |r| == |cell|
    ensures forall i :: 0 <= i < |cell| ==> r[i] == cell[i].(col := Some(c))
  {
    seq(|cell|, i requires 0 <= i < |cell| => cell[i].(col := Some(c)))
  }

  /**
   * One row after deleting column `col` as intended: the cells before `col`
   * stay, every later cell moves down by one with its tokens' column field
   * rewritten to the new index, and the row has one cell fewer. A column the
   * row does not have leaves it unchanged.
   */
  function DeleteCells(cells: seq<Cell>, col: nat): (r: seq<Cell>)
    ensures col < |cells| ==> |r| == |cells| - 1
    ensures col >= |cells| ==> r == cells
    ensures forall k :: 0 <= k < col && k < |cells| ==> r[k] == cells[k]
    ensures forall k :: col <= k && k + 1 < |cells| ==> r[k] == Recol(cells[k + 1], k)
  {
    if col < |cells| then
      cells[..col] + seq(|cells| - col - 1, j requires 0 <= j < |cells| - col - 1 => Recol(cells[col + 1 + j], col + j))
    else cells
  }

  /**
   * One row after `handleDeleteColumn` as written: as `DeleteCells`, but the
   * old last key is never removed, so unless the deleted column was the last
   * one the row keeps its last cell twice, once recolumned one place down and
   * once unchanged at the end.
   */
  function DeleteCellsAsWritten(cells: seq<Cell>, col: nat): (r: seq<Cell>)
    ensures col + 1 < |cells| ==> r == DeleteCells(cells, col) + [cells[|cells| - 1]]
    ensures col + 1 >= |cells| ==> r == DeleteCells(cells, col)
  {
    if col + 1 < |cells| then DeleteCells(cells, col) + [cells[|cells| - 1]] else DeleteCells(cells, col)
  }

  /**
   * The keyed copy-and-shift of `handleDeleteColumn`: copy the row, delete key
   * `col`, then for every key above `col` in ascending order write its cell,
   * recolumned, one key lower.
   */
  method ShiftDown(cells: seq<Cell>, col: nat) returns (m: map<nat, Cell>)
    ensures forall k: nat :: k in m ==> (k < |cells| && k != col) || (col <= k && k + 2 <= |cells|)
    ensures forall k: nat :: col <= k && k + 2 <= |cells| ==> k in m && m[k] == Recol(cells[k + 1], k)
    ensures forall k: nat :: k < |cells| && k != col && !(col <= k && k + 2 <= |cells|) ==> k in m && m[k] == cells[k]
  {
    m := map k | 0 <= k < |cells| :: cells[k];
    m := m - {col};
    for key := 0 to |cells|
      invariant forall k: nat :: k in m ==> (k < |cells| && k != col) || (col <= k && k + 1 < key)
      invariant forall k: nat :: col <= k && k + 1 < key ==> k in m && m[k] == Recol(cells[k + 1], k)
      invariant forall k: nat :: k < |cells| && k != col && !(col <= k && k + 1 < key) ==> k in m && m[k] == cells[k]
    {
      if key > col {
        m := m[key - 1 := Recol(cells[key], key - 1)];
      }
    }
  }

  /** The `data.map` body of `handleDeleteColumn` for one row, as written. */
  method DeleteColumnRowAsWritten(row: Row, col: nat) returns (newRow: Row)
    ensures newRow == Row(row.siglum, DeleteCellsAsWritten(row.cells, col))
  {
    var cells := row.cells;
    var m := ShiftDown(cells, col);
    var n := if col + 1 == |cells| then |cells| - 1 else |cells|;
    var result := Dense(m, n);
    ghost var del := DeleteCellsAsWritten(cells, col);
    assert forall k :: 0 <= k < |result| ==> result[k] == del[k];
    assert result == del;
    newRow := Row(row.siglum, result);
  }

  /** The same with the stale last key removed, as the handler evidently intends. */
  method DeleteColumnRow(row: Row, col: nat) returns (newRow: Row)
    ensures newRow == Row(row.siglum, DeleteCells(row.cells, col))
  {
    var cells := row.cells;
    var m := ShiftDown(cells, col);
    if col + 1 < |cells| {
      m := m - {|cells| - 1};
    }
    var n := if col < |cells| then |cells| - 1 else |cells|;
    var result := Dense(m, n);
    ghost var del := DeleteCells(cells, col);
    assert forall k :: 0 <= k < |result| ==> result[k] == del[k];
    assert result == del;
    newRow := Row(row.siglum, result);
  }

  /** `disableDeleteColumn`: some token in `flattenedTokens` has column field `col`. */
  function DisableDeleteColumn(tokens: seq<Token>, col: nat): (r: bool)
    ensures r <==> exists i :: 0 <= i < |tokens| && tokens[i].col == Some(col)
  {
    if tokens == [] then false
    else tokens[0].col == Some(col) || DisableDeleteColumn(tokens[1..], col)
  }

  /** Every row with column `col` deleted. */
  function DeletedRows(data: seq<Row>, col: nat): (r: seq<Row>)
    ensures |r| == |data|
    ensures forall q :: 0 <= q < |data| ==> r[q] == Row(data[q].siglum, DeleteCells(data[q].cells, col))
  {
    seq(|data|, q requires 0 <= q < |data| => Row(data[q].siglum, DeleteCells(data[q].cells, col)))
  }

  /** Every row with column `col` deleted as written. */
  function DeletedRowsAsWritten(data: seq<Row>, col: nat): (r: seq<Row>)
    ensures |r| == |data|
    ensures forall q :: 0 <= q < |data| ==> r[q] == Row(data[q].siglum, DeleteCellsAsWritten(data[q].cells, col))
  {
    seq(|data|, q requires 0 <= q < |data| => Row(data[q].siglum, DeleteCellsAsWritten(data[q].cells, col)))
  }

  /**
   * `handleDeleteColumn`, with the stale last key removed: `None` when the
   * guard refuses (nothing happens), otherwise every row loses column `col`.
   */
  method DeleteColumn(data: seq<Row>, col: nat) returns (newData: Option<seq<Row>>)
    ensures newData.None? <==> DisableDeleteColumn(FlattenedTokens(data), col)
    ensures newData.Some? ==> newData.value == DeletedRows(data, col)
  {
    var tokens := CollectTokens(data);
    if DisableDeleteColumn(tokens, col) {
      return None;
    }
    var rows: seq<Row> := [];
    for r := 0 to |data|
      invariant |rows| == r
      invariant forall q :: 0 <= q < r ==> rows[q] == Row(data[q].siglum, DeleteCells(data[q].cells, col))
    {
      var newRow := DeleteColumnRow(data[r], col);
      rows := rows + [newRow];
    }
    assert forall q :: 0 <= q < |data| ==> rows[q] == DeletedRows(data, col)[q];
    newData := Some(rows);
  }

  /**
   * On a grid whose tokens sit where their fields say, the delete guard
   * refuses exactly when some row has a token in that column.
   */
  lemma DisableIffOccupied(rows: seq<Row>, col: nat)
    requires Placed(rows)
    ensures DisableDeleteColumn(FlattenedTokens(rows), col) <==>
      exists r :: 0 <= r < |rows| && col < |rows[r].cells| && rows[r].cells[col] != []
  {
    var f := FlattenedTokens(rows);
    if DisableDeleteColumn(f, col) {
      var i :| 0 <= i < |f| && f[i].col == Some(col);
      InFlattenedTokens(rows, f[i]);
      var r, c :| 0 <= r < |rows| && 0 <= c < |rows[r].cells| && f[i] in rows[r].cells[c];
      assert c == col;
    }
    if exists r :: 0 <= r < |rows| && col < |rows[r].cells| && rows[r].cells[col] != [] {
      var r :| 0 <= r < |rows| && col < |rows[r].cells| && rows[r].cells[col] != [];
      var tok := rows[r].cells[col][0];
      InFlattenedTokens(rows, tok);
      var i :| 0 <= i < |f| && f[i] == tok;
    }
  }

  /** Rewriting the column field to the value every token already has changes nothing. */
  lemma RecolSame(cell: Cell, c: nat)
    requires forall i :: 0 <= i < |cell| ==> cell[i].col == Some(c)
    ensures Recol(cell, c) == cell
  {
  }

  /**
   * Deleting the column just inserted gives the row back: inserting to the
   * right of `col` and deleting `col + 1`, or to the left and deleting `col`,
   * is the identity on a row whose tokens carry their own column index.
   */
  lemma InsertThenDelete(cells: seq<Cell>, col: nat, side: Side)
    requires col < |cells|
    requires forall k, i :: 0 <= k < |cells| && 0 <= i < |cells[k]| ==> cells[k][i].col == Some(k)
    ensures DeleteCells(Inserted(cells, col, |cells|, side), if side == Right then col + 1 else col) == cells
  {
    var ins := Inserted(cells, col, |cells|, side);
    var del := if side == Right then col + 1 else col;
    var r := DeleteCells(ins, del);
    forall k | 0 <= k < |cells| ensures r[k] == cells[k] {
      if k >= del {
        RecolSame(cells[k], k);
      }
    }
  }

  /**
   * The finding in `handleDeleteColumn`: deleting any column but the last
   * leaves the row as long as before, its last cell present twice; the
   * intended delete shortens it by one.
   */
  lemma DeleteKeepsStaleLastCell(cells: seq<Cell>, col: nat)
    requires col + 1 < |cells|
    ensures var w := DeleteCellsAsWritten(cells, col);
      && |w| == |cells|
      && w[|cells| - 2] == Recol(cells[|cells| - 1], |cells| - 2)
      && w[|cells| - 1] == cells[|cells| - 1]
    ensures |DeleteCells(cells, col)| == |cells| - 1
  {
  }

  /**
   * A concrete instance: deleting the middle column of `[[a], [], [b]]`
   * gives `[[a], [b'], [b]]` (with `b'` recolumned to 1) instead of
   * `[[a], [b']]`.
   */
  lemma DeleteMiddleColumnExample(a: Token, b: Token)
    requires a.col == Some(0) && b.col == Some(2)
    ensures DeleteCellsAsWritten([[a], [], [b]], 1) == [[a], [b.(col := Some(1))], [b]]
    ensures DeleteCells([[a], [], [b]], 1) == [[a], [b.(col := Some(1))]]
  {
    assert Recol([b], 1) == [b.(col := Some(1))];
  }
}
