/**
 * The table codec: `getReactTableData` turns the persisted column-major table
 * into one stamped row per witness, `getAlignmentTable` turns rows back into
 * a table.
 *
 * `uuidv4()` is modelled as a supply of consecutive natural numbers starting
 * at `firstId`; only the distinctness of the ids is relied upon.
 */
module Codec {
  import opened Wrappers
  import opened Schema
  import opened Grid

  /**
   * `{...t, collatexEditorTokenOrder, ...Row, ...Col, ...Id}`: set the editor
   * fields. The spread replaces an editor key the token already carries as an
   * annotation, so each field appears once and stripping gives the same token.
   */
  function Stamp(tok: Token, order: int, row: nat, col: nat, id: nat): Token {
    tok.(order := Some(order), row := Some(row), col := Some(col), id := Some(id), extra := tok.extra - EditorKeys)
  }

  /** The stamped token carries the four counters, no editor key, and strips to the stripped token. */
  lemma StampFields(tok: Token, order: int, row: nat, col: nat, id: nat)
    ensures var r := Stamp(tok, order, row, col, id);
      && r.order == Some(order) && r.row == Some(row) && r.col == Some(col) && r.id == Some(id)
      && r.extra.Keys !! EditorKeys
      && Strip(r) == Strip(tok)
  {
  }

  /** Every column has at least `n` cells. */
  predicate Reaches(tbl: Table, n: nat) {
    forall c :: 0 <= c < |tbl.table| ==> |tbl.table[c]| >= n
  }

  /** `column[rowIndex]` exists for every column and every witness. */
  predicate Loadable(tbl: Table) {
    Reaches(tbl, |tbl.witnesses|)
  }

  /** The cells of witness `r`, column by column (empty where the column is too short). */
  function RowCells(tbl: Table, r: nat): (cells: seq<Cell>)
    ensures |cells| == |tbl.table|
  {
    seq(|tbl.table|, c requires 0 <= c < |tbl.table| =>
      if r < |tbl.table[c]| then tbl.table[c][r] else [])
  }

  /** One cell stamped with row `r`, column `c`, and the counters running on from `order` and `id`. */
  function StampCell(cell: Cell, r: nat, c: nat, order: int, id: nat): (s: Cell)
    ensures |s| == |cell|
  {
    seq(|cell|, i requires 0 <= i < |cell| => Stamp(cell[i], order + i, r, c, id + i))
  }

  /** The i-th token of a stamped cell is the i-th token with order `order + i` and id `id + i`. */
  lemma StampCellAt(cell: Cell, r: nat, c: nat, order: int, id: nat, i: nat)
    requires i < |cell|
    ensures StampCell(cell, r, c, order, id)[i] == Stamp(cell[i], order + i, r, c, id + i)
  {
  }

  /** Stamping a cell puts row `r` and column `c` into every token and changes nothing else. */
  lemma StampCellPlaced(cell: Cell, r: nat, c: nat, order: int, id: nat)
    ensures var s := StampCell(cell, r, c, order, id);
      && StripCell(s) == StripCell(cell)
      && forall i :: 0 <= i < |s| ==> s[i].row == Some(r) && s[i].col == Some(c)
  {
    var s := StampCell(cell, r, c, order, id);
    forall i | 0 <= i < |s| ensures s[i] == Stamp(cell[i], order + i, r, c, id + i) && Strip(s[i]) == Strip(cell[i]) {
      StampCellAt(cell, r, c, order, id, i);
      StampFields(cell[i], order + i, r, c, id + i);
    }
  }

  /** The cells of one row from column `c` on, the counters carried from each column to the next. */
  function StampCells(cells: seq<Cell>, r: nat, c: nat, order: int, id: nat): (s: seq<Cell>)
    ensures |s| == |cells|
  {
    if cells == [] then []
    else [StampCell(cells[0], r, c, order, id)] + StampCells(cells[1..], r, c + 1, order + |cells[0]|, id + |cells[0]|)
  }

  /** The rows of the witnesses from `r` on, the id supply running on across rows. */
  function EditRowsFrom(tbl: Table, r: nat, id: nat): (rows: seq<Row>)
    requires r <= |tbl.witnesses|
    ensures |rows| == |tbl.witnesses| - r
    decreases |tbl.witnesses| - r
  {
    if r == |tbl.witnesses| then []
    else
      var cells := RowCells(tbl, r);
      [Row(tbl.witnesses[r], StampCells(cells, r, 0, -1, id))] + EditRowsFrom(tbl, r + 1, id + Count(cells))
  }

  /**
   * What `getReactTableData` returns: `None` when it throws (some column is
   * shorter than the witness list); otherwise one row per witness, the order
   * counter starting at -1 in every row.
   */
  function EditRows(tbl: Table, firstId: nat): Option<seq<Row>> {
    if Loadable(tbl) then Some(EditRowsFrom(tbl, 0, firstId)) else None
  }

  /** One step of the witness loop: the rows built so far, the next row, then the rest. */
  lemma EditRowsFromStep(data: seq<Row>, tbl: Table, r: nat, id: nat, whole: seq<Row>, row: Row, next: nat)
    requires r < |tbl.witnesses|
    requires data + EditRowsFrom(tbl, r, id) == whole
    requires row == Row(tbl.witnesses[r], StampCells(RowCells(tbl, r), r, 0, -1, id))
    requires next == id + Count(RowCells(tbl, r))
    ensures (data + [row]) + EditRowsFrom(tbl, r + 1, next) == whole
  {
    var rest := EditRowsFrom(tbl, r + 1, next);
    assert EditRowsFrom(tbl, r, id) == [row] + rest;
    assert (data + [row]) + rest == data + ([row] + rest);
  }

  /** A column too short for witness `r` makes the whole table fail to load. */
  lemma ShortColumn(tbl: Table, r: nat, firstId: nat)
    requires r < |tbl.witnesses| && !Reaches(tbl, r + 1)
    ensures EditRows(tbl, firstId) == None
  {
  }

  /** When every witness has been loaded, the rows built are the whole result. */
  lemma AllRowsLoaded(data: seq<Row>, tbl: Table, id: nat, firstId: nat)
    requires Reaches(tbl, |tbl.witnesses|)
    requires data + EditRowsFrom(tbl, |tbl.witnesses|, id) == EditRowsFrom(tbl, 0, firstId)
    ensures EditRows(tbl, firstId) == Some(data)
  {
    assert EditRowsFrom(tbl, |tbl.witnesses|, id) == [];
    assert data + [] == data;
  }

  /**
   * `getReactTableData`, loop for loop: witnesses here, columns in
   * `StampRow`, the tokens of a cell in `StampTokens`.
   */
  method GetReactTableData(tbl: Table, firstId: nat) returns (rows: Option<seq<Row>>)
    ensures rows == EditRows(tbl, firstId)
  {
    ghost var whole := EditRowsFrom(tbl, 0, firstId);
    var data: seq<Row> := [];
    var nextId: nat := firstId;
    for rowIndex := 0 to |tbl.witnesses|
      invariant Reaches(tbl, rowIndex)
      invariant data + EditRowsFrom(tbl, rowIndex, nextId) == whole
    {
      var d := StampRow(tbl, rowIndex, nextId);
      if d.None? {
        ShortColumn(tbl, rowIndex, firstId);
        return None;
      }
      var row := Row(tbl.witnesses[rowIndex], d.value);
      var count := Count(RowCells(tbl, rowIndex));
      ghost var before, id0 := data, nextId;
      data := data + [row];
      nextId := nextId + count;
      EditRowsFromStep(before, tbl, rowIndex, id0, whole, row, nextId);
    }
    AllRowsLoaded(data, tbl, nextId, firstId);
    rows := Some(data);
  }

  /**
   * The `tableColumns.forEach` of one witness, `tokenOrder` starting at -1.
   * `None` when some column has no cell for the witness (the source throws).
   */
  method StampRow(tbl: Table, rowIndex: nat, rowId: nat) returns (d: Option<seq<Cell>>)
    requires rowIndex < |tbl.witnesses|
    ensures d.Some? <==> Reaches(tbl, rowIndex + 1)
    ensures d.Some? ==> d.value == StampCells(RowCells(tbl, rowIndex), rowIndex, 0, -1, rowId)
  {
    ghost var cells := RowCells(tbl, rowIndex);
    ghost var whole := StampCells(cells, rowIndex, 0, -1, rowId);
    var out: seq<Cell> := [];
    var tokenOrder := -1;
    var nextId: nat := rowId;
    for colIndex := 0 to |tbl.table|
      invariant forall c :: 0 <= c < colIndex ==> |tbl.table[c]| > rowIndex
      invariant out + StampCells(cells[colIndex..], rowIndex, colIndex, tokenOrder, nextId) == whole
    {
      var column := tbl.table[colIndex];
      if rowIndex >= |column| {
        // `column[rowIndex]` is undefined and `.map` throws.
        return None;
      }
      var cell := column[rowIndex];
      RowCellAt(tbl, rowIndex, colIndex);
      var stamped := StampTokens(cell, rowIndex, colIndex, tokenOrder, nextId);
      ghost var before, order0, id0 := out, tokenOrder, nextId;
      out := out + [stamped];
      tokenOrder := tokenOrder + |cell|;
      nextId := nextId + |cell|;
      StampRowStep(cells, before, colIndex, rowIndex, order0, id0, whole, cell, stamped);
    }
    assert cells[|tbl.table|..] == [];
    d := Some(out);
  }

  /** Cell `c` of row `r` is `column[r]` of column `c` when that column reaches the row. */
  lemma RowCellAt(tbl: Table, r: nat, c: nat)
    requires c < |tbl.table| && r < |tbl.table[c]|
    ensures RowCells(tbl, r)[c] == tbl.table[c][r]
  {
  }

  /** One step of the column loop: the stamped cells so far, then cell `k`, then the rest. */
  lemma StampRowStep(cells: seq<Cell>, out: seq<Cell>, k: nat, r: nat, order: int, id: nat, whole: seq<Cell>, cell: Cell, stamped: Cell)
    requires k < |cells| && cell == cells[k]
    requires out + StampCells(cells[k..], r, k, order, id) == whole
    requires stamped == StampCell(cell, r, k, order, id)
    ensures (out + [stamped]) + StampCells(cells[k + 1..], r, k + 1, order + |cell|, id + |cell|) == whole
  {
    StampCellsStep(cells, k, r, order, id);
    AppendOne(out, stamped, StampCells(cells[k + 1..], r, k + 1, order + |cell|, id + |cell|));
  }

  /** Stamping the cells from column `k` on is stamping cell `k`, then the cells after it. */
  lemma StampCellsStep(cells: seq<Cell>, k: nat, r: nat, order: int, id: nat)
    requires k < |cells|
    ensures StampCells(cells[k..], r, k, order, id)
         == [StampCell(cells[k], r, k, order, id)] + StampCells(cells[k + 1..], r, k + 1, order + |cells[k]|, id + |cells[k]|)
  {
    assert cells[k..][1..] == cells[k + 1..];
  }

  /** Moving one element across a concatenation. */
  lemma AppendOne<T>(a: seq<T>, x: T, b: seq<T>)
    ensures a + ([x] + b) == (a + [x]) + b
  {
  }

  /** The `column[rowIndex].map` of one cell, the counters advancing token by token. */
  method StampTokens(cell: Cell, rowIndex: nat, colIndex: nat, order: int, id: nat) returns (stamped: Cell)
    ensures stamped == StampCell(cell, rowIndex, colIndex, order, id)
  {
    stamped := [];
    var tokenOrder: int, nextId: nat := order, id;
    for i := 0 to |cell|
      invariant |stamped| == i && tokenOrder == order + i && nextId == id + i
      invariant forall j :: 0 <= j < i ==> stamped[j] == Stamp(cell[j], order + j, rowIndex, colIndex, id + j)
    {
      stamped := stamped + [Stamp(cell[i], tokenOrder, rowIndex, colIndex, nextId)];
      tokenOrder := tokenOrder + 1;
      nextId := nextId + 1;
    }
  }

  /** The number of columns `getAlignmentTable` emits: the most keys any row has. */
  function MaxCols(rows: seq<Row>): (m: nat)
    requires rows != []
    ensures forall r :: 0 <= r < |rows| ==> |rows[r].cells| <= m
    ensures exists r :: 0 <= r < |rows| && |rows[r].cells| == m
  {
    if |rows| == 1 then |rows[0].cells|
    else
      var rest := MaxCols(rows[1..]);
      if |rows[0].cells| >= rest then |rows[0].cells| else rest
  }

  /**
   * `getAlignmentTable`. With no rows `Math.max()` is `-Infinity` and
   * `Array(-Infinity)` throws, which is `None` here.
   */
  function GetAlignmentTable(rows: seq<Row>): Option<Table> {
    if rows == [] then None
    else
      Some(Table(
        seq(|rows|, r requires 0 <= r < |rows| => rows[r].siglum),
        seq(MaxCols(rows), i requires 0 <= i < MaxCols(rows) =>
          seq(|rows|, r requires 0 <= r < |rows| => CellAt(rows[r], i)))))
  }

  /** Stamping changes no cell's length, so it keeps the token count. */
  lemma {:induction false} CountStampCells(cells: seq<Cell>, r: nat, c: nat, order: int, id: nat)
    ensures Count(StampCells(cells, r, c, order, id)) == Count(cells)
  {
    if cells != [] {
      CountStampCells(cells[1..], r, c + 1, order + |cells[0]|, id + |cells[0]|);
    }
  }

  /**
   * Reading one stamped row left to right, the j-th token carries order
   * `order + j`, id `id + j` and row `r`, and is the j-th token of the
   * unstamped row apart from its editor fields.
   */
  lemma {:induction false} StampCellsFlatten(cells: seq<Cell>, r: nat, c: nat, order: int, id: nat, j: nat)
    requires j < Count(cells)
    ensures var f := Flatten(StampCells(cells, r, c, order, id));
      && |f| == Count(cells)
      && f[j].order == Some(order + j)
      && f[j].id == Some(id + j)
      && f[j].row == Some(r)
      && Strip(f[j]) == Strip(Flatten(cells)[j])
  {
    CountStampCells(cells, r, c, order, id);
    var head := StampCell(cells[0], r, c, order, id);
    var tail := StampCells(cells[1..], r, c + 1, order + |cells[0]|, id + |cells[0]|);
    assert StampCells(cells, r, c, order, id) == [head] + tail;
    assert ([head] + tail)[1..] == tail;
    assert Flatten(StampCells(cells, r, c, order, id)) == head + Flatten(tail);
    assert Flatten(cells) == cells[0] + Flatten(cells[1..]);
    if j < |cells[0]| {
      StampCellAt(cells[0], r, c, order, id, j);
    } else {
      StampCellsFlatten(cells[1..], r, c + 1, order + |cells[0]|, id + |cells[0]|, j - |cells[0]|);
    }
  }

  /**
   * The cell at column `c + k` of a stamped row is the unstamped cell with
   * row `r` and column `c + k` written into every token.
   */
  lemma {:induction false} StampCellsAt(cells: seq<Cell>, r: nat, c: nat, order: int, id: nat, k: nat)
    requires k < |cells|
    ensures var s := StampCells(cells, r, c, order, id)[k];
      && |s| == |cells[k]|
      && StripCell(s) == StripCell(cells[k])
      && forall i :: 0 <= i < |s| ==> s[i].row == Some(r) && s[i].col == Some(c + k)
  {
    if k == 0 {
      StampCellPlaced(cells[0], r, c, order, id);
    } else {
      StampCellsAt(cells[1..], r, c + 1, order + |cells[0]|, id + |cells[0]|, k - 1);
    }
  }

  /** The id the supply is at when it reaches witness `r + k`. */
  function RowIdBase(tbl: Table, r: nat, id: nat, k: nat): nat
    decreases k
  {
    if k == 0 then id else RowIdBase(tbl, r + 1, id + Count(RowCells(tbl, r)), k - 1)
  }

  /** The k-th row built from witness `r` on is witness `r + k` with its cells stamped. */
  lemma {:induction false} EditRowsFromAt(tbl: Table, r: nat, id: nat, k: nat)
    requires r + k < |tbl.witnesses|
    ensures EditRowsFrom(tbl, r, id)[k]
         == Row(tbl.witnesses[r + k], StampCells(RowCells(tbl, r + k), r + k, 0, -1, RowIdBase(tbl, r, id, k)))
    decreases k
  {
    if k > 0 {
      EditRowsFromAt(tbl, r + 1, id + Count(RowCells(tbl, r)), k - 1);
    }
  }

  /**
   * Across the grid built from witness `r` on, in `flattenedTokens` order,
   * the j-th token has id `id + j`.
   */
  lemma {:induction false} EditRowsIds(tbl: Table, r: nat, id: nat, j: nat)
    requires r <= |tbl.witnesses|
    requires j < |FlattenedTokens(EditRowsFrom(tbl, r, id))|
    ensures FlattenedTokens(EditRowsFrom(tbl, r, id))[j].id == Some(id + j)
    decreases |tbl.witnesses| - r
  {
    var rows := EditRowsFrom(tbl, r, id);
    var cells := RowCells(tbl, r);
    var next := id + Count(cells);
    assert rows[1..] == EditRowsFrom(tbl, r + 1, next);
    var head := Flatten(StampCells(cells, r, 0, -1, id));
    assert FlattenedTokens(rows) == head + FlattenedTokens(EditRowsFrom(tbl, r + 1, next));
    CountStampCells(cells, r, 0, -1, id);
    if j < |head| {
      StampCellsFlatten(cells, r, 0, -1, id, j);
    } else {
      EditRowsIds(tbl, r + 1, next, j - |head|);
    }
  }

  /** Every token the editor loads gets an id no other token has. */
  lemma LoadedIdsDistinct(tbl: Table, firstId: nat)
    requires EditRows(tbl, firstId).Some?
    ensures UniqueIds(EditRows(tbl, firstId).value)
  {
    var f := FlattenedTokens(EditRows(tbl, firstId).value);
    forall j | 0 <= j < |f| ensures f[j].id == Some(firstId + j) {
      EditRowsIds(tbl, 0, firstId, j);
    }
  }

  /**
   * The order counter of a loaded row starts at -1 and steps by one, token by
   * token, left to right across the columns; every token keeps its content.
   */
  lemma RowOrders(tbl: Table, firstId: nat, r: nat, j: nat)
    requires EditRows(tbl, firstId).Some? && r < |tbl.witnesses|
    requires j < Count(RowCells(tbl, r))
    ensures var f := Flatten(EditRows(tbl, firstId).value[r].cells);
      && |f| == Count(RowCells(tbl, r))
      && f[j].order == Some(j - 1) && f[j].row == Some(r)
      && Strip(f[j]) == Strip(Flatten(RowCells(tbl, r))[j])
  {
    EditRowsFromAt(tbl, 0, firstId, r);
    StampCellsFlatten(RowCells(tbl, r), r, 0, -1, RowIdBase(tbl, 0, firstId, r), j);
  }

  /** Within a loaded row, order values strictly increase left to right. */
  lemma RowOrdersIncrease(tbl: Table, firstId: nat, r: nat, i: nat, j: nat)
    requires EditRows(tbl, firstId).Some? && r < |tbl.witnesses|
    requires i < j < Count(RowCells(tbl, r))
    ensures var f := Flatten(EditRows(tbl, firstId).value[r].cells);
      |f| == Count(RowCells(tbl, r)) && f[i].order.Some? && f[j].order.Some? && f[i].order.value < f[j].order.value
  {
    RowOrders(tbl, firstId, r, i);
    RowOrders(tbl, firstId, r, j);
  }

  /** The cell at row `r`, column `c` of the loaded grid is the table's cell, stamped in place. */
  lemma EditRowsCell(tbl: Table, firstId: nat, r: nat, c: nat)
    requires EditRows(tbl, firstId).Some? && r < |tbl.witnesses| && c < |tbl.table|
    ensures var row := EditRows(tbl, firstId).value[r];
      && row.siglum == tbl.witnesses[r]
      && |row.cells| == |tbl.table|
      && StripCell(row.cells[c]) == StripCell(tbl.table[c][r])
      && forall i :: 0 <= i < |row.cells[c]| ==> row.cells[c][i].row == Some(r) && row.cells[c][i].col == Some(c)
  {
    var cells := RowCells(tbl, r);
    EditRowsFromAt(tbl, 0, firstId, r);
    assert EditRows(tbl, firstId).value[r].cells == StampCells(cells, r, 0, -1, RowIdBase(tbl, 0, firstId, r));
    assert cells[c] == tbl.table[c][r];
    StampCellsAt(cells, r, 0, -1, RowIdBase(tbl, 0, firstId, r), c);
  }

  /** Every loaded row reads in strictly increasing order. */
  lemma LoadedInReadingOrder(tbl: Table, firstId: nat)
    requires EditRows(tbl, firstId).Some?
    ensures InReadingOrder(EditRows(tbl, firstId).value)
  {
    var rows := EditRows(tbl, firstId).value;
    forall r | 0 <= r < |rows| ensures OrdersIncrease(Flatten(rows[r].cells)) {
      LoadedRowInReadingOrder(tbl, firstId, r);
    }
  }

  /** Loaded row `r` reads in strictly increasing order. */
  lemma LoadedRowInReadingOrder(tbl: Table, firstId: nat, r: nat)
    requires EditRows(tbl, firstId).Some? && r < |tbl.witnesses|
    ensures OrdersIncrease(Flatten(EditRows(tbl, firstId).value[r].cells))
  {
    var f := Flatten(EditRows(tbl, firstId).value[r].cells);
    EditRowsFromAt(tbl, 0, firstId, r);
    CountStampCells(RowCells(tbl, r), r, 0, -1, RowIdBase(tbl, 0, firstId, r));
    forall j | 0 <= j < |f| ensures f[j].order == Some(-1 + j) {
      RowOrders(tbl, firstId, r, j);
    }
    CountingOrdersIncrease(f, -1);
  }

  /**
   * Loading gives one row per witness, in witness order, labelled with that
   * witness; the token at row `r`, column `c`, position `i` is the table's
   * token at column `c`, witness `r`, position `i`, stamped with row `r` and
   * column `c`.
   */
  lemma EditRowsPlaced(tbl: Table, firstId: nat)
    requires EditRows(tbl, firstId).Some?
    ensures var rows := EditRows(tbl, firstId).value;
      && |rows| == |tbl.witnesses|
      && Rectangular(rows, |tbl.table|)
      && Placed(rows)
      && (forall r :: 0 <= r < |rows| ==> rows[r].siglum == tbl.witnesses[r])
      && (forall r, c :: 0 <= r < |rows| && 0 <= c < |tbl.table| ==>
            StripCell(rows[r].cells[c]) == StripCell(tbl.table[c][r]))
  {
    var rows := EditRows(tbl, firstId).value;
    forall r | 0 <= r < |rows| ensures rows[r].siglum == tbl.witnesses[r] && |rows[r].cells| == |tbl.table| {
      EditRowsFromAt(tbl, 0, firstId, r);
    }
    forall r, c, i | 0 <= r < |rows| && 0 <= c < |rows[r].cells| && 0 <= i < |rows[r].cells[c]|
      ensures rows[r].cells[c][i].row == Some(r) && rows[r].cells[c][i].col == Some(c)
    {
      EditRowsCell(tbl, firstId, r, c);
    }
    assert Placed(rows);
    forall r, c | 0 <= r < |rows| && 0 <= c < |tbl.table|
      ensures StripCell(rows[r].cells[c]) == StripCell(tbl.table[c][r])
    {
      EditRowsCell(tbl, firstId, r, c);
    }
  }

  /** `getAlignmentTable` lays every row's cells out column by column, `[]` where a row is short. */
  lemma AlignmentTableShape(rows: seq<Row>)
    requires rows != []
    ensures var t := GetAlignmentTable(rows).value;
      && |t.witnesses| == |rows|
      && (forall r :: 0 <= r < |rows| ==> t.witnesses[r] == rows[r].siglum)
      && (forall r :: 0 <= r < |rows| ==> |rows[r].cells| <= |t.table|)
      && (exists r :: 0 <= r < |rows| && |rows[r].cells| == |t.table|)
      && (forall i :: 0 <= i < |t.table| ==> |t.table[i]| == |rows|)
      && (forall i, r :: 0 <= i < |t.table| && 0 <= r < |rows| ==>
            t.table[i][r] == if i < |rows[r].cells| then rows[r].cells[i] else [])
  {
  }

  /** The table with every token's editor fields removed. */
  function StripTable(tbl: Table): Table {
    Table(tbl.witnesses, seq(|tbl.table|, c requires 0 <= c < |tbl.table| =>
      seq(|tbl.table[c]|, r requires 0 <= r < |tbl.table[c]| => StripCell(tbl.table[c][r]))))
  }

  /**
   * Round trip: loading a well-formed table with at least one witness and
   * converting back gives the same witnesses, the same number of columns and
   * the same tokens in every cell, only with the editor fields added.
   */
  lemma RoundTrip(tbl: Table, firstId: nat)
    requires |tbl.witnesses| > 0
    requires forall c :: 0 <= c < |tbl.table| ==> |tbl.table[c]| == |tbl.witnesses|
    ensures EditRows(tbl, firstId).Some?
    ensures GetAlignmentTable(EditRows(tbl, firstId).value).Some?
    ensures StripTable(GetAlignmentTable(EditRows(tbl, firstId).value).value) == StripTable(tbl)
  {
    var rows := EditRows(tbl, firstId).value;
    forall r | 0 <= r < |rows| ensures |rows[r].cells| == |tbl.table| && rows[r].siglum == tbl.witnesses[r] {
      EditRowsFromAt(tbl, 0, firstId, r);
    }
    var m := MaxCols(rows);
    assert m == |tbl.table|;
    var t := GetAlignmentTable(rows).value;
    var s, s' := StripTable(t), StripTable(tbl);
    forall c | 0 <= c < |tbl.table| ensures s.table[c] == s'.table[c] {
      assert |t.table[c]| == |rows|;
      forall r | 0 <= r < |rows| ensures s.table[c][r] == s'.table[c][r] {
        assert t.table[c][r] == rows[r].cells[c];
        EditRowsCell(tbl, firstId, r, c);
      }
    }
    assert t.witnesses == tbl.witnesses;
  }
}
