/**
 * Moving tokens between the columns of one witness by drag and drop (the
 * token `onDragEnd` handler). Dropping a token on another column of the same
 * row carries with it every token of that witness between it and the drop
 * column, removes them from their cells and merges them into the drop cell,
 * which is then sorted by token order. The handler only edits the row; the
 * tokens' fields are renewed when the edited grid is saved and loaded again
 * (`Editor.Editor.Save`).
 */
module Relocate {
  import opened Wrappers
  import opened Schema
  import opened Grid

  /**
   * A drop: the editor fields of the dragged token and the column of the
   * cell it was dropped on, `None` when there is no drop target or the
   * target has no column index.
   */
  datatype Drag = Drag(activeOrder: int, activeRow: nat, activeCol: nat, overCol: Option<nat>)

  /** The row and columns the handler indexes exist. */
  predicate Fits(data: seq<Row>, e: Drag) {
    && e.activeRow < |data|
    && e.activeCol < |data[e.activeRow].cells|
    && (e.overCol.Some? ==> e.overCol.value < |data[e.activeRow].cells|)
  }

  /**
   * The filter selecting `tokensToMove`: a token of the dragged token's row;
   * for a drag to the left, at or before it in order and in a column after the
   * drop column up to the dragged token's; for a drag to the right, at or after
   * it in order and in a column from the dragged token's up to before the drop
   * column.
   */
  predicate Selected(t: Token, e: Drag)
    requires e.overCol.Some?
  {
    var o := e.overCol.value;
    && t.row == Some(e.activeRow) && t.order.Some? && t.col.Some?
    && if e.activeCol > o then t.order.value <= e.activeOrder && o < t.col.value <= e.activeCol
       else t.order.value >= e.activeOrder && e.activeCol <= t.col.value < o
  }

  /** `tokens.filter(Selected)`. */
  function Moving(tokens: seq<Token>, e: Drag): (r: seq<Token>)
    requires e.overCol.Some?
    ensures |r| <= |tokens|
    ensures forall t :: t in r <==> t in tokens && Selected(t, e)
  {
    if tokens == [] then []
    else if Selected(tokens[0], e) then [tokens[0]] + Moving(tokens[1..], e)
    else Moving(tokens[1..], e)
  }

  /** The tokens a filter by `Selected` drops. */
  function Staying(tokens: seq<Token>, e: Drag): (r: seq<Token>)
    requires e.overCol.Some?
    ensures |r| <= |tokens|
    ensures forall t :: t in r <==> t in tokens && !Selected(t, e)
  {
    if tokens == [] then []
    else if Selected(tokens[0], e) then Staying(tokens[1..], e)
    else [tokens[0]] + Staying(tokens[1..], e)
  }

  /** `tokensToMoveIds`. */
  function Ids(tokens: seq<Token>): (ids: seq<Option<nat>>)
    ensures |ids| == |tokens| && forall i :: 0 <= i < |tokens| ==> ids[i] == tokens[i].id
  {
    seq(|tokens|, i requires 0 <= i < |tokens| => tokens[i].id)
  }

  /** `cell.filter(t => !ids.includes(t.collatexEditorTokenId))`. */
  function Without(cell: Cell, ids: seq<Option<nat>>): (r: Cell)
    ensures |r| <= |cell|
    ensures forall t :: t in r <==> t in cell && t.id !in ids
  {
    if cell == [] then []
    else if cell[0].id in ids then Without(cell[1..], ids)
    else [cell[0]] + Without(cell[1..], ids)
  }

  /** The sort key of the comparator; every token of a loaded grid has an order. */
  function Key(t: Token): int {
    t.order.GetOr(0)
  }

  predicate Sorted(s: seq<Token>) {
    forall i, j :: 0 <= i < j < |s| ==> Key(s[i]) <= Key(s[j])
  }

  /** Inserting `x` into a sequence in front of the first token whose key is not smaller. */
  function InsertByOrder(x: Token, s: seq<Token>): (r: seq<Token>)
    ensures |r| == |s| + 1
  {
    if s == [] || Key(x) <= Key(s[0]) then [x] + s
    else [s[0]] + InsertByOrder(x, s[1..])
  }

  /** Insertion adds exactly `x`. */
  lemma {:induction false} InsertByOrderPermutes(x: Token, s: seq<Token>)
    ensures multiset(InsertByOrder(x, s)) == multiset(s) + multiset{x}
  {
    if s != [] && Key(x) > Key(s[0]) {
      InsertByOrderPermutes(x, s[1..]);
      assert s == [s[0]] + s[1..];
    }
  }

  /** Insertion into a sorted sequence keeps it sorted. */
  lemma {:induction false} InsertByOrderSorted(x: Token, s: seq<Token>)
    requires Sorted(s)
    ensures Sorted(InsertByOrder(x, s))
  {
    if s != [] && Key(x) > Key(s[0]) {
      var rest := InsertByOrder(x, s[1..]);
      InsertByOrderSorted(x, s[1..]);
      forall j | 0 <= j < |rest| ensures Key(s[0]) <= Key(rest[j]) {
        InsertByOrderFrom(x, s[1..], j);
      }
    }
  }

  /** Every token of the insertion result is `x` or a token of `s`. */
  lemma {:induction false} InsertByOrderFrom(x: Token, s: seq<Token>, j: nat)
    requires j < |s| + 1
    ensures InsertByOrder(x, s)[j] == x || exists k :: 0 <= k < |s| && InsertByOrder(x, s)[j] == s[k]
  {
    if s != [] && Key(x) > Key(s[0]) && j > 0 {
      InsertByOrderFrom(x, s[1..], j - 1);
      if InsertByOrder(x, s[1..])[j - 1] != x {
        var k :| 0 <= k < |s[1..]| && InsertByOrder(x, s[1..])[j - 1] == s[1..][k];
        assert s[1..][k] == s[k + 1];
      }
    } else if s != [] && Key(x) > Key(s[0]) {
      assert InsertByOrder(x, s)[0] == s[0];
    } else if j > 0 {
      assert InsertByOrder(x, s)[j] == s[j - 1];
    }
  }

  /**
   * `.sort((a, b) => a.order - b.order)`: a stable sort by order (an
   * insertion sort, each token going in front of the equal ones that came
   * after it in the input).
   */
  function SortByOrder(s: seq<Token>): (r: seq<Token>)
    ensures |r| == |s|
  {
    if s == [] then [] else InsertByOrder(s[0], SortByOrder(s[1..]))
  }

  /** The sort returns its input sorted by order. */
  lemma {:induction false} SortByOrderSorted(s: seq<Token>)
    ensures Sorted(SortByOrder(s))
  {
    if s != [] {
      SortByOrderSorted(s[1..]);
      InsertByOrderSorted(s[0], SortByOrder(s[1..]));
    }
  }

  /** The sort keeps every token and adds none. */
  lemma {:induction false} SortByOrderPermutes(s: seq<Token>)
    ensures multiset(SortByOrder(s)) == multiset(s)
  {
    if s != [] {
      SortByOrderPermutes(s[1..]);
      InsertByOrderPermutes(s[0], SortByOrder(s[1..]));
      assert multiset(s) == multiset(s[1..]) + multiset{s[0]} by {
        assert s == [s[0]] + s[1..];
      }
    }
  }

  /** The cells of the row after the filtering loop: columns `lo..hi` lose the moved ids. */
  function FilterRange(cells: seq<Cell>, lo: nat, hi: nat, ids: seq<Option<nat>>): (r: seq<Cell>)
    ensures |r| == |cells|
    ensures forall i :: 0 <= i < |cells| && lo <= i <= hi ==> r[i] == Without(cells[i], ids)
    ensures forall i :: 0 <= i < |cells| && !(lo <= i <= hi) ==> r[i] == cells[i]
  {
    seq(|cells|, i requires 0 <= i < |cells| => if lo <= i <= hi then Without(cells[i], ids) else cells[i])
  }

  /** Changing anything: a drop column other than the dragged token's own. */
  predicate Moves(e: Drag) {
    e.overCol.Some? && e.overCol.value != e.activeCol
  }

  /** The dragged token's row after the filtering loop. */
  function Filtered(data: seq<Row>, e: Drag): (r: seq<Cell>)
    requires Fits(data, e) && Moves(e)
    ensures |r| == |data[e.activeRow].cells|
  {
    var o := e.overCol.value;
    var ids := Ids(Moving(FlattenedTokens(data), e));
    var cells := data[e.activeRow].cells;
    if e.activeCol > o then FilterRange(cells, o, e.activeCol, ids)
    else FilterRange(cells, e.activeCol, o, ids)
  }

  /**
   * The new drop cell: its remaining tokens followed (drag to the left) or
   * preceded (drag to the right) by the moved ones, sorted by order.
   */
  function Dropped(data: seq<Row>, e: Drag): Cell
    requires Fits(data, e) && Moves(e)
  {
    var o := e.overCol.value;
    var moved := Moving(FlattenedTokens(data), e);
    if e.activeCol > o then SortByOrder(Filtered(data, e)[o] + moved)
    else SortByOrder(moved + Filtered(data, e)[o])
  }

  /**
   * The data after the drop, before it is saved. No drop column, or the
   * dragged token's own column, changes nothing. Otherwise only the dragged
   * token's row changes: the selected tokens of the whole grid leave every
   * cell between the two columns, and the drop cell becomes its remaining
   * tokens and the selected ones, sorted by order.
   */
  function Relocated(data: seq<Row>, e: Drag): (r: seq<Row>)
    requires Fits(data, e)
    ensures |r| == |data|
    ensures forall k :: 0 <= k < |data| && k != e.activeRow ==> r[k] == data[k]
    ensures r[e.activeRow].siglum == data[e.activeRow].siglum
    ensures |r[e.activeRow].cells| == |data[e.activeRow].cells|
  {
    if !Moves(e) then data
    else
      var cells := Filtered(data, e)[e.overCol.value := Dropped(data, e)];
      data[e.activeRow := Row(data[e.activeRow].siglum, cells)]
  }

  /** The `for` loop of the handler: filter the moved ids out of columns `lo..hi` in place. */
  method FilterColumns(cells: seq<Cell>, lo: nat, hi: nat, ids: seq<Option<nat>>) returns (out: seq<Cell>)
    requires lo <= hi < |cells|
    ensures out == FilterRange(cells, lo, hi, ids)
  {
    out := cells;
    for i := lo to hi + 1
      invariant |out| == |cells|
      invariant forall k :: 0 <= k < |cells| ==> out[k] == if lo <= k < i then Without(cells[k], ids) else cells[k]
    {
      out := out[i := Without(out[i], ids)];
    }
    assert forall k :: 0 <= k < |cells| ==> out[k] == FilterRange(cells, lo, hi, ids)[k];
  }

  /**
   * The token `onDragEnd`: `None` when it returns without an update,
   * otherwise the data it hands to `handleUpdateData`.
   */
  method DragEnd(data: seq<Row>, e: Drag) returns (newData: Option<seq<Row>>)
    requires Fits(data, e)
    ensures newData.None? <==> e.overCol.None? || e.overCol.value == e.activeCol
    ensures newData.Some? ==> newData.value == Relocated(data, e)
  {
    if e.overCol.None? {
      return None;
    }
    var overCol := e.overCol.value;
    var flattened := CollectTokens(data);
    var cells := data[e.activeRow].cells;
    if e.activeCol > overCol {
      var tokensToMove := Moving(flattened, e);
      cells := FilterColumns(cells, overCol, e.activeCol, Ids(tokensToMove));
      cells := cells[overCol := SortByOrder(cells[overCol] + tokensToMove)];
    } else if overCol > e.activeCol {
      var tokensToMove := Moving(flattened, e);
      cells := FilterColumns(cells, e.activeCol, overCol, Ids(tokensToMove));
      cells := cells[overCol := SortByOrder(tokensToMove + cells[overCol])];
    } else {
      return None;
    }
    newData := Some(data[e.activeRow := Row(data[e.activeRow].siglum, cells)]);
  }

  /** Selection distributes over concatenation. */
  lemma {:induction false} MovingAppend(a: seq<Token>, b: seq<Token>, e: Drag)
    requires e.overCol.Some?
    ensures Moving(a + b, e) == Moving(a, e) + Moving(b, e)
  {
    if a == [] {
      assert a + b == b;
    } else {
      var ab := a + b;
      assert ab[0] == a[0] && ab[1..] == a[1..] + b;
      MovingAppend(a[1..], b, e);
      assert Moving(ab, e) == (if Selected(a[0], e) then [a[0]] else []) + Moving(a[1..] + b, e);
    }
  }

  /** Nothing is selected from tokens none of which is selected. */
  lemma MovingNone(tokens: seq<Token>, e: Drag)
    requires e.overCol.Some?
    requires forall t :: t in tokens ==> !Selected(t, e)
    ensures Moving(tokens, e) == []
  {
  }

  /** On a placed grid, no token outside row `a` is selected when the dragged token is in row `a`. */
  lemma PlacedOtherRows(rows: seq<Row>, e: Drag)
    requires e.overCol.Some? && Placed(rows)
    ensures forall k, t :: 0 <= k < |rows| && k != e.activeRow && t in Flatten(rows[k].cells) ==> !Selected(t, e)
  {
    forall k, t | 0 <= k < |rows| && k != e.activeRow && t in Flatten(rows[k].cells) ensures !Selected(t, e) {
      InFlatten(rows[k].cells, t);
      var c :| 0 <= c < |rows[k].cells| && t in rows[k].cells[c];
      var i :| 0 <= i < |rows[k].cells[c]| && rows[k].cells[c][i] == t;
    }
  }

  /** Nothing is selected from rows none of whose tokens is selected. */
  lemma {:induction false} MovingNoRow(rows: seq<Row>, e: Drag)
    requires e.overCol.Some?
    requires forall k, t :: 0 <= k < |rows| && t in Flatten(rows[k].cells) ==> !Selected(t, e)
    ensures Moving(FlattenedTokens(rows), e) == []
  {
    if rows != [] {
      var head := Flatten(rows[0].cells);
      var tail := FlattenedTokens(rows[1..]);
      MovingAppend(head, tail, e);
      MovingNone(head, e);
      forall k, t | 0 <= k < |rows[1..]| && t in Flatten(rows[1..][k].cells) ensures !Selected(t, e) {
        assert rows[1..][k] == rows[k + 1];
      }
      MovingNoRow(rows[1..], e);
    }
  }

  /**
   * When only row `a` can hold selected tokens, selecting from the whole
   * `flattenedTokens` list is selecting from that row.
   */
  lemma {:induction false} MovingOnlyRow(rows: seq<Row>, a: nat, e: Drag)
    requires e.overCol.Some? && a < |rows|
    requires forall k, t :: 0 <= k < |rows| && k != a && t in Flatten(rows[k].cells) ==> !Selected(t, e)
    ensures Moving(FlattenedTokens(rows), e) == Moving(Flatten(rows[a].cells), e)
    decreases a
  {
    var head := Flatten(rows[0].cells);
    var tail := FlattenedTokens(rows[1..]);
    assert FlattenedTokens(rows) == head + tail;
    MovingAppend(head, tail, e);
    if a == 0 {
      forall k, t | 0 <= k < |rows[1..]| && t in Flatten(rows[1..][k].cells) ensures !Selected(t, e) {
        assert rows[1..][k] == rows[k + 1];
      }
      MovingNoRow(rows[1..], e);
      assert head + [] == head;
    } else {
      MovingNone(head, e);
      forall k, t | 0 <= k < |rows[1..]| && k != a - 1 && t in Flatten(rows[1..][k].cells) ensures !Selected(t, e) {
        assert rows[1..][k] == rows[k + 1];
      }
      MovingOnlyRow(rows[1..], a - 1, e);
    }
  }

  /**
   * With unique ids, a token of the grid has one of the moved ids exactly
   * when it is selected: filtering by id removes the selected tokens and
   * no others.
   */
  lemma IdsSelect(data: seq<Row>, e: Drag, t: Token)
    requires e.overCol.Some? && UniqueIds(data) && t in FlattenedTokens(data)
    ensures t.id in Ids(Moving(FlattenedTokens(data), e)) <==> Selected(t, e)
  {
    var f := FlattenedTokens(data);
    var m := Moving(f, e);
    var ids := Ids(m);
    if t.id in ids {
      var j :| 0 <= j < |ids| && ids[j] == t.id;
      assert m[j] in m;
      var p :| 0 <= p < |f| && f[p] == t;
      var q :| 0 <= q < |f| && f[q] == m[j];
      assert p == q;
    }
    if Selected(t, e) {
      assert t in m;
      var j :| 0 <= j < |m| && m[j] == t;
      assert ids[j] == t.id;
    }
  }

  /** Filtering by ids that pick out exactly the selected tokens is filtering by selection. */
  lemma {:induction false} WithoutStaying(cell: Cell, ids: seq<Option<nat>>, e: Drag)
    requires e.overCol.Some?
    requires forall t :: t in cell ==> (t.id in ids <==> Selected(t, e))
    ensures Without(cell, ids) == Staying(cell, e)
  {
    if cell != [] {
      WithoutStaying(cell[1..], ids, e);
    }
  }

  /** Filtering out the selected tokens keeps a cell with none of them. */
  lemma {:induction false} StayingAll(cell: Cell, e: Drag)
    requires e.overCol.Some?
    requires forall t :: t in cell ==> !Selected(t, e)
    ensures Staying(cell, e) == cell
  {
    if cell != [] {
      StayingAll(cell[1..], e);
      assert cell == [cell[0]] + cell[1..];
    }
  }

  /** A filter and its complement split a cell's tokens between them. */
  lemma {:induction false} SplitCell(cell: Cell, e: Drag)
    requires e.overCol.Some?
    ensures multiset(Staying(cell, e)) + multiset(Moving(cell, e)) == multiset(cell)
  {
    if cell != [] {
      SplitCell(cell[1..], e);
      var stay, move := Staying(cell[1..], e), Moving(cell[1..], e);
      assert multiset(cell) == multiset{cell[0]} + multiset(cell[1..]) by {
        assert cell == [cell[0]] + cell[1..];
      }
      if Selected(cell[0], e) {
        assert multiset(Moving(cell, e)) == multiset{cell[0]} + multiset(move);
      } else {
        assert multiset(Staying(cell, e)) == multiset{cell[0]} + multiset(stay);
      }
    }
  }

  /** Every cell with its selected tokens filtered out. */
  function StayCells(cells: seq<Cell>, e: Drag): (r: seq<Cell>)
    requires e.overCol.Some?
    ensures |r| == |cells|
  {
    if cells == [] then [] else [Staying(cells[0], e)] + StayCells(cells[1..], e)
  }

  /** Cell `i` of `StayCells` is cell `i` filtered. */
  lemma {:induction false} StayCellsAt(cells: seq<Cell>, e: Drag, i: nat)
    requires e.overCol.Some? && i < |cells|
    ensures StayCells(cells, e)[i] == Staying(cells[i], e)
  {
    if i > 0 {
      StayCellsAt(cells[1..], e, i - 1);
    }
  }

  /** Across a row, the staying and the selected tokens together are the row's tokens. */
  lemma {:induction false} SplitCells(cells: seq<Cell>, e: Drag)
    requires e.overCol.Some?
    ensures multiset(Flatten(StayCells(cells, e))) + multiset(Moving(Flatten(cells), e)) == multiset(Flatten(cells))
  {
    if cells != [] {
      SplitCells(cells[1..], e);
      SplitCell(cells[0], e);
      MovingAppend(cells[0], Flatten(cells[1..]), e);
      assert StayCells(cells, e)[1..] == StayCells(cells[1..], e);
    }
  }

  /** Taking the same tokens away from both sides. */
  lemma Cancel(a: multiset<Token>, b: multiset<Token>, c: multiset<Token>, d: multiset<Token>)
    requires a + b == c + (b + d)
    ensures a == c + d
  {
    forall x ensures a[x] == (c + d)[x] {
      assert (a + b)[x] == (c + (b + d))[x];
    }
  }

  /** Replacing one cell trades its tokens for the new cell's. */
  lemma {:induction false} FlattenUpdate(cells: seq<Cell>, o: nat, c: Cell)
    requires o < |cells|
    ensures multiset(Flatten(cells[o := c])) + multiset(cells[o]) == multiset(Flatten(cells)) + multiset(c)
  {
    if o == 0 {
      assert cells[o := c][1..] == cells[1..];
    } else {
      FlattenUpdate(cells[1..], o - 1, c);
      assert cells[1..][o - 1] == cells[o];
      assert cells[o := c][1..] == cells[1..][o - 1 := c];
      assert Flatten(cells[o := c]) == cells[0] + Flatten(cells[1..][o - 1 := c]);
      assert multiset(Flatten(cells[o := c])) == multiset(cells[0]) + multiset(Flatten(cells[1..][o - 1 := c]));
      assert multiset(Flatten(cells)) == multiset(cells[0]) + multiset(Flatten(cells[1..]));
      var h, t, t', x := multiset(cells[0]), multiset(Flatten(cells[1..][o - 1 := c])), multiset(Flatten(cells[1..])), multiset(cells[o]);
      assert t + x == t' + multiset(c);
      assert (h + t) + x == h + (t + x);
    }
  }

  /**
   * On a grid whose tokens sit where their fields say and whose ids are
   * unique, the filtering loop removes exactly the selected tokens from
   * every cell of the row, keeping the rest in order.
   */
  lemma FilteredStays(data: seq<Row>, e: Drag)
    requires Fits(data, e) && Moves(e) && Placed(data) && UniqueIds(data)
    ensures Filtered(data, e) == StayCells(data[e.activeRow].cells, e)
  {
    var a, o := e.activeRow, e.overCol.value;
    var cells := data[a].cells;
    var f := FlattenedTokens(data);
    var ids := Ids(Moving(f, e));
    var filtered := Filtered(data, e);
    var stay := StayCells(cells, e);
    forall i | 0 <= i < |cells| ensures filtered[i] == stay[i] {
      StayCellsAt(cells, e, i);
      forall t: Token | t in cells[i] ensures t.id in ids <==> Selected(t, e) {
        InFlattenedTokens(data, t);
        IdsSelect(data, e, t);
      }
      var lo, hi := if e.activeCol > o then o else e.activeCol, if e.activeCol > o then e.activeCol else o;
      if lo <= i <= hi {
        WithoutStaying(cells[i], ids, e);
      } else {
        forall t: Token | t in cells[i] ensures !Selected(t, e) {
          var j :| 0 <= j < |cells[i]| && cells[i][j] == t;
        }
        StayingAll(cells[i], e);
      }
    }
  }

  /**
   * A drop on another column, on a grid whose tokens sit where their fields
   * say and whose ids are unique:
   * - the tokens that move are exactly the selected tokens of the dragged
   *   token's row;
   * - every other cell of the row keeps its tokens in order minus the
   *   selected ones;
   * - the drop cell holds its old tokens and the moved ones, sorted by order;
   * - the row loses and gains no token.
   */
  lemma RelocatedRow(data: seq<Row>, e: Drag)
    requires Fits(data, e) && Moves(e) && Placed(data) && UniqueIds(data)
    ensures var cells := data[e.activeRow].cells;
      var r := Relocated(data, e)[e.activeRow].cells;
      var o := e.overCol.value;
      var moved := Moving(FlattenedTokens(data), e);
      && moved == Moving(Flatten(cells), e)
      && (forall i :: 0 <= i < |cells| && i != o ==> r[i] == Staying(cells[i], e))
      && Sorted(r[o]) && multiset(r[o]) == multiset(cells[o]) + multiset(moved)
      && r[o] == SortByOrder(if e.activeCol > o then cells[o] + moved else moved + cells[o])
      && multiset(Flatten(r)) == multiset(Flatten(cells))
  {
    var a, o := e.activeRow, e.overCol.value;
    var cells := data[a].cells;
    var moved := Moving(FlattenedTokens(data), e);
    PlacedOtherRows(data, e);
    MovingOnlyRow(data, a, e);
    FilteredStays(data, e);
    var filtered := Filtered(data, e);
    StayCellsAt(cells, e, o);
    forall t: Token | t in cells[o] ensures !Selected(t, e) {
      var j :| 0 <= j < |cells[o]| && cells[o][j] == t;
    }
    StayingAll(cells[o], e);
    assert filtered[o] == cells[o];
    var toSort := if e.activeCol > o then filtered[o] + moved else moved + filtered[o];
    SortByOrderSorted(toSort);
    SortByOrderPermutes(toSort);
    var r := filtered[o := Dropped(data, e)];
    forall i | 0 <= i < |cells| && i != o ensures r[i] == Staying(cells[i], e) {
      StayCellsAt(cells, e, i);
    }
    var drop := Dropped(data, e);
    assert multiset(drop) == multiset(filtered[o]) + multiset(moved);
    FlattenUpdate(filtered, o, drop);
    assert multiset(Flatten(r)) + multiset(filtered[o]) == multiset(Flatten(filtered)) + multiset(drop);
    Cancel(multiset(Flatten(r)), multiset(filtered[o]), multiset(Flatten(filtered)), multiset(moved));
    SplitCells(cells, e);
  }

  /** Filtering out the selected tokens distributes over concatenation. */
  lemma {:induction false} StayingAppend(a: seq<Token>, b: seq<Token>, e: Drag)
    requires e.overCol.Some?
    ensures Staying(a + b, e) == Staying(a, e) + Staying(b, e)
  {
    if a == [] {
      assert a + b == b;
    } else {
      var ab := a + b;
      assert ab[0] == a[0] && ab[1..] == a[1..] + b;
      StayingAppend(a[1..], b, e);
      assert Staying(ab, e) == (if Selected(a[0], e) then [] else [a[0]]) + Staying(a[1..] + b, e);
    }
  }

  /** Filtering every cell and then reading the row is filtering the row read. */
  lemma {:induction false} FlattenStayCells(cells: seq<Cell>, e: Drag)
    requires e.overCol.Some?
    ensures Flatten(StayCells(cells, e)) == Staying(Flatten(cells), e)
  {
    if cells != [] {
      FlattenStayCells(cells[1..], e);
      StayingAppend(cells[0], Flatten(cells[1..]), e);
      assert StayCells(cells, e)[1..] == StayCells(cells[1..], e);
    }
  }

  /** Every token of a sequence in which all are selected moves. */
  lemma {:induction false} MovingAll(s: seq<Token>, e: Drag)
    requires e.overCol.Some?
    requires forall i :: 0 <= i < |s| ==> Selected(s[i], e)
    ensures Moving(s, e) == s && Staying(s, e) == []
  {
    if s != [] {
      MovingAll(s[1..], e);
      assert s == [s[0]] + s[1..];
    }
  }

  /**
   * When the selected tokens of an increasing sequence are those of order at
   * most `k`, they form its beginning.
   */
  lemma {:induction false} SelectedPrefix(s: seq<Token>, e: Drag, k: int)
    requires e.overCol.Some? && OrdersIncrease(s)
    requires forall i :: 0 <= i < |s| ==> (Selected(s[i], e) <==> Key(s[i]) <= k)
    ensures s == Moving(s, e) + Staying(s, e)
  {
    if s != [] {
      var t := s[1..];
      if Selected(s[0], e) {
        assert forall i :: 0 <= i < |t| ==> (Selected(t[i], e) <==> Key(t[i]) <= k) by {
          forall i | 0 <= i < |t| ensures Selected(t[i], e) <==> Key(t[i]) <= k {
            assert t[i] == s[i + 1];
          }
        }
        SelectedPrefix(t, e, k);
        assert s == [s[0]] + t;
        Associative([s[0]], Moving(t, e), Staying(t, e));
      } else {
        assert forall t :: t in s ==> !Selected(t, e) by {
          KeysFromFirst(s);
          forall t | t in s ensures !Selected(t, e) {
            var i :| 0 <= i < |s| && s[i] == t;
          }
        }
        MovingNone(s, e);
        StayingAll(s, e);
      }
    }
  }

  /** Concatenation is associative. */
  lemma Associative(a: seq<Token>, b: seq<Token>, c: seq<Token>)
    ensures a + (b + c) == (a + b) + c
  {
  }

  /**
   * When the selected tokens of an increasing sequence are those of order at
   * least `k`, they form its end.
   */
  lemma {:induction false} SelectedSuffix(s: seq<Token>, e: Drag, k: int)
    requires e.overCol.Some? && OrdersIncrease(s)
    requires forall i :: 0 <= i < |s| ==> (Selected(s[i], e) <==> Key(s[i]) >= k)
    ensures s == Staying(s, e) + Moving(s, e)
  {
    if s != [] && Selected(s[0], e) {
      assert forall i :: 0 <= i < |s| ==> Selected(s[i], e) by {
        KeysFromFirst(s);
      }
      MovingAll(s, e);
    } else if s != [] {
      var rest := s[1..];
      assert Staying(s, e) + Moving(s, e) == [s[0]] + (Staying(rest, e) + Moving(rest, e));
      assert rest == Staying(rest, e) + Moving(rest, e) by {
        assert forall i :: 0 <= i < |rest| ==> rest[i] == s[i + 1];
        SelectedSuffix(rest, e, k);
      }
      assert s == [s[0]] + rest;
    }
  }

  /** No key of an increasing sequence is below the first. */
  lemma {:induction false} KeysFromFirst(s: seq<Token>)
    requires s != [] && OrdersIncrease(s)
    ensures forall i :: 0 <= i < |s| ==> Key(s[0]) <= Key(s[i])
  {
    if |s| > 1 {
      KeysFromFirst(s[1..]);
      assert forall i :: 1 <= i < |s| ==> s[i] == s[1..][i - 1];
    }
  }

  /** Sorting a sequence that is already in order changes nothing: the sort is stable. */
  lemma {:induction false} SortByOrderSame(s: seq<Token>)
    requires OrdersIncrease(s)
    ensures SortByOrder(s) == s
  {
    if s != [] {
      SortByOrderSame(s[1..]);
    }
  }

  /** Every token of the row sits in row `a` and in the column of its cell. */
  ghost predicate PlacedRow(cells: seq<Cell>, a: nat) {
    forall c, i :: 0 <= c < |cells| && 0 <= i < |cells[c]| ==>
      cells[c][i].row == Some(a) && cells[c][i].col == Some(c)
  }

  /** A token read from cells `x` to `y - 1` of a placed row sits in that row, in one of those columns. */
  lemma ColumnOf(cells: seq<Cell>, a: nat, x: nat, y: nat, t: Token)
    requires PlacedRow(cells, a) && x <= y <= |cells|
    requires t in Flatten(cells[x..y])
    ensures t.row == Some(a) && t.col.Some? && x <= t.col.value < y
  {
    InFlatten(cells[x..y], t);
    var c :| 0 <= c < y - x && t in cells[x..y][c];
    var i :| 0 <= i < |cells[x + c]| && cells[x + c][i] == t;
  }

  /** A sequence is its three slices at `x` and `y` put back together. */
  lemma SliceParts<T>(s: seq<T>, x: nat, y: nat)
    requires x <= y <= |s|
    ensures s == s[..x] + s[x..y] + s[y..]
  {
  }

  /** The tokens of three consecutive groups of cells. */
  lemma FlattenParts(cells: seq<Cell>, front: seq<Cell>, mid: seq<Cell>, back: seq<Cell>)
    requires cells == front + mid + back
    ensures Flatten(cells) == Flatten(front) + Flatten(mid) + Flatten(back)
  {
    FlattenAppend(front + mid, back);
    FlattenAppend(front, mid);
  }

  /** The tokens of cells `x` to `y - 1`, read through three slices. */
  lemma FlattenThree(cells: seq<Cell>, x: nat, y: nat)
    requires x <= y <= |cells|
    ensures Flatten(cells) == Flatten(cells[..x]) + Flatten(cells[x..y]) + Flatten(cells[y..])
  {
    SliceParts(cells, x, y);
    FlattenParts(cells, cells[..x], cells[x..y], cells[y..]);
  }

  /** The tokens of cells with one cell in front, or one cell behind. */
  lemma FlattenCons(c: Cell, cells: seq<Cell>)
    ensures Flatten([c] + cells) == c + Flatten(cells)
    ensures Flatten(cells + [c]) == Flatten(cells) + c
  {
    assert ([c] + cells)[1..] == cells;
    FlattenAppend(cells, [c]);
    assert [c][1..] == [];
  }

  /** The tokens of four pieces of a row, one of them a single cell. */
  lemma FlattenFour(x: seq<Cell>, d: Cell, y: seq<Cell>, z: seq<Cell>)
    ensures Flatten(x + [d] + y + z) == Flatten(x) + d + Flatten(y) + Flatten(z)
  {
    FlattenAppend(x + [d] + y, z);
    FlattenAppend(x + [d], y);
    FlattenCons(d, x);
  }

  /**
   * A sequence read as three parts where only the middle one has selected
   * tokens, and those are the ones of order at most `k`: the moved tokens
   * are the beginning of the middle part.
   */
  lemma LeftParts(f: seq<Token>, p: seq<Token>, q: seq<Token>, c: Cell, m: seq<Token>, s: seq<Token>, e: Drag, k: int)
    requires e.overCol.Some? && OrdersIncrease(m)
    requires p == q + c && f == p + m + s
    requires forall i :: 0 <= i < |p| ==> !Selected(p[i], e)
    requires forall i :: 0 <= i < |s| ==> !Selected(s[i], e)
    requires forall i :: 0 <= i < |m| ==> (Selected(m[i], e) <==> Key(m[i]) <= k)
    ensures var moved := Moving(f, e);
      && moved == Moving(m, e) && m == moved + Staying(m, e)
      && f == q + (c + moved) + (Staying(m, e) + s)
  {
    var moved := Moving(f, e);
    assert moved == Moving(m, e) by {
      NoIndexSelected(p, e);
      NoIndexSelected(s, e);
      MovingNone(p, e);
      MovingNone(s, e);
      MovingAppend(p + m, s, e);
      MovingAppend(p, m, e);
    }
    assert m == moved + Staying(m, e) by {
      SelectedPrefix(m, e, k);
    }
    Regroup(q, c, moved, Staying(m, e), s);
  }

  /** A sequence none of whose positions holds a selected token has no selected token. */
  lemma NoIndexSelected(s: seq<Token>, e: Drag)
    requires e.overCol.Some? && forall i :: 0 <= i < |s| ==> !Selected(s[i], e)
    ensures forall t :: t in s ==> !Selected(t, e)
  {
  }

  /** Regrouping five concatenated sequences. */
  lemma Regroup(a: seq<Token>, b: seq<Token>, c: seq<Token>, d: seq<Token>, x: seq<Token>)
    ensures (a + b) + (c + d) + x == a + (b + c) + (d + x)
    ensures a + (b + c) + d + x == (a + b) + (c + d + x)
  {
  }

  /** As `LeftParts`, with the selected tokens those of order at least `k`: they end the middle part. */
  lemma RightParts(f: seq<Token>, p: seq<Token>, m: seq<Token>, s: seq<Token>, c: Cell, z: seq<Token>, e: Drag, k: int)
    requires e.overCol.Some? && OrdersIncrease(m)
    requires s == c + z && f == p + m + s
    requires forall i :: 0 <= i < |p| ==> !Selected(p[i], e)
    requires forall i :: 0 <= i < |s| ==> !Selected(s[i], e)
    requires forall i :: 0 <= i < |m| ==> (Selected(m[i], e) <==> Key(m[i]) >= k)
    ensures var moved := Moving(f, e);
      && moved == Moving(m, e) && m == Staying(m, e) + moved
      && f == (p + Staying(m, e)) + (moved + c) + z
  {
    var moved := Moving(f, e);
    assert moved == Moving(m, e) by {
      NoIndexSelected(p, e);
      NoIndexSelected(s, e);
      MovingNone(p, e);
      MovingNone(s, e);
      MovingAppend(p + m, s, e);
      MovingAppend(p, m, e);
    }
    assert m == Staying(m, e) + moved by {
      SelectedSuffix(m, e, k);
    }
    Regroup(p, Staying(m, e), moved, c, z);
  }

  /** In a placed row, no token of columns outside `x..y - 1` is selected when every selected column lies in it. */
  lemma NoneSelected(cells: seq<Cell>, e: Drag, x: nat, y: nat, lo: nat, hi: nat)
    requires e.overCol.Some? && PlacedRow(cells, e.activeRow) && x <= y <= |cells|
    requires forall t :: Selected(t, e) ==> lo <= t.col.value < hi
    requires y <= lo || hi <= x
    ensures var f := Flatten(cells[x..y]); forall i :: 0 <= i < |f| ==> !Selected(f[i], e)
  {
    var f := Flatten(cells[x..y]);
    forall i | 0 <= i < |f| ensures !Selected(f[i], e) {
      ColumnOf(cells, e.activeRow, x, y, f[i]);
    }
  }

  /** In a placed row, a token of columns `x..y - 1` is selected exactly by its order when all of them may be. */
  lemma SelectedByOrder(cells: seq<Cell>, e: Drag, x: nat, y: nat)
    requires e.overCol.Some? && PlacedRow(cells, e.activeRow) && x <= y <= |cells|
    requires OrdersIncrease(Flatten(cells[x..y]))
    requires var o, ac := e.overCol.value, e.activeCol;
      if ac > o then x == o + 1 && y == ac + 1 else x == ac && y == o
    ensures var m := Flatten(cells[x..y]);
      forall i :: 0 <= i < |m| ==>
        (Selected(m[i], e) <==> if e.activeCol > e.overCol.value then Key(m[i]) <= e.activeOrder else Key(m[i]) >= e.activeOrder)
  {
    var m := Flatten(cells[x..y]);
    OrdersIncreasePairs(m);
    forall i | 0 <= i < |m|
      ensures Selected(m[i], e) <==> if e.activeCol > e.overCol.value then Key(m[i]) <= e.activeOrder else Key(m[i]) >= e.activeOrder
    {
      ColumnOf(cells, e.activeRow, x, y, m[i]);
    }
  }

  /**
   * A drag to the left in a placed row read in increasing order: the moved
   * tokens are the first tokens of cells `x..y - 1`, the cells after the
   * drop column `o` up to the dragged token's.
   */
  lemma LeftMoving(cells: seq<Cell>, e: Drag, x: nat, y: nat)
    requires e.overCol.Some? && PlacedRow(cells, e.activeRow) && OrdersIncrease(Flatten(cells))
    requires e.overCol.value < e.activeCol < |cells|
    requires x == e.overCol.value + 1 && y == e.activeCol + 1
    ensures var o := e.overCol.value;
      var m := Flatten(cells[x..y]);
      var moved := Moving(Flatten(cells), e);
      && moved == Moving(m, e) && m == moved + Staying(m, e)
      && Flatten(cells) == Flatten(cells[..o]) + (cells[o] + moved) + (Staying(m, e) + Flatten(cells[y..]))
  {
    var o := e.overCol.value;
    var q, c := Flatten(cells[..o]), cells[o];
    var p, m, s := Flatten(cells[..x]), Flatten(cells[x..y]), Flatten(cells[y..]);
    assert p == q + c by {
      FlattenEnds(cells, o, x);
    }
    assert Flatten(cells) == p + m + s && OrdersIncrease(m) by {
      FlattenThree(cells, x, y);
      OrdersIncreaseSplit(p + m, s);
      OrdersIncreaseSplit(p, m);
    }
    LeftSides(cells, e, x, y, p, m, s);
    LeftParts(Flatten(cells), p, q, c, m, s, e, e.activeOrder);
  }

  /** Which tokens of a placed row a drag to the left selects, on either side of the moved columns `x..y - 1`. */
  lemma LeftSides(cells: seq<Cell>, e: Drag, x: nat, y: nat, p: seq<Token>, m: seq<Token>, s: seq<Token>)
    requires e.overCol.Some? && PlacedRow(cells, e.activeRow)
    requires e.overCol.value < e.activeCol < |cells|
    requires x == e.overCol.value + 1 && y == e.activeCol + 1
    requires p == Flatten(cells[..x]) && m == Flatten(cells[x..y]) && s == Flatten(cells[y..])
    requires OrdersIncrease(m)
    ensures forall i :: 0 <= i < |p| ==> !Selected(p[i], e)
    ensures forall i :: 0 <= i < |s| ==> !Selected(s[i], e)
    ensures forall i :: 0 <= i < |m| ==> (Selected(m[i], e) <==> Key(m[i]) <= e.activeOrder)
  {
    assert forall t :: Selected(t, e) ==> x <= t.col.value < y;
    assert cells[..x] == cells[0..x];
    NoneSelected(cells, e, 0, x, x, y);
    assert cells[y..] == cells[y..|cells|];
    NoneSelected(cells, e, y, |cells|, x, y);
    SelectedByOrder(cells, e, x, y);
  }

  /**
   * A drag to the right in a placed row read in increasing order: the moved
   * tokens are the last tokens of cells `activeCol..o - 1`; `w` is the
   * column after the drop column `o`.
   */
  lemma RightMoving(cells: seq<Cell>, e: Drag, w: nat)
    requires e.overCol.Some? && PlacedRow(cells, e.activeRow) && OrdersIncrease(Flatten(cells))
    requires e.activeCol < e.overCol.value < |cells| && w == e.overCol.value + 1
    ensures var o, ac := e.overCol.value, e.activeCol;
      var m := Flatten(cells[ac..o]);
      var moved := Moving(Flatten(cells), e);
      && moved == Moving(m, e) && m == Staying(m, e) + moved
      && Flatten(cells) == (Flatten(cells[..ac]) + Staying(m, e)) + (moved + cells[o]) + Flatten(cells[w..])
  {
    var o, ac := e.overCol.value, e.activeCol;
    var c, z := cells[o], Flatten(cells[w..]);
    var p, m, s := Flatten(cells[..ac]), Flatten(cells[ac..o]), Flatten(cells[o..]);
    assert s == c + z by {
      FlattenEnds(cells, o, w);
    }
    assert Flatten(cells) == p + m + s && OrdersIncrease(m) by {
      FlattenThree(cells, ac, o);
      OrdersIncreaseSplit(p + m, s);
      OrdersIncreaseSplit(p, m);
    }
    RightSides(cells, e, p, m, s);
    RightParts(Flatten(cells), p, m, s, c, z, e, e.activeOrder);
  }

  /** Which tokens of a placed row a drag to the right selects, on either side of the moved columns `activeCol..o - 1`. */
  lemma RightSides(cells: seq<Cell>, e: Drag, p: seq<Token>, m: seq<Token>, s: seq<Token>)
    requires e.overCol.Some? && PlacedRow(cells, e.activeRow)
    requires e.activeCol < e.overCol.value < |cells|
    requires var o, ac := e.overCol.value, e.activeCol;
      p == Flatten(cells[..ac]) && m == Flatten(cells[ac..o]) && s == Flatten(cells[o..])
    requires OrdersIncrease(m)
    ensures forall i :: 0 <= i < |p| ==> !Selected(p[i], e)
    ensures forall i :: 0 <= i < |s| ==> !Selected(s[i], e)
    ensures forall i :: 0 <= i < |m| ==> (Selected(m[i], e) <==> Key(m[i]) >= e.activeOrder)
  {
    var o, ac := e.overCol.value, e.activeCol;
    assert forall t :: Selected(t, e) ==> ac <= t.col.value < o;
    assert cells[..ac] == cells[0..ac];
    NoneSelected(cells, e, 0, ac, ac, o);
    assert cells[o..] == cells[o..|cells|];
    NoneSelected(cells, e, o, |cells|, ac, o);
    SelectedByOrder(cells, e, ac, o);
  }

  /** The tokens of a row up to and including cell `o`, and from cell `o` on; `x` is `o + 1`. */
  lemma FlattenEnds(cells: seq<Cell>, o: nat, x: nat)
    requires o < |cells| && x == o + 1
    ensures Flatten(cells[..x]) == Flatten(cells[..o]) + cells[o]
    ensures Flatten(cells[o..]) == cells[o] + Flatten(cells[x..])
  {
    assert cells[..x] == cells[..o] + [cells[o]];
    FlattenCons(cells[o], cells[..o]);
    assert cells[o..] == [cells[o]] + cells[x..];
    FlattenCons(cells[o], cells[x..]);
  }

  /** Replacing cell `o` of a row that agrees with `cells` outside the columns `x..y - 1`; `x` is `o + 1`. */
  lemma SpliceLeft(c0: seq<Cell>, cells: seq<Cell>, d: Cell, mid: seq<Cell>, o: nat, x: nat, y: nat)
    requires o < x <= y <= |c0| == |cells| && x == o + 1
    requires c0[..x] == cells[..x] && c0[x..y] == mid && c0[y..] == cells[y..]
    ensures c0[o := d] == cells[..o] + [d] + mid + cells[y..]
  {
    var c := c0[o := d];
    assert c[..o] == cells[..o] by {
      assert c[..o] == c0[..x][..o];
    }
    assert c[..x] == cells[..o] + [d];
    assert c == c[..x] + c[x..y] + c[y..];
  }

  /** Replacing cell `o` of a row that agrees with `cells` outside the columns `a..o - 1`; `w` is `o + 1`. */
  lemma SpliceRight(c0: seq<Cell>, cells: seq<Cell>, d: Cell, mid: seq<Cell>, a: nat, o: nat, w: nat)
    requires a <= o < w <= |c0| == |cells| && w == o + 1
    requires c0[..a] == cells[..a] && c0[a..o] == mid && c0[o..] == cells[o..]
    ensures c0[o := d] == cells[..a] + mid + [d] + cells[w..]
  {
    var c := c0[o := d];
    assert c[w..] == cells[w..] by {
      assert c[w..] == c0[o..][1..];
    }
    assert c[..o] == cells[..a] + mid by {
      assert c[..o] == c0[..a] + c0[a..o];
    }
    assert c == c[..o] + [d] + c[w..];
  }

  /** The tokens of four groups of cells, the third a single cell. */
  lemma FlattenFourRight(x: seq<Cell>, y: seq<Cell>, d: Cell, z: seq<Cell>)
    ensures Flatten(x + y + [d] + z) == Flatten(x) + Flatten(y) + d + Flatten(z)
  {
    FlattenAppend(x + y + [d], z);
    FlattenCons(d, x + y);
    FlattenAppend(x, y);
  }

  /** Which columns hold the tokens a drag selects. */
  lemma SelectedColumns(e: Drag, x: nat, y: nat)
    requires e.overCol.Some?
    requires var o, ac := e.overCol.value, e.activeCol;
      if ac > o then x == o + 1 && y == ac + 1 else x == ac && y == o
    ensures forall t :: Selected(t, e) ==> x <= t.col.value < y
  {
  }

  /** Concatenation regrouped at the end. */
  lemma RegroupEnd(a: seq<Token>, d: seq<Token>, b: seq<Token>, z: seq<Token>)
    ensures a + d + b + z == a + d + (b + z)
  {
  }

  /** In a placed row, filtering keeps a cell outside the columns `x..y - 1` whole. */
  lemma KeptCell(cells: seq<Cell>, e: Drag, x: nat, y: nat, i: nat)
    requires e.overCol.Some? && PlacedRow(cells, e.activeRow) && i < |cells| && (i < x || y <= i)
    requires forall t :: Selected(t, e) ==> x <= t.col.value < y
    ensures StayCells(cells, e)[i] == cells[i]
  {
    forall t | t in cells[i] ensures !Selected(t, e) {
      var j :| 0 <= j < |cells[i]| && cells[i][j] == t;
    }
    StayingAll(cells[i], e);
    StayCellsAt(cells, e, i);
  }

  /** In a placed row, filtering keeps the cells before and after the columns `x..y - 1` whole. */
  lemma StayCellsOutside(cells: seq<Cell>, e: Drag, x: nat, y: nat)
    requires e.overCol.Some? && PlacedRow(cells, e.activeRow) && x <= y <= |cells|
    requires forall t :: Selected(t, e) ==> x <= t.col.value < y
    ensures StayCells(cells, e)[..x] == cells[..x]
    ensures StayCells(cells, e)[y..] == cells[y..]
  {
    var c := StayCells(cells, e);
    forall i | 0 <= i < |cells| && (i < x || y <= i) ensures c[i] == cells[i] {
      KeptCell(cells, e, x, y, i);
    }
  }

  /** Filtering the cells `x..y - 1` of a row alone gives the same cells as filtering the whole row. */
  lemma StayCellsBetween(cells: seq<Cell>, e: Drag, x: nat, y: nat)
    requires e.overCol.Some? && x <= y <= |cells|
    ensures StayCells(cells, e)[x..y] == StayCells(cells[x..y], e)
  {
    var c, mc := StayCells(cells, e), cells[x..y];
    forall i | x <= i < y ensures c[i] == StayCells(mc, e)[i - x] {
      StayCellsAt(mc, e, i - x);
      StayCellsAt(cells, e, i);
    }
  }

  /** A drag to the left within a placed row read in increasing order keeps the row's reading. */
  lemma LeftRowKeepsReading(cells: seq<Cell>, e: Drag, x: nat, y: nat)
    requires e.overCol.Some? && PlacedRow(cells, e.activeRow) && OrdersIncrease(Flatten(cells))
    requires e.overCol.value < e.activeCol < |cells|
    requires x == e.overCol.value + 1 && y == e.activeCol + 1
    ensures var o := e.overCol.value;
      var drop := SortByOrder(cells[o] + Moving(Flatten(cells), e));
      Flatten(StayCells(cells, e)[o := drop]) == Flatten(cells)
  {
    var o := e.overCol.value;
    var moved := Moving(Flatten(cells), e);
    var m := Flatten(cells[x..y]);
    var d := cells[o] + moved;
    var mid := StayCells(cells[x..y], e);
    LeftMoving(cells, e, x, y);
    assert SortByOrder(d) == d by {
      OrdersIncreaseSplit(Flatten(cells[..o]) + d, Staying(m, e) + Flatten(cells[y..]));
      OrdersIncreaseSplit(Flatten(cells[..o]), d);
      SortByOrderSame(d);
    }
    var c := StayCells(cells, e)[o := d];
    assert c == cells[..o] + [d] + mid + cells[y..] by {
      SelectedColumns(e, x, y);
      StayCellsOutside(cells, e, x, y);
      StayCellsBetween(cells, e, x, y);
      SpliceLeft(StayCells(cells, e), cells, d, mid, o, x, y);
    }
    assert Flatten(c) == Flatten(cells[..o]) + d + Staying(m, e) + Flatten(cells[y..]) by {
      FlattenFour(cells[..o], d, mid, cells[y..]);
      FlattenStayCells(cells[x..y], e);
    }
    RegroupEnd(Flatten(cells[..o]), d, Staying(m, e), Flatten(cells[y..]));
  }

  /** A drag to the right within a placed row read in increasing order keeps the row's reading. */
  lemma RightRowKeepsReading(cells: seq<Cell>, e: Drag, w: nat)
    requires e.overCol.Some? && PlacedRow(cells, e.activeRow) && OrdersIncrease(Flatten(cells))
    requires e.activeCol < e.overCol.value < |cells| && w == e.overCol.value + 1
    ensures var o := e.overCol.value;
      var drop := SortByOrder(Moving(Flatten(cells), e) + cells[o]);
      Flatten(StayCells(cells, e)[o := drop]) == Flatten(cells)
  {
    var o, ac := e.overCol.value, e.activeCol;
    var moved := Moving(Flatten(cells), e);
    var m := Flatten(cells[ac..o]);
    var d := moved + cells[o];
    var mid := StayCells(cells[ac..o], e);
    RightMoving(cells, e, w);
    assert SortByOrder(d) == d by {
      OrdersIncreaseSplit((Flatten(cells[..ac]) + Staying(m, e)) + d, Flatten(cells[w..]));
      OrdersIncreaseSplit(Flatten(cells[..ac]) + Staying(m, e), d);
      SortByOrderSame(d);
    }
    var c := StayCells(cells, e)[o := d];
    assert c == cells[..ac] + mid + [d] + cells[w..] by {
      SelectedColumns(e, ac, o);
      StayCellsOutside(cells, e, ac, o);
      StayCellsBetween(cells, e, ac, o);
      SpliceRight(StayCells(cells, e), cells, d, mid, ac, o, w);
    }
    FlattenFourRight(cells[..ac], mid, d, cells[w..]);
    FlattenStayCells(cells[ac..o], e);
  }

  /**
   * A drop on another column keeps the dragged token's row in reading
   * order: read left to right, the row holds the same tokens in the same
   * order as before, only the cell boundaries move.
   */
  lemma RelocatedKeepsReading(data: seq<Row>, e: Drag)
    requires Fits(data, e) && Moves(e) && Placed(data) && UniqueIds(data)
    requires OrdersIncrease(Flatten(data[e.activeRow].cells))
    ensures Flatten(Relocated(data, e)[e.activeRow].cells) == Flatten(data[e.activeRow].cells)
  {
    var a := e.activeRow;
    var cells := data[a].cells;
    RelocatedRow(data, e);
    assert PlacedRow(cells, a);
    RowKeepsReading(cells, e, Relocated(data, e)[a].cells);
  }

  /** On a grid whose rows read in increasing order, a drop leaves every row reading as before. */
  lemma RelocatedRowsRead(data: seq<Row>, e: Drag)
    requires Fits(data, e) && Moves(e) && Placed(data) && UniqueIds(data) && InReadingOrder(data)
    ensures forall r :: 0 <= r < |data| ==> Flatten(Relocated(data, e)[r].cells) == Flatten(data[r].cells)
  {
    RelocatedKeepsReading(data, e);
  }

  /** A row whose cells are those of a drop on another column reads as before. */
  lemma RowKeepsReading(cells: seq<Cell>, e: Drag, r: seq<Cell>)
    requires Moves(e) && PlacedRow(cells, e.activeRow) && OrdersIncrease(Flatten(cells))
    requires e.activeCol < |cells| && e.overCol.value < |cells| && |r| == |cells|
    requires var o, moved := e.overCol.value, Moving(Flatten(cells), e);
      && (forall i :: 0 <= i < |cells| && i != o ==> r[i] == Staying(cells[i], e))
      && r[o] == SortByOrder(if e.activeCol > o then cells[o] + moved else moved + cells[o])
    ensures Flatten(r) == Flatten(cells)
  {
    var o, sc := e.overCol.value, StayCells(cells, e);
    assert r == sc[o := r[o]] by {
      forall i | 0 <= i < |cells| && i != o ensures r[i] == sc[i] {
        StayCellsAt(cells, e, i);
      }
      AgreeBut(r, sc, o);
    }
    if e.activeCol > o {
      LeftRowKeepsReading(cells, e, o + 1, e.activeCol + 1);
    } else {
      RightRowKeepsReading(cells, e, o + 1);
    }
  }

  /** Two rows of cells that agree everywhere but at `o`. */
  lemma AgreeBut(r: seq<Cell>, c: seq<Cell>, o: nat)
    requires |r| == |c| && o < |c|
    requires forall i :: 0 <= i < |c| && i != o ==> r[i] == c[i]
    ensures r == c[o := r[o]]
  {
  }

  /**
   * A drag to the right carries every later token of the witness lying
   * between the two columns: with `a` in column 0 and `b` in column 1,
   * dropping `a` on column 2 moves both, in order.
   */
  lemma RightMoveCarriesRun(w: string, a: Token, b: Token)
    requires a.row == Some(0) && a.col == Some(0) && a.order == Some(0) && a.id == Some(0)
    requires b.row == Some(0) && b.col == Some(1) && b.order == Some(1) && b.id == Some(1)
    ensures Relocated([Row(w, [[a], [b], []])], Drag(0, 0, 0, Some(2))) == [Row(w, [[], [], [a, b]])]
  {
    var data := [Row(w, [[a], [b], []])];
    var e := Drag(0, 0, 0, Some(2));
    TwoTokenSelection(w, data[0].cells, a, b, e);
    assert Dropped(data, e) == [a, b] by {
      assert [a, b] + [] == [a, b];
      InOrder(a, b);
    }
    var cells := Filtered(data, e)[2 := Dropped(data, e)];
    assert cells == [[], [], [a, b]];
  }

  /**
   * A drag to the left carries every earlier token of the witness lying
   * between the two columns: with `a` in column 1 and `b` in column 2,
   * dropping `b` on column 0 moves both into column 0, in order.
   */
  lemma LeftMoveCarriesRun(w: string, a: Token, b: Token)
    requires a.row == Some(0) && a.col == Some(1) && a.order == Some(0) && a.id == Some(0)
    requires b.row == Some(0) && b.col == Some(2) && b.order == Some(1) && b.id == Some(1)
    ensures Relocated([Row(w, [[], [a], [b]])], Drag(1, 0, 2, Some(0))) == [Row(w, [[a, b], [], []])]
  {
    var data := [Row(w, [[], [a], [b]])];
    var e := Drag(1, 0, 2, Some(0));
    TwoTokenSelection(w, data[0].cells, a, b, e);
    assert Dropped(data, e) == [a, b] by {
      assert [] + [a, b] == [a, b];
      InOrder(a, b);
    }
    var cells := Filtered(data, e)[0 := Dropped(data, e)];
    assert cells == [[a, b], [], []];
  }

  /** In both scenarios both tokens are selected and every cell of the row is emptied by the filter. */
  lemma TwoTokenSelection(w: string, cells: seq<Cell>, a: Token, b: Token, e: Drag)
    requires a.row == Some(0) && a.id == Some(0) && b.row == Some(0) && b.id == Some(1)
    requires || (cells == [[a], [b], []] && e == Drag(0, 0, 0, Some(2)) && a.col == Some(0) && b.col == Some(1))
             || (cells == [[], [a], [b]] && e == Drag(1, 0, 2, Some(0)) && a.col == Some(1) && b.col == Some(2))
    requires a.order == Some(0) && b.order == Some(1)
    ensures Fits([Row(w, cells)], e) && Moves(e)
    ensures Moving(FlattenedTokens([Row(w, cells)]), e) == [a, b]
    ensures Filtered([Row(w, cells)], e) == [[], [], []]
  {
    TwoTokenGrid(w, cells, a, b);
    assert Moving([b], e) == [b];
    var ids := Ids([a, b]);
    assert ids == [Some(0), Some(1)];
    assert Without([a], ids) == [] && Without([b], ids) == [];
  }

  /** Two tokens already in order are left as they are by the sort. */
  lemma InOrder(a: Token, b: Token)
    requires Key(a) <= Key(b)
    ensures SortByOrder([a, b]) == [a, b]
  {
    assert [a, b][1..] == [b];
    assert InsertByOrder(b, []) == [b];
  }

  /** The token list of a one-row grid holding `a` and then `b`, with one empty cell. */
  lemma TwoTokenGrid(w: string, cells: seq<Cell>, a: Token, b: Token)
    requires cells == [[a], [b], []] || cells == [[], [a], [b]]
    ensures FlattenedTokens([Row(w, cells)]) == [a, b]
  {
    var rows := [Row(w, cells)];
    assert rows[1..] == [];
    assert cells[1..][1..][1..] == [];
    assert Flatten(cells[1..][1..]) == cells[2];
    assert Flatten(cells[1..]) == cells[1] + cells[2];
    assert Flatten(cells) == cells[0] + cells[1] + cells[2];
  }
}
