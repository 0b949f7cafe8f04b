/**
 * Reading the editor's grid: counting and flattening cells, the
 * `flattenedTokens` list, and the facts the editor keeps about stamped tokens.
 */
module Grid {
  import opened Wrappers
  import opened Schema

  /** The number of tokens in a sequence of cells. */
  function Count(cells: seq<Cell>): nat {
    if cells == [] then 0 else |cells[0]| + Count(cells[1..])
  }

  /** The tokens of a sequence of cells, left to right and in cell order. */
  function Flatten(cells: seq<Cell>): (r: seq<Token>)
    ensures |r| == Count(cells)
  {
    if cells == [] then [] else cells[0] + Flatten(cells[1..])
  }

  /** A token is in the flattened cells exactly when it is in one of the cells. */
  lemma {:induction false} InFlatten(cells: seq<Cell>, tok: Token)
    ensures tok in Flatten(cells) <==> exists c :: 0 <= c < |cells| && tok in cells[c]
  {
    if cells != [] {
      InFlatten(cells[1..], tok);
      assert forall c :: 1 <= c < |cells| ==> cells[1..][c - 1] == cells[c];
      if tok in Flatten(cells[1..]) {
        var c :| 0 <= c < |cells[1..]| && tok in cells[1..][c];
        assert tok in cells[c + 1];
      }
    }
  }

  /** Flattening distributes over concatenation of cell sequences. */
  lemma {:induction false} FlattenAppend(a: seq<Cell>, b: seq<Cell>)
    ensures Flatten(a + b) == Flatten(a) + Flatten(b)
  {
    if a != [] {
      assert (a + b)[1..] == a[1..] + b;
      FlattenAppend(a[1..], b);
    } else {
      assert a + b == b;
    }
  }

  /** The token list `flattenedTokens`: every row in order, every column in key order. */
  function FlattenedTokens(rows: seq<Row>): seq<Token> {
    if rows == [] then [] else Flatten(rows[0].cells) + FlattenedTokens(rows[1..])
  }

  /** A token is in `flattenedTokens` exactly when some cell of some row holds it. */
  lemma {:induction false} InFlattenedTokens(rows: seq<Row>, tok: Token)
    ensures tok in FlattenedTokens(rows) <==>
      exists r, c :: 0 <= r < |rows| && 0 <= c < |rows[r].cells| && tok in rows[r].cells[c]
  {
    if rows != [] {
      InFlatten(rows[0].cells, tok);
      InFlattenedTokens(rows[1..], tok);
      if tok in FlattenedTokens(rows[1..]) {
        var r, c :| 0 <= r < |rows[1..]| && 0 <= c < |rows[1..][r].cells| && tok in rows[1..][r].cells[c];
        assert tok in rows[r + 1].cells[c];
      }
      if exists r, c :: 0 <= r < |rows| && 0 <= c < |rows[r].cells| && tok in rows[r].cells[c] {
        var r, c :| 0 <= r < |rows| && 0 <= c < |rows[r].cells| && tok in rows[r].cells[c];
        if r > 0 {
          assert tok in rows[1..][r - 1].cells[c];
        }
      }
    }
  }

  /**
   * Builds `flattenedTokens` the way the memoised loop does: for every row,
   * for every column key, push the cell's tokens.
   */
  method CollectTokens(rows: seq<Row>) returns (tokens: seq<Token>)
    ensures tokens == FlattenedTokens(rows)
  {
    tokens := [];
    for r := 0 to |rows|
      invariant tokens + FlattenedTokens(rows[r..]) == FlattenedTokens(rows)
    {
      assert rows[r..][1..] == rows[r + 1..];
      assert FlattenedTokens(rows[r..]) == Flatten(rows[r].cells) + FlattenedTokens(rows[r + 1..]);
      tokens := PushRow(tokens, rows[r]);
    }
  }

  /** The inner `for ... of Object.entries(row)` loop: push every cell of one row. */
  method PushRow(before: seq<Token>, row: Row) returns (tokens: seq<Token>)
    ensures tokens == before + Flatten(row.cells)
  {
    var cells := row.cells;
    tokens := before;
    for c := 0 to |cells|
      invariant tokens + Flatten(cells[c..]) == before + Flatten(cells)
    {
      assert cells[c..][1..] == cells[c + 1..];
      assert Flatten(cells[c..]) == cells[c] + Flatten(cells[c + 1..]);
      tokens := tokens + cells[c];
    }
    assert cells[|cells|..] == [];
  }

  /** The token with its editor fields removed: what the collation tool wrote. */
  function Strip(tok: Token): (r: Token)
    ensures r.Unstamped()
    ensures r.t == tok.t && r.n == tok.n
    ensures forall k :: k in tok.extra && k !in EditorKeys ==> k in r.extra && r.extra[k] == tok.extra[k]
  {
    tok.(order := None, row := None, col := None, id := None, extra := tok.extra - EditorKeys)
  }

  function StripCell(cell: Cell): (r: Cell)
    ensures |r| == |cell|
    ensures forall i :: 0 <= i < |cell| ==> r[i] == Strip(cell[i])
  {
    seq(|cell|, i requires 0 <= i < |cell| => Strip(cell[i]))
  }

  /** Stripping a concatenation strips each part. */
  lemma StripCellAppend(a: Cell, b: Cell)
    ensures StripCell(a + b) == StripCell(a) + StripCell(b)
  {
  }

  /**
   * Two rows whose cells agree apart from the editor fields read the same
   * tokens apart from the editor fields.
   */
  lemma {:induction false} StripFlatten(a: seq<Cell>, b: seq<Cell>)
    requires |a| == |b| && forall c :: 0 <= c < |a| ==> StripCell(a[c]) == StripCell(b[c])
    ensures StripCell(Flatten(a)) == StripCell(Flatten(b))
  {
    if a != [] {
      StripFlatten(a[1..], b[1..]);
      StripCellAppend(a[0], Flatten(a[1..]));
      StripCellAppend(b[0], Flatten(b[1..]));
    }
  }

  /** `row[i] || []`: the cell at column `i`, or an empty cell when the row has no such key. */
  function CellAt(row: Row, i: nat): Cell {
    if i < |row.cells| then row.cells[i] else []
  }

  /** Every token sits where its editor fields say: row `r`, column `c`. */
  ghost predicate Placed(rows: seq<Row>) {
    forall r, c, i :: 0 <= r < |rows| && 0 <= c < |rows[r].cells| && 0 <= i < |rows[r].cells[c]| ==>
      rows[r].cells[c][i].row == Some(r) && rows[r].cells[c][i].col == Some(c)
  }

  /** Every row has exactly `n` column keys (the grid is rectangular). */
  ghost predicate Rectangular(rows: seq<Row>, n: nat) {
    forall r :: 0 <= r < |rows| ==> |rows[r].cells| == n
  }

  /** Every token has an order, and each token's order is smaller than the next one's. */
  predicate OrdersIncrease(s: seq<Token>) {
    s == [] ||
      (&& s[0].order.Some? && OrdersIncrease(s[1..])
       && (|s| > 1 ==> s[1].order.Some? && s[0].order.value < s[1].order.value))
  }

  /** Read left to right, the tokens of every row have strictly increasing orders. */
  ghost predicate InReadingOrder(rows: seq<Row>) {
    forall r :: 0 <= r < |rows| ==> OrdersIncrease(Flatten(rows[r].cells))
  }

  /** In an increasing sequence every token has an order, and any earlier token has a smaller one. */
  lemma {:induction false} OrdersIncreasePairs(s: seq<Token>)
    requires OrdersIncrease(s)
    ensures forall i :: 0 <= i < |s| ==> s[i].order.Some?
    ensures forall i, j :: 0 <= i < j < |s| ==> s[i].order.value < s[j].order.value
  {
    if s != [] {
      OrdersIncreasePairs(s[1..]);
      assert forall i :: 0 < i < |s| ==> s[i] == s[1..][i - 1];
    }
  }

  /** Both parts of an increasing sequence increase. */
  lemma {:induction false} OrdersIncreaseSplit(a: seq<Token>, b: seq<Token>)
    requires OrdersIncrease(a + b)
    ensures OrdersIncrease(a) && OrdersIncrease(b)
  {
    if a == [] {
      assert a + b == b;
    } else {
      assert (a + b)[1..] == a[1..] + b;
      OrdersIncreaseSplit(a[1..], b);
      if |a| > 1 {
        assert (a + b)[1] == a[1];
      }
    }
  }

  /** A sequence whose orders count up from `base` increases. */
  lemma {:induction false} CountingOrdersIncrease(s: seq<Token>, base: int)
    requires forall j :: 0 <= j < |s| ==> s[j].order == Some(base + j)
    ensures OrdersIncrease(s)
  {
    if s != [] {
      assert forall j :: 0 <= j < |s[1..]| ==> s[1..][j] == s[j + 1];
      CountingOrdersIncrease(s[1..], base + 1);
    }
  }

  /** Every token of the grid has an id, and no two positions of `flattenedTokens` share one. */
  ghost predicate UniqueIds(rows: seq<Row>) {
    var f := FlattenedTokens(rows);
    && (forall i :: 0 <= i < |f| ==> f[i].id.Some?)
    && (forall i, j :: 0 <= i < |f| && 0 <= j < |f| && i != j ==> f[i].id != f[j].id)
  }
}
