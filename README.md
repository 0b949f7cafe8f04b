# collatex-editor: the alignment-table editor, modelled in Dafny

collatex-editor is a browser editor for CollateX alignment tables. A
collation holds a column-major alignment table: one column per alignment
position, one cell per witness, and a list of tokens in each cell. The
editor turns the table into one row per witness and stamps every token
with four editor fields: an order counter, its row, its column and a
fresh id. The user then inserts and deletes columns, drags a witness row
to a new place, or drags tokens between the columns of one witness. Every
edit is saved to the collation store as a new alignment table, and the
rows are loaded again from that table.

The model covers the table codec, the grid edits and the store:

- `wrappers.dfy`: `Option`.
- `schema.dfy` (`Schema`): tokens, cells, tables, rows and collations, plus
  what the zod schemas accept and the defaults they fill in.
- `grid.dfy` (`Grid`): the `flattenedTokens` list and the facts the editor
  keeps about stamped tokens: placed, rectangular, unique ids.
- `codec.dfy` (`Codec`): `getReactTableData` as three nested loops, proved
  against the specification function `EditRows`, and `getAlignmentTable`.
- `columns.dfy` (`Columns`): column insert, column delete and the
  delete guard `disableDeleteColumn`.
- `rows.dfy` (`Rows`): the row-drag `onDragEnd`, which splices an array in
  place.
- `relocate.dfy` (`Relocate`): the token `onDragEnd`, which carries a run
  of tokens to the drop column and sorts the drop cell by order.
- `store.dfy` (`Store`): the store class with its four actions.
- `editor.dfy` (`Editor`): the editor as a class. It holds `data`,
  `numCols`, the collation and the store. Each edit saves and reloads and
  keeps the editor's invariant.

`uuidv4()` is modelled as a supply of consecutive natural numbers. The
distinctness of the ids is therefore a theorem (`Codec.LoadedIdsDistinct`).
The default id of `collationSchema`, drawn once when the schema is built,
is a parameter.

Behaviour worth noting:

- The order counter of a witness starts at -1, because
  `tokenOrder++` hands out its old value starting from -1
  (`Codec.RowOrders`).
- `getAlignmentTable` takes the column count from the number of keys of
  the widest row. It throws when there are no rows.
- A drag to the right carries every later token of the witness between the
  two columns along with the dragged one (`Relocate.RightMoveCarriesRun`).
  Dropping `A` (column 0) past `B` (column 1) on column 2 leaves
  `[[], [], [A, B]]`.
- The column delete renumbers the `col` field of the tokens it shifts
  (`Columns.Recol`). The column insert and the token drag leave the `col`
  fields as they are; the reload after the save stamps every token again.
- The row drag and the token drag change the shared `data` in place; they
  are not value-wise.
- Every row of the editor reads its tokens in strictly increasing order,
  because the load numbers them left to right. A token drop therefore only
  moves cell boundaries: each row keeps its tokens in the same order
  (`Relocate.RelocatedRowsRead`, `Editor.Editor.DragToken`).

## Model

| member | source | states |
|---|---|---|
| Schema.ParseToken | src/store.ts:14-20 | a record parses exactly when `t` is a string, `n` is absent or a string and every value is a string or a number; the token keeps `t`, has `n` iff the record does, and keeps every other key as an annotation; its typed editor fields are empty, and it carries no editor key at all iff the record had none |
| Schema.ParseTokenRecord | src/store.ts:14-20 | parsing the record of an unstamped token gives the token back |
| Schema.ParseCollation | src/store.ts:38-43 | a collation parses exactly when `alignmentTable` is present (possibly `null`); missing name, dir and id take `""`, left-to-right and the default id |
| Schema.ParseCollationFields | src/store.ts:38-43 | a stored collation parses back to itself |
| Schema.CollationDefaults | src/store.ts:38-43 | an object with only `alignmentTable` takes every default; one without it is refused |
| Grid.InFlatten | src/components/CollationEditor.tsx:237-241 | a token is in a row's flattened cells iff some cell holds it |
| Grid.InFlattenedTokens | src/components/CollationEditor.tsx:234-244 | a token is in `flattenedTokens` iff some cell of some row holds it |
| Grid.CollectTokens | src/components/CollationEditor.tsx:234-244 | the memoised loop builds `FlattenedTokens`: rows in order, columns in key order |
| Grid.PushRow | src/components/CollationEditor.tsx:237-241 | the inner loop appends the row's cells, left to right |
| Grid.StripFlatten | src/components/CollationEditor.tsx:237-241 | rows whose cells agree apart from the editor fields read the same tokens, left to right, apart from the editor fields |
| Grid.OrdersIncreasePairs | src/components/CollationEditor.tsx:82-87 | in a token sequence whose orders increase step by step, every token has an order and every earlier token a smaller one |
| Grid.OrdersIncreaseSplit | src/components/CollationEditor.tsx:82-87 | both halves of a sequence whose orders increase have increasing orders |
| Grid.CountingOrdersIncrease | src/components/CollationEditor.tsx:82-87 | tokens numbered by a running counter have increasing orders |
| Codec.GetReactTableData | src/components/CollationEditor.tsx:78-96 | the witness loop returns `EditRows`: `None` when some column is shorter than the witness list (the source throws), otherwise one stamped row per witness |
| Codec.StampFields | src/components/CollationEditor.tsx:85-91 | the spread sets the four editor fields and leaves no editor key among the annotations; stripping the result gives the stripped token |
| Codec.StampRow | src/components/CollationEditor.tsx:80-93 | the column loop fails exactly when some column has no cell for the witness; otherwise the row's cells stamped with the counter from -1 |
| Codec.StampTokens | src/components/CollationEditor.tsx:85-91 | the `map` stamps each token with the running order and id, the row and the column |
| Codec.ShortColumn | src/components/CollationEditor.tsx:85 | one column too short for a witness makes the whole load fail |
| Codec.StampCellAt | src/components/CollationEditor.tsx:85-91 | the i-th stamped token is the i-th token with order `order + i` and id `id + i` |
| Codec.StampCellPlaced | src/components/CollationEditor.tsx:85-91 | stamping writes the row and column into every token and changes no other field |
| Codec.CountStampCells | src/components/CollationEditor.tsx:83-92 | stamping keeps the number of tokens |
| Codec.StampCellsFlatten | src/components/CollationEditor.tsx:82-92 | across one row, the j-th token gets order `order + j`, id `id + j`, the row index, and keeps its content |
| Codec.StampCellsAt | src/components/CollationEditor.tsx:83-92 | the cell at column `c + k` is the table's cell with row and column `c + k` written in |
| Codec.EditRowsFromAt | src/components/CollationEditor.tsx:80-94 | the k-th loaded row is witness `r + k` with its cells stamped |
| Codec.EditRowsIds | src/components/CollationEditor.tsx:90 | in `flattenedTokens` order, the j-th loaded token has the j-th id of the supply |
| Codec.LoadedIdsDistinct | src/components/CollationEditor.tsx:90 | every loaded token has an id and no two tokens share one |
| Codec.RowOrders | src/components/CollationEditor.tsx:82-87 | in a loaded row the j-th token, left to right, has order `j - 1`, the row index and its own content |
| Codec.RowOrdersIncrease | src/components/CollationEditor.tsx:82-87 | order values strictly increase left to right within a loaded row |
| Codec.LoadedRowInReadingOrder | src/components/CollationEditor.tsx:80-93 | one loaded row, read left to right, has strictly increasing orders |
| Codec.LoadedInReadingOrder | src/components/CollationEditor.tsx:78-96 | every loaded row, read left to right, has strictly increasing orders |
| Codec.EditRowsCell | src/components/CollationEditor.tsx:80-92 | the loaded cell at row `r`, column `c` is the table's cell `c`, `r`, stamped in place |
| Codec.EditRowsPlaced | src/components/CollationEditor.tsx:78-96 | loading gives one row per witness, labelled with it; the grid is rectangular; every token sits where its fields say and holds the table's content |
| Codec.MaxCols | src/components/CollationEditor.tsx:99 | the column count is the largest row width and some row has it |
| Codec.AlignmentTableShape | src/components/CollationEditor.tsx:98-105 | `getAlignmentTable` keeps the witnesses and lays every row's cells out column by column, `[]` where a row is short |
| Codec.RoundTrip | src/components/CollationEditor.tsx:78-105 | loading a well-formed table and converting back gives the same witnesses, column count and tokens, apart from the editor fields |
| Columns.Inserted | src/components/CollationEditor.tsx:276-294 | one more cell: cells before `col` kept, cells after it shifted up, and an empty cell on the chosen side of `col` |
| Columns.InsertColumnRow | src/components/CollationEditor.tsx:277-293 | the keyed loop over `numCols` builds the inserted row |
| Columns.InsertedRows | src/components/CollationEditor.tsx:276-294 | every row gets the column inserted and keeps its witness |
| Columns.InsertColumn | src/components/CollationEditor.tsx:276-294 | the `data.map` returns `InsertedRows` |
| Columns.Recol | src/components/CollationEditor.tsx:310-313 | every token of the shifted cell gets the new column and keeps every other field |
| Columns.DeleteCells | src/components/CollationEditor.tsx:303-318 | the corrected delete: one cell fewer, cells before `col` kept, later cells shifted down with their column renumbered |
| Columns.DeleteCellsAsWritten | src/components/CollationEditor.tsx:303-318 | as written, the old last cell stays under its key, after the corrected result |
| Columns.ShiftDown | src/components/CollationEditor.tsx:304-316 | the copy, `delete` and shift loop leaves exactly these keys: later cells shifted and renumbered, the others kept, the last key stale |
| Columns.DeleteColumnRowAsWritten | src/components/CollationEditor.tsx:303-318 | one row through the keyed delete, as written |
| Columns.DeleteColumnRow | src/components/CollationEditor.tsx:303-318 | one row through the keyed delete with the stale key removed |
| Columns.DisableDeleteColumn | src/components/CollationEditor.tsx:323-331 | the guard holds iff some token of `flattenedTokens` has that column |
| Columns.DeletedRowsAsWritten | src/components/CollationEditor.tsx:303-318 | every row through the delete as written |
| Columns.DeletedRows | src/components/CollationEditor.tsx:303-318 | every row through the corrected delete |
| Columns.DeleteColumn | src/components/CollationEditor.tsx:299-321 | nothing when the guard holds; otherwise the rows through the corrected delete, with the column removed and no stale last cell |
| Columns.DisableIffOccupied | src/components/CollationEditor.tsx:323-331 | on a placed grid, the guard refuses exactly when some row has a token in that column |
| Columns.RecolSame | src/components/CollationEditor.tsx:310-313 | renumbering a cell to the column its tokens already have changes nothing |
| Columns.InsertThenDelete | src/components/CollationEditor.tsx:269-321 | deleting the column just inserted gives the row back |
| Columns.DeleteKeepsStaleLastCell | src/components/CollationEditor.tsx:304-316 | as written, deleting any but the last column keeps the old width and repeats the last cell |
| Columns.DeleteMiddleColumnExample | src/components/CollationEditor.tsx:304-316 | deleting the empty middle of `[[a], [], [b]]` gives `[[a], [b'], [b]]` as written and `[[a], [b']]` when corrected |
| Rows.Moved | src/components/CollationEditor.tsx:450-454 | the two splices keep the length and put the dragged row at the hovered index |
| Rows.MovedAt | src/components/CollationEditor.tsx:450-454 | outside the span between the two indices nothing moves; inside it every row shifts by one |
| Rows.MovedPermutes | src/components/CollationEditor.tsx:450-454 | the move loses and duplicates no row |
| Rows.MovedBack | src/components/CollationEditor.tsx:450-454 | dragging the row back undoes the move |
| Rows.MoveRow | src/components/CollationEditor.tsx:450-454 | the in-place splice on the array leaves `Moved` of the old contents |
| Rows.RowDropAsWritten | src/components/CollationEditor.tsx:447-457 | as written, the rows move only when the hovered index is non-zero and a row is being dragged |
| Rows.RowDrop | src/components/CollationEditor.tsx:447-457 | corrected, the rows move whenever a row is hovered and one is being dragged |
| Rows.RowDragEndAsWritten | src/components/CollationEditor.tsx:446-457 | the handler as written leaves `RowDropAsWritten` in the array |
| Rows.RowDragEnd | src/components/CollationEditor.tsx:446-457 | the corrected handler leaves `RowDrop` in the array |
| Rows.MoveToTopSkipped | src/components/CollationEditor.tsx:449 | as written, dropping the second row on the first changes nothing; corrected, it swaps them |
| Relocate.Moving | src/components/CollationEditor.tsx:691-697 | the `tokensToMove` filter keeps exactly the selected tokens |
| Relocate.Staying | src/components/CollationEditor.tsx:702-704 | the complementary filter keeps exactly the unselected tokens |
| Relocate.Ids | src/components/CollationEditor.tsx:698-700 | `tokensToMoveIds` lists the moved tokens' ids in order |
| Relocate.Without | src/components/CollationEditor.tsx:702-704 | the id filter keeps exactly the tokens whose id is not listed |
| Relocate.InsertByOrder | src/components/CollationEditor.tsx:709-712 | insertion adds one token |
| Relocate.InsertByOrderPermutes | src/components/CollationEditor.tsx:709-712 | insertion adds exactly that token |
| Relocate.InsertByOrderSorted | src/components/CollationEditor.tsx:709-712 | insertion into an order-sorted cell keeps it sorted |
| Relocate.SortByOrder | src/components/CollationEditor.tsx:709-712 | the stable sort keeps the length |
| Relocate.SortByOrderSorted | src/components/CollationEditor.tsx:709-712 | the sorted cell is ascending by order |
| Relocate.SortByOrderPermutes | src/components/CollationEditor.tsx:709-712 | the sorted cell holds the same tokens |
| Relocate.FilterRange | src/components/CollationEditor.tsx:701-705 | the cells from `lo` to `hi` lose the moved ids and the others are unchanged |
| Relocate.Filtered | src/components/CollationEditor.tsx:688-705 | the dragged token's row after the loop keeps its width |
| Relocate.Relocated | src/components/CollationEditor.tsx:676-740 | only the dragged token's row changes; it keeps its witness and its width |
| Relocate.FilterColumns | src/components/CollationEditor.tsx:701-705 | the `for` loop leaves `FilterRange` |
| Relocate.DragEnd | src/components/CollationEditor.tsx:676-740 | no update without a drop column or on the dragged token's own column; otherwise the data is `Relocated` |
| Relocate.MovingAppend | src/components/CollationEditor.tsx:691-697 | selection distributes over concatenation |
| Relocate.MovingNone | src/components/CollationEditor.tsx:691-697 | nothing is selected from unselected tokens |
| Relocate.PlacedOtherRows | src/components/CollationEditor.tsx:693 | on a placed grid, no token of another row is selected |
| Relocate.MovingNoRow | src/components/CollationEditor.tsx:691-697 | nothing is selected from rows without selected tokens |
| Relocate.MovingOnlyRow | src/components/CollationEditor.tsx:691-697 | filtering the whole `flattenedTokens` is filtering the dragged token's row |
| Relocate.IdsSelect | src/components/CollationEditor.tsx:698-704 | with unique ids, a token has a moved id iff it is selected |
| Relocate.WithoutStaying | src/components/CollationEditor.tsx:702-704 | filtering by the moved ids is filtering by selection |
| Relocate.StayingAll | src/components/CollationEditor.tsx:702-704 | a cell without selected tokens is kept whole |
| Relocate.SplitCell | src/components/CollationEditor.tsx:691-704 | the selected and unselected tokens of a cell together are the cell |
| Relocate.StayCellsAt | src/components/CollationEditor.tsx:701-705 | cell `i` of the filtered row is cell `i` without its selected tokens |
| Relocate.SplitCells | src/components/CollationEditor.tsx:691-705 | across a row, staying and selected tokens together are the row's tokens |
| Relocate.FlattenUpdate | src/components/CollationEditor.tsx:706-712 | replacing the drop cell trades its tokens for the new cell's |
| Relocate.FilteredStays | src/components/CollationEditor.tsx:701-705 | on a placed grid with unique ids, the loop removes exactly the selected tokens from every cell, keeping the rest in order |
| Relocate.RelocatedRow | src/components/CollationEditor.tsx:688-739 | the moved tokens are the row's selected ones; other cells lose them; the drop cell is sorted and gains them; the row keeps its tokens |
| Relocate.RightMoveCarriesRun | src/components/CollationEditor.tsx:713-735 | dropping `A` (column 0) on column 2 past `B` (column 1) gives `[[], [], [A, B]]` |
| Relocate.StayingAppend | src/components/CollationEditor.tsx:702-704 | the unselected tokens of two joined sequences are those of the first, then those of the second |
| Relocate.FlattenStayCells | src/components/CollationEditor.tsx:701-705 | reading the filtered cells left to right is filtering the row's tokens read left to right |
| Relocate.MovingAll | src/components/CollationEditor.tsx:691-704 | when every token is selected, all of them move, in order, and none stays |
| Relocate.KeysFromFirst | src/components/CollationEditor.tsx:706-712 | in a sequence with increasing orders, the first token has the smallest order |
| Relocate.SortByOrderSame | src/components/CollationEditor.tsx:706-712 | sorting a cell whose orders already increase leaves it as it is |
| Relocate.SelectedPrefix | src/components/CollationEditor.tsx:690-697 | in a sequence with increasing orders where exactly the tokens up to some order are selected, the selected tokens come first and the rest follow |
| Relocate.SelectedSuffix | src/components/CollationEditor.tsx:713-720 | in a sequence with increasing orders where exactly the tokens from some order on are selected, the unselected tokens come first and the selected follow |
| Relocate.SelectedColumns | src/components/CollationEditor.tsx:690-720 | every selected token lies in the columns the filter loop visits: after the drop column up to the dragged one for a left drag, from the dragged column up to before the drop column for a right drag |
| Relocate.LeftSides | src/components/CollationEditor.tsx:690-697 | on a left drag of a placed row, no token before or after the selected columns is selected, and between them a token is selected iff its order is at most the dragged token's |
| Relocate.RightSides | src/components/CollationEditor.tsx:713-720 | on a right drag of a placed row, no token outside the selected columns is selected, and within them a token is selected iff its order is at least the dragged token's |
| Relocate.KeptCell | src/components/CollationEditor.tsx:701-705 | a cell outside the selected columns holds no selected token and is kept whole |
| Relocate.StayCellsOutside | src/components/CollationEditor.tsx:701-705 | the filter leaves the cells outside the selected columns unchanged |
| Relocate.StayCellsBetween | src/components/CollationEditor.tsx:701-705 | filtering a run of cells is filtering each cell of that run |
| Relocate.LeftMoving | src/components/CollationEditor.tsx:690-712 | on a left drag of a row read in increasing order, the moved tokens are the leading tokens of the cells after the drop column, so the row reads as: cells up to the drop column, the moved tokens, the tokens left behind, the cells after the dragged one |
| Relocate.RightMoving | src/components/CollationEditor.tsx:713-735 | on a right drag of a row read in increasing order, the moved tokens are the trailing tokens of the cells from the dragged column up to the drop column, so they sit just before the drop cell's tokens |
| Relocate.LeftRowKeepsReading | src/components/CollationEditor.tsx:690-712 | after a left drop the row, read left to right, holds the same tokens in the same order |
| Relocate.RightRowKeepsReading | src/components/CollationEditor.tsx:713-735 | after a right drop the row, read left to right, holds the same tokens in the same order |
| Relocate.RowKeepsReading | src/components/CollationEditor.tsx:688-735 | a row made of the filtered cells and the sorted drop cell reads the same tokens in the same order as before the drop |
| Relocate.RelocatedKeepsReading | src/components/CollationEditor.tsx:676-740 | when the dragged token's row reads in increasing order, the drop keeps that row's tokens in the same order; only cell boundaries move |
| Relocate.RelocatedRowsRead | src/components/CollationEditor.tsx:676-740 | on a grid whose rows read in increasing order, after the drop every row reads the same tokens in the same order |
| Relocate.LeftMoveCarriesRun | src/components/CollationEditor.tsx:690-712 | dropping `B` (column 2) on column 0 with `A` in column 1 gives `[[A, B], [], []]` |
| Store.Has | src/store.ts:72 | `some` holds iff an entry has the id |
| Store.Replace | src/store.ts:79-81 | the `map` keeps the length |
| Store.Remove | src/store.ts:85 | the `filter` keeps exactly the entries with another id |
| Store.Find | src/store.ts:88 | `find` fails iff no entry has the id, and otherwise returns the first entry with that id |
| Store.CollationStore.constructor | src/store.ts:69 | the store starts empty |
| Store.CollationStore.ImportCollation | src/store.ts:70-76 | replaces the entries with the id, or appends; keeps ids unique |
| Store.CollationStore.UpdateCollation | src/store.ts:77-82 | replaces the entries with the id; keeps ids unique |
| Store.CollationStore.DeleteCollation | src/store.ts:83-86 | drops the entries with the id; keeps ids unique |
| Store.CollationStore.ExportCollation | src/store.ts:87-97 | writes the found collation's name and table; fails iff the id is unknown or the table is `null` |
| Store.ReplaceAt | src/store.ts:79-81 | entry `i` becomes the new collation where the id matches, else stays |
| Store.ReplaceAbsent | src/store.ts:79-81 | updating an unknown id changes nothing |
| Store.UpsertShape | src/store.ts:70-76 | an import replaces in place for a known id and appends otherwise |
| Store.FindUpdated | src/store.ts:77-82 | updating the collation found under its id leaves the new collation found under that id |
| Store.FindReplaced | src/store.ts:77-82 | after an update of a known id, looking it up gives the new collation |
| Store.FindUpserted | src/store.ts:70-76 | after an import, looking the id up gives the imported collation |
| Store.FindAppended | src/store.ts:74 | an appended collation with a new id is found |
| Store.ImportKeepsIdsUnique | src/store.ts:70-76 | importing keeps ids unique |
| Store.ReplaceKeepsIdsUnique | src/store.ts:77-82 | updating keeps ids unique |
| Store.RemoveKeepsIdsUnique | src/store.ts:83-86 | deleting keeps ids unique |
| Store.FindUnique | src/store.ts:88 | with unique ids, the lookup gives a collation exactly when it is in the list |
| Store.RemoveAppend | src/store.ts:83-86 | the delete keeps the remaining entries in order |
| Store.RemoveAbsent | src/store.ts:83-86 | deleting an unknown id changes nothing |
| Store.DeleteIdempotent | src/store.ts:83-86 | after a delete no entry has the id, and deleting again changes nothing |
| Store.ExportedIff | src/store.ts:87-97 | an export succeeds exactly for a found collation with a table, and writes its name and table |
| Store.ExportAfterImport | src/store.ts:70-97 | exporting a just-imported collation succeeds iff it has a table |
| Editor.Reload | src/components/CollationEditor.tsx:249-263 | the reload after a save has one row per saved row |
| Editor.ReloadPlaced | src/components/CollationEditor.tsx:249-263 | saving and reloading succeeds and gives a placed, rectangular grid with unique ids, the same witnesses and the same tokens per cell |
| Editor.ReloadValid | src/components/CollationEditor.tsx:249-263 | every reload is placed, has unique ids, is as wide as the longest saved row, and reads each row in increasing order |
| Editor.ReloadLoads | src/components/CollationEditor.tsx:98-105 | the table saved for non-empty rows always loads, and gives `Reload` |
| Editor.ReloadReads | src/components/CollationEditor.tsx:249-263 | reloading a rectangular grid keeps each row's tokens in the same order, apart from the editor fields |
| Editor.ReloadReadsAs | src/components/CollationEditor.tsx:249-263 | reloading rows that read like `data` gives rows that read like `data`, apart from the editor fields |
| Editor.RelocatedRectangular | src/components/CollationEditor.tsx:688-735 | a token drop keeps the grid rectangular |
| Editor.DragKeepsReading | src/components/CollationEditor.tsx:676-740 | after a drop, the save and the reload, every row reads the same tokens in the same order, apart from the editor fields |
| Editor.MaxColsRectangular | src/components/CollationEditor.tsx:99 | a rectangular grid of width `n` is saved with `n` columns |
| Editor.DeleteAsWrittenSavesStaleColumn | src/components/CollationEditor.tsx:299-321 | as written, deleting a column that is not the last saves a table that still has `n` columns while `numCols` drops to `n - 1` |
| Editor.ReloadEmptyColumn | src/components/CollationEditor.tsx:323-331 | a column empty in every saved row can be deleted after the reload |
| Editor.InsertedShape | src/components/CollationEditor.tsx:276-296 | inserting a column keeps the grid rectangular, one wider, with the new column empty |
| Editor.MovedRectangular | src/components/CollationEditor.tsx:450-454 | moving a row keeps the grid rectangular |
| Editor.Editor.constructor | src/components/CollationEditor.tsx:175-224 | opening the collation the store holds under its id, with a loadable table, sets `numCols` to its column count and `data` to the loaded rows, with the invariant |
| Editor.Editor.Save | src/components/CollationEditor.tsx:249-263 | the collation gets the new rows' table, the store's entry for it is replaced and still found, and `data` is reloaded from that table |
| Editor.Editor.UpdateCollation | src/components/CollationEditor.tsx:252-255 | the collation gets the new table and the store replaces its entry; the store still holds it under its id; the rows are untouched |
| Editor.Editor.Commit | src/components/CollationEditor.tsx:249-263 | saving a rectangular grid and reloading it keeps the invariant and the width, and updates the collation and the store |
| Editor.Editor.InsertColumn | src/components/CollationEditor.tsx:269-297 | keeps the invariant, adds one column, saves the inserted rows' table to the collation and the store, reloads from it, and the new column is deletable |
| Editor.Editor.DeleteColumn | src/components/CollationEditor.tsx:299-321 | keeps the invariant; a guarded column changes neither the editor nor the store; otherwise one column fewer, the table of the rows without it saved to the collation and the store, and the rows reloaded from it |
| Editor.Editor.MoveRow | src/components/CollationEditor.tsx:446-457 | keeps the invariant and the width; saves the moved rows' table to the collation and the store and reloads from it, or changes neither the editor nor the store without a drag |
| Editor.Editor.DragToken | src/components/CollationEditor.tsx:676-740 | keeps the invariant and the width, and every row reads the same tokens in the same order apart from the editor fields; saves the relocated rows' table to the collation and the store and reloads from it, or changes neither the editor nor the store without a move |

## Left out

- Rendering: the table component, its headers, the virtualisers, column widths (`setColumnWidth`, `getTextWidth`), drag overlays, right-to-left layout and the snackbar notifications.
- Persistence: local storage of the store, the devtools middleware, `JSONToFile` and the file reading behind imports. `ExportCollation` returns the file it would write.
- `uuidv4` randomness: ids come from a counter, and only their distinctness matters.
- zod's `.uuid()` format check on `id`. Numbers are `real`, with no floating point.
- The column headers are memoised with empty dependencies, so a header built before a delete can hand a stale column to a later handler. The model takes the column index as given.
- Aliasing: the token drag edits row objects that `data` still shares, and the row drag splices the state array itself. The model gives both handlers the result they compute; React's view of the mutation before `handleUpdateData` is not modelled.
- The token comparator `a.order - b.order` on tokens without an order gives `NaN`. The model sorts by `Key`, which treats a missing order as 0; every loaded token has one.
- A row is a sequence of cells, not an object with numeric keys. Every reachable row has the keys `0..n-1`; the stale last key of the delete is modelled explicitly.
- Editor.Editor.InsertColumn, Editor.Editor.DeleteColumn, Editor.Editor.MoveRow and Editor.Editor.DragToken: require non-empty `data`, because `getAlignmentTable` throws on zero rows.
- Editor.Editor.constructor: requires a table that is present and loads. A `null` table shows an error view instead of the editor, and a table with a short column makes the first `getReactTableData` throw while rendering.
- Columns.DeleteColumn: states the corrected delete, which drops the old last key (see Findings). The as-written delete is `Columns.DeletedRowsAsWritten`.
- Editor.Editor.DeleteColumn: uses the corrected delete (see Findings). The as-written delete is modelled in `Columns` and `Editor.DeleteAsWrittenSavesStaleColumn`.
- Editor.Editor.MoveRow: uses the corrected guard (see Findings). The as-written handler is `Rows.RowDragEndAsWritten`.
- The collation form, the list page, routing and the name validation are not part of this model.

## Findings

| source | as written | input that shows it | evidently intended | confidence | as-written member | corrected member |
|---|---|---|---|---|---|---|
| src/components/CollationEditor.tsx:304-316 | the row is copied with all its keys; only `col` is deleted and later keys are rewritten one lower, so the old last key survives | rows `[[a], [], [b]]`, delete column 1: the row becomes `[[a], [b'], [b]]` and the saved table keeps 3 columns while `numCols` is 2 | the last key is removed, giving `[[a], [b']]` | not executed | Columns.DeleteMiddleColumnExample | Columns.InsertThenDelete |
| src/components/CollationEditor.tsx:449 | `hoveredRow?.index && draggingRow` is false when the hovered index is 0 | drag row 1 onto row 0: nothing moves | a row can be dropped on the first row, swapping the two | not executed | Rows.MoveToTopSkipped | Rows.RowDrop |
