/**
 * The shapes validated by the zod schemas of the collation store: tokens, cells,
 * columns, the persisted alignment table, the editor's row view and collations.
 */
module Schema {
  import opened Wrappers

  /** Reading direction of a collation (`Dir` enum). */
  datatype Dir = RTL | LTR

  /** A value of one of a token's open-ended annotations: a string or a number. */
  datatype Annot = Str(s: string) | Num(x: real)

  /**
   * A token: the required text `t`, the optional normalised form `n`, any
   * further annotations, and the four fields the editor adds to every token
   * it loads (`collatexEditorTokenOrder`, `...Row`, `...Col`, `...Id`), each
   * `None` while the key is absent. The id is drawn from a fresh-id supply;
   * see `Codec`.
   */
  datatype Token = Token(
    t: string, n: Option<string>, extra: map<string, Annot>,
    order: Option<int>, row: Option<nat>, col: Option<nat>, id: Option<nat>)
  {
    /** The token carries none of the editor fields, neither typed nor as a plain annotation. */
    predicate Unstamped() {
      order.None? && row.None? && col.None? && id.None? && extra.Keys !! EditorKeys
    }
  }

  /** The tokens one witness has in one column. */
  type Cell = seq<Token>

  /** One cell per witness, in witness order. */
  type Column = seq<Cell>

  /** The persisted, column-major alignment table. */
  datatype Table = Table(witnesses: seq<string>, table: seq<Column>)

  /** The editor's view of one witness: its `witness` label (`siglum`, since `witness` is a Dafny keyword) and its cells by column index. */
  datatype Row = Row(siglum: string, cells: seq<Cell>)

  /** A stored collation; `alignmentTable` is `None` for `null`. */
  datatype Collation = Collation(id: string, name: string, dir: Dir, alignmentTable: Option<Table>)

  /**
   * A collation object as handed to `collationSchema.parse`: every key may be
   * missing. `alignmentTable` is `None` when the key is missing and
   * `Some(None)` when it is `null`.
   */
  datatype CollationInput = CollationInput(
    id: Option<string>, name: Option<string>, dir: Option<Dir>, alignmentTable: Option<Option<Table>>)

  /** A raw JSON scalar of a token record before validation. */
  datatype Scalar = SStr(s: string) | SNum(x: real) | SOther

  const TextKey: string := "t"
  const NormalKey: string := "n"

  /** The JSON keys of the four editor fields. A table the editor exported carries them on every token. */
  const EditorKeys: set<string> :=
    {"collatexEditorTokenOrder", "collatexEditorTokenRow", "collatexEditorTokenCol", "collatexEditorTokenId"}

  /**
   * `tokenSchema`: a record whose every value is a string or a number, with
   * a string `t` and, if present, a string `n`. Every other key becomes an
   * annotation, the editor keys of a re-imported table included: they are
   * plain numbers and strings to the schema, and the editor overwrites them
   * when it loads the table (`Codec.Stamp`).
   */
  function ParseToken(raw: map<string, Scalar>): (r: Option<Token>)
    ensures r.Some? <==>
      && TextKey in raw && raw[TextKey].SStr?
      && (NormalKey in raw ==> raw[NormalKey].SStr?)
      && (forall k :: k in raw ==> !raw[k].SOther?)
    ensures r.Some? ==> r.value.t == raw[TextKey].s
    ensures r.Some? ==> (r.value.n.Some? <==> NormalKey in raw)
    ensures r.Some? ==> r.value.extra.Keys == raw.Keys - {TextKey, NormalKey}
    ensures r.Some? ==> r.value.order.None? && r.value.row.None? && r.value.col.None? && r.value.id.None?
    ensures r.Some? ==> (r.value.Unstamped() <==> raw.Keys !! EditorKeys)
  {
    if TextKey in raw && raw[TextKey].SStr?
       && (NormalKey in raw ==> raw[NormalKey].SStr?)
       && (forall k :: k in raw ==> !raw[k].SOther?)
    then
      Some(Token(
        raw[TextKey].s,
        if NormalKey in raw then Some(raw[NormalKey].s) else None,
        map k | k in raw && k != TextKey && k != NormalKey :: ToAnnot(raw[k]),
        None, None, None, None))
    else None
  }

  function ToAnnot(v: Scalar): Annot
    requires !v.SOther?
  {
    if v.SStr? then Str(v.s) else Num(v.x)
  }

  function FromAnnot(a: Annot): Scalar {
    match a
    case Str(s) => SStr(s)
    case Num(x) => SNum(x)
  }

  /** The JSON record of an unstamped token. */
  function TokenRecord(tok: Token): map<string, Scalar> {
    var base := (map k | k in tok.extra :: FromAnnot(tok.extra[k]))[TextKey := SStr(tok.t)];
    if tok.n.Some? then base[NormalKey := SStr(tok.n.value)] else base
  }

  /** Parsing the record of an unstamped token gives the token back. */
  lemma ParseTokenRecord(tok: Token)
    requires tok.Unstamped() && TextKey !in tok.extra && NormalKey !in tok.extra
    ensures ParseToken(TokenRecord(tok)) == Some(tok)
  {
    var raw := TokenRecord(tok);
    var parsed := ParseToken(raw);
    assert parsed.Some?;
    var e := map k | k in raw && k != TextKey && k != NormalKey :: ToAnnot(raw[k]);
    assert e == tok.extra;
  }

  /**
   * `collationSchema.parse`: `name` defaults to the empty string, `dir` to
   * left-to-right, `id` to the one uuid drawn when the schema was built
   * (`defaultId`); `alignmentTable` may be `null` but not missing.
   */
  function ParseCollation(input: CollationInput, defaultId: string): (r: Option<Collation>)
    ensures r.Some? <==> input.alignmentTable.Some?
    ensures r.Some? ==> r.value.name == input.name.GetOr("")
    ensures r.Some? ==> r.value.dir == input.dir.GetOr(LTR)
    ensures r.Some? ==> r.value.id == input.id.GetOr(defaultId)
    ensures r.Some? ==> r.value.alignmentTable == input.alignmentTable.value
  {
    match input.alignmentTable
    case None => None
    case Some(table) =>
      Some(Collation(
        input.id.GetOr(defaultId),
        input.name.GetOr(""),
        input.dir.GetOr(LTR),
        table))
  }

  /** The input object of a collation with every key present. */
  function CollationFields(c: Collation): CollationInput {
    CollationInput(Some(c.id), Some(c.name), Some(c.dir), Some(c.alignmentTable))
  }

  /** Parsing a stored collation gives it back unchanged, whatever the default id. */
  lemma ParseCollationFields(c: Collation, defaultId: string)
    ensures ParseCollation(CollationFields(c), defaultId) == Some(c)
  {
  }

  /** An empty input parses only if it has `alignmentTable`, and then takes every default. */
  lemma CollationDefaults(table: Option<Table>, defaultId: string)
    ensures ParseCollation(CollationInput(None, None, None, Some(table)), defaultId)
         == Some(Collation(defaultId, "", LTR, table))
    ensures ParseCollation(CollationInput(None, None, None, None), defaultId) == None
  {
  }
}
