/**
 * The collation store (`useDataStore`): one list of collations, replaced as
 * a whole by each action. Persistence to local storage and the snackbar
 * notifications are not part of this model.
 */
module Store {
  import opened Wrappers
  import opened Schema

  /** `collations.some(o => o.id === id)`. */
  function Has(cs: seq<Collation>, id: string): (r: bool)
    ensures r <==> exists i :: 0 <= i < |cs| && cs[i].id == id
  {
    cs != [] && (cs[0].id == id || Has(cs[1..], id))
  }

  /** `collations.map(o => o.id === data.id ? data : o)`. */
  function Replace(cs: seq<Collation>, data: Collation): (r: seq<Collation>)
    ensures |r| == |cs|
  {
    if cs == [] then []
    else [if cs[0].id == data.id then data else cs[0]] + Replace(cs[1..], data)
  }

  /** `collations.filter(o => o.id !== id)`. */
  function Remove(cs: seq<Collation>, id: string): (r: seq<Collation>)
    ensures |r| <= |cs|
    ensures forall c :: c in r <==> c in cs && c.id != id
  {
    if cs == [] then []
    else if cs[0].id != id then [cs[0]] + Remove(cs[1..], id)
    else Remove(cs[1..], id)
  }

  /** `collations.find(c => c.id === id)`: the first collation with that id. */
  function Find(cs: seq<Collation>, id: string): (r: Option<Collation>)
    ensures r.None? <==> !Has(cs, id)
    ensures r.Some? ==> r.value in cs && r.value.id == id
    ensures r.Some? ==> exists i :: 0 <= i < |cs| && cs[i] == r.value && forall j :: 0 <= j < i ==> cs[j].id != id
  {
    if cs == [] then None
    else if cs[0].id == id then Some(cs[0])
    else
      var r := Find(cs[1..], id);
      assert r.Some? ==> exists i :: 0 < i < |cs| && cs[i] == r.value && forall j :: 0 <= j < i ==> cs[j].id != id by {
        if r.Some? {
          var i :| 0 <= i < |cs[1..]| && cs[1..][i] == r.value && forall j :: 0 <= j < i ==> cs[1..][j].id != id;
          assert cs[i + 1] == r.value;
          assert forall j :: 0 <= j < i + 1 ==> cs[j].id != id by {
            forall j | 0 <= j < i + 1 ensures cs[j].id != id {
              if j > 0 { assert cs[j] == cs[1..][j - 1]; }
            }
          }
        }
      }
      r
  }

  /** The list after `importCollation`: replace the entries with the same id, or append. */
  function Upsert(cs: seq<Collation>, data: Collation): seq<Collation> {
    if Has(cs, data.id) then Replace(cs, data) else cs + [data]
  }

  /** What `JSONToFile` is handed: the file name and the object to write. */
  datatype ExportFile = ExportFile(filename: string, obj: Table)

  /** `exportCollation`: the file written, or `None` for "Export Failed". */
  function Exported(cs: seq<Collation>, id: string): Option<ExportFile> {
    match Find(cs, id)
    case None => None
    case Some(c) =>
      match c.alignmentTable
      case None => None
      case Some(t) => Some(ExportFile(c.name, t))
  }

  /** No two collations share an id. */
  predicate UniqueCollationIds(cs: seq<Collation>) {
    forall i, j :: 0 <= i < j < |cs| ==> cs[i].id != cs[j].id
  }

  /** The store and its four actions. */
  class CollationStore {
    var collations: seq<Collation>

    constructor ()
      ensures collations == []
    {
      collations := [];
    }

    method ImportCollation(data: Collation)
      modifies this
      ensures collations == Upsert(old(collations), data)
      ensures UniqueCollationIds(old(collations)) ==> UniqueCollationIds(collations)
    {
      if UniqueCollationIds(collations) {
        ImportKeepsIdsUnique(collations, data);
      }
      collations := if Has(collations, data.id) then Replace(collations, data) else collations + [data];
    }

    method UpdateCollation(data: Collation)
      modifies this
      ensures collations == Replace(old(collations), data)
      ensures UniqueCollationIds(old(collations)) ==> UniqueCollationIds(collations)
    {
      ReplaceKeepsIdsUnique(collations, data);
      collations := Replace(collations, data);
    }

    method DeleteCollation(id: string)
      modifies this
      ensures collations == Remove(old(collations), id)
      ensures UniqueCollationIds(old(collations)) ==> UniqueCollationIds(collations)
    {
      RemoveKeepsIdsUnique(collations, id);
      collations := Remove(collations, id);
    }

    /** Reads the list and never changes it; `None` is the failure notification. */
    method ExportCollation(id: string) returns (file: Option<ExportFile>)
      ensures file == Exported(collations, id)
      ensures file.None? <==> !Has(collations, id) || Find(collations, id).value.alignmentTable.None?
    {
      var collation := Find(collations, id);
      if collation.None? || collation.value.alignmentTable.None? {
        return None;
      }
      file := Some(ExportFile(collation.value.name, collation.value.alignmentTable.value));
    }
  }

  /** Entry `i` after the replace: `data` where the id matches, the old entry otherwise. */
  lemma {:induction false} ReplaceAt(cs: seq<Collation>, data: Collation, i: nat)
    requires i < |cs|
    ensures Replace(cs, data)[i] == if cs[i].id == data.id then data else cs[i]
  {
    if i > 0 {
      ReplaceAt(cs[1..], data, i - 1);
    }
  }

  /** `updateCollation` with an id no entry has changes nothing. */
  lemma {:induction false} ReplaceAbsent(cs: seq<Collation>, data: Collation)
    requires !Has(cs, data.id)
    ensures Replace(cs, data) == cs
  {
    if cs != [] {
      ReplaceAbsent(cs[1..], data);
    }
  }

  /**
   * `importCollation` replaces in place when the id is known, keeping the
   * length and every other entry, and appends at the end otherwise.
   */
  lemma UpsertShape(cs: seq<Collation>, data: Collation)
    ensures var r := Upsert(cs, data);
      && (Has(cs, data.id) ==> |r| == |cs| && forall i :: 0 <= i < |cs| ==> r[i] == if cs[i].id == data.id then data else cs[i])
      && (!Has(cs, data.id) ==> r == cs + [data] && |r| == |cs| + 1)
  {
    if Has(cs, data.id) {
      forall i | 0 <= i < |cs| ensures Replace(cs, data)[i] == if cs[i].id == data.id then data else cs[i] {
        ReplaceAt(cs, data, i);
      }
    }
  }

  /** After an import or an update of a known id, looking the id up gives the new collation. */
  lemma {:induction false} FindReplaced(cs: seq<Collation>, data: Collation)
    requires Has(cs, data.id)
    ensures Find(Replace(cs, data), data.id) == Some(data)
  {
    if cs[0].id != data.id {
      FindReplaced(cs[1..], data);
    }
  }

  /** Updating the collation found under its id with a new version makes the new version the one found. */
  lemma FindUpdated(cs: seq<Collation>, c: Collation, data: Collation)
    requires Find(cs, c.id) == Some(c) && data.id == c.id
    ensures Find(Replace(cs, data), c.id) == Some(data)
  {
    FindReplaced(cs, data);
  }

  /** After an import, the collation is found under its id. */
  lemma FindUpserted(cs: seq<Collation>, data: Collation)
    ensures Find(Upsert(cs, data), data.id) == Some(data)
  {
    if Has(cs, data.id) {
      FindReplaced(cs, data);
    } else {
      FindAppended(cs, data);
    }
  }

  /** Looking up the id of a collation appended to a list without it finds it. */
  lemma {:induction false} FindAppended(cs: seq<Collation>, data: Collation)
    requires !Has(cs, data.id)
    ensures Find(cs + [data], data.id) == Some(data)
  {
    if cs != [] {
      assert (cs + [data])[1..] == cs[1..] + [data];
      FindAppended(cs[1..], data);
    }
  }

  /** Importing keeps ids unique. */
  lemma ImportKeepsIdsUnique(cs: seq<Collation>, data: Collation)
    requires UniqueCollationIds(cs)
    ensures UniqueCollationIds(Upsert(cs, data))
  {
    UpsertShape(cs, data);
  }

  /** Updating keeps ids unique: every entry keeps its id. */
  lemma ReplaceKeepsIdsUnique(cs: seq<Collation>, data: Collation)
    ensures UniqueCollationIds(cs) ==> UniqueCollationIds(Replace(cs, data))
  {
    forall i | 0 <= i < |cs| ensures Replace(cs, data)[i].id == cs[i].id {
      ReplaceAt(cs, data, i);
    }
  }

  /** Deleting keeps ids unique: the kept entries are entries of the list, in order. */
  lemma {:induction false} RemoveKeepsIdsUnique(cs: seq<Collation>, id: string)
    ensures UniqueCollationIds(cs) ==> UniqueCollationIds(Remove(cs, id))
  {
    if cs != [] && UniqueCollationIds(cs) {
      var rest := Remove(cs[1..], id);
      assert UniqueCollationIds(cs[1..]);
      RemoveKeepsIdsUnique(cs[1..], id);
      if cs[0].id != id {
        forall c | c in rest ensures c.id != cs[0].id {
          var k :| 0 <= k < |cs[1..]| && cs[1..][k] == c;
          assert cs[k + 1] == c;
        }
        var r := [cs[0]] + rest;
        forall i, j | 0 <= i < j < |r| ensures r[i].id != r[j].id {
          assert r[j] == rest[j - 1] && r[j] in rest;
          if i > 0 { assert r[i] == rest[i - 1]; }
        }
      }
    }
  }

  /** With unique ids, the lookup finds exactly the collation carrying the id. */
  lemma FindUnique(cs: seq<Collation>, c: Collation)
    requires UniqueCollationIds(cs)
    ensures Find(cs, c.id) == Some(c) <==> c in cs
  {
    if c in cs {
      var k :| 0 <= k < |cs| && cs[k] == c;
      var r := Find(cs, c.id);
      var i :| 0 <= i < |cs| && cs[i] == r.value && forall j :: 0 <= j < i ==> cs[j].id != c.id;
      assert i == k;
    }
  }

  /** The filter distributes over concatenation, so the kept entries stay in their order. */
  lemma {:induction false} RemoveAppend(a: seq<Collation>, b: seq<Collation>, id: string)
    ensures Remove(a + b, id) == Remove(a, id) + Remove(b, id)
  {
    if a == [] {
      assert a + b == b;
    } else {
      assert (a + b)[1..] == a[1..] + b;
      RemoveAppend(a[1..], b, id);
    }
  }

  /** Deleting an id no entry has changes nothing. */
  lemma {:induction false} RemoveAbsent(cs: seq<Collation>, id: string)
    requires !Has(cs, id)
    ensures Remove(cs, id) == cs
  {
    if cs != [] {
      RemoveAbsent(cs[1..], id);
    }
  }

  /** Deleting leaves no entry with the id, so deleting again changes nothing. */
  lemma DeleteIdempotent(cs: seq<Collation>, id: string)
    ensures !Has(Remove(cs, id), id)
    ensures Remove(Remove(cs, id), id) == Remove(cs, id)
  {
    RemoveAbsent(Remove(cs, id), id);
  }

  /** An export succeeds exactly for a known id whose table is not `null`, and writes that table. */
  lemma ExportedIff(cs: seq<Collation>, id: string)
    ensures Exported(cs, id).Some? <==>
      exists c :: c in cs && c.id == id && c.alignmentTable.Some? && Find(cs, id) == Some(c)
    ensures Exported(cs, id).Some? ==>
      Exported(cs, id).value == ExportFile(Find(cs, id).value.name, Find(cs, id).value.alignmentTable.value)
  {
  }

  /** Exporting the collation just imported succeeds exactly when it has a table. */
  lemma ExportAfterImport(cs: seq<Collation>, data: Collation)
    ensures Exported(Upsert(cs, data), data.id).Some? <==> data.alignmentTable.Some?
  {
    FindUpserted(cs, data);
  }
}
