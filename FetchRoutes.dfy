/** The route layer: `get_procedure_names_and_entities` groups the rows of
    its procedure query by document, and `get_graph_versions` turns an
    empty version history into "not found".

    `doc_map` is a Python dict, which iterates in insertion order; it is
    modelled as a `map` together with the sequence of its keys in the order
    they were inserted. */
module FetchRoutes {
  import opened Basics

  type Uuid = nat

  /** A row of the procedure query: one procedure of one document, with the
      distinct entities of its graphs. */
  datatype ProcedureRow = ProcedureRow(
    documentId: DocId, documentSpec: string, documentVersion: string, documentRelease: int,
    procedureId: Uuid, procedureName: string, entities: seq<string>)

  /** `doc_key`: the document a row belongs to. */
  datatype DocKey = DocKey(id: DocId, spec: string, version: string, release: int)

  datatype ProcedureListItem = ProcedureListItem(procedureId: Uuid, procedureName: string, entity: seq<string>)

  datatype ProceduresByDocument = ProceduresByDocument(
    documentId: DocId, documentSpec: string, documentVersion: string, documentRelease: int,
    documentProcedures: seq<ProcedureListItem>)

  function KeyOf(row: ProcedureRow): DocKey
  {
    DocKey(row.documentId, row.documentSpec, row.documentVersion, row.documentRelease)
  }

  function ItemOf(row: ProcedureRow): ProcedureListItem
  {
    ProcedureListItem(row.procedureId, row.procedureName, row.entities)
  }

  function EntryOf(key: DocKey, procedures: seq<ProcedureListItem>): ProceduresByDocument
  {
    ProceduresByDocument(key.id, key.spec, key.version, key.release, procedures)
  }

  function KeyOfEntry(e: ProceduresByDocument): DocKey
  {
    DocKey(e.documentId, e.documentSpec, e.documentVersion, e.documentRelease)
  }

  /** The keys of `doc_map` after the rows, in insertion order. */
  function KeysInOrder(rows: seq<ProcedureRow>): seq<DocKey>
    decreases |rows|
  {
    if rows == [] then []
    else
      var keys := KeysInOrder(rows[..|rows| - 1]);
      var k := KeyOf(rows[|rows| - 1]);
      if k in keys then keys else keys + [k]
  }

  /** `doc_map[k]` after the rows: the procedures of the rows with key `k`. */
  function ItemsWithKey(rows: seq<ProcedureRow>, k: DocKey): seq<ProcedureListItem>
    decreases |rows|
  {
    if rows == [] then []
    else
      var items := ItemsWithKey(rows[..|rows| - 1], k);
      if KeyOf(rows[|rows| - 1]) == k then items + [ItemOf(rows[|rows| - 1])] else items
  }

  /** One response entry per key of `keys`, in that order. */
  function Entries(rows: seq<ProcedureRow>, keys: seq<DocKey>): seq<ProceduresByDocument>
    decreases |keys|
  {
    if keys == [] then []
    else
      var k := keys[|keys| - 1];
      Entries(rows, keys[..|keys| - 1]) + [EntryOf(k, ItemsWithKey(rows, k))]
  }

  /** The response of `get_procedure_names_and_entities` for the query's rows. */
  function Grouped(rows: seq<ProcedureRow>): seq<ProceduresByDocument>
  {
    Entries(rows, KeysInOrder(rows))
  }

  /** The grouping loop and the response loop of
      `get_procedure_names_and_entities`. */
  method GroupProcedures(rows: seq<ProcedureRow>) returns (response: seq<ProceduresByDocument>)
    ensures response == Grouped(rows)
  {
    var docMap: map<DocKey, seq<ProcedureListItem>> := map[];
    var insertionOrder: seq<DocKey> := [];
    for i := 0 to |rows|
      invariant insertionOrder == KeysInOrder(rows[..i])
      invariant forall k :: k in docMap <==> k in insertionOrder
      invariant forall k :: k in docMap ==> docMap[k] == ItemsWithKey(rows[..i], k)
    {
      var row := rows[i];
      var docKey := KeyOf(row);
      assert rows[..i + 1][..i] == rows[..i];
      if docKey !in docMap {
        NoRowsNoItems(rows[..i], docKey);
        docMap := docMap[docKey := []];
        insertionOrder := insertionOrder + [docKey];
      }
      docMap := docMap[docKey := docMap[docKey] + [ItemOf(row)]];
    }
    assert rows[..|rows|] == rows;

    response := [];
    for j := 0 to |insertionOrder|
      invariant response == Entries(rows, insertionOrder[..j])
    {
      var docKey := insertionOrder[j];
      assert insertionOrder[..j + 1][..j] == insertionOrder[..j];
      response := response + [ProceduresByDocument(docKey.id, docKey.spec, docKey.version, docKey.release, docMap[docKey])];
    }
    assert insertionOrder[..|insertionOrder|] == insertionOrder;
  }

  /** A key no row carries has no procedures. */
  lemma {:induction false} NoRowsNoItems(rows: seq<ProcedureRow>, k: DocKey)
    requires k !in KeysInOrder(rows)
    ensures ItemsWithKey(rows, k) == []
    decreases |rows|
  {
    if rows != [] {
      NoRowsNoItems(rows[..|rows| - 1], k);
    }
  }

  /** The keys are exactly the keys of the rows. */
  lemma {:induction false} KeysCoverRows(rows: seq<ProcedureRow>)
    ensures forall k :: k in KeysInOrder(rows) <==> exists a :: 0 <= a < |rows| && KeyOf(rows[a]) == k
    decreases |rows|
  {
    if rows != [] {
      var n := |rows| - 1;
      KeysCoverRows(rows[..n]);
      forall k ensures k in KeysInOrder(rows) <==> exists a :: 0 <= a < |rows| && KeyOf(rows[a]) == k {
        if exists a :: 0 <= a < |rows| && KeyOf(rows[a]) == k {
          var a :| 0 <= a < |rows| && KeyOf(rows[a]) == k;
          if a < n {
            assert KeyOf(rows[..n][a]) == k;
          }
        }
        if exists a :: 0 <= a < n && KeyOf(rows[..n][a]) == k {
          var a :| 0 <= a < n && KeyOf(rows[..n][a]) == k;
          assert KeyOf(rows[a]) == k;
        }
      }
    }
  }

  /** No key appears twice. */
  lemma {:induction false} KeysDistinct(rows: seq<ProcedureRow>)
    ensures forall i, j :: 0 <= i < j < |KeysInOrder(rows)| ==> KeysInOrder(rows)[i] != KeysInOrder(rows)[j]
    decreases |rows|
  {
    if rows != [] {
      KeysDistinct(rows[..|rows| - 1]);
    }
  }

  /** The index of the first row with key `k`. */
  function FirstOccurrence(rows: seq<ProcedureRow>, k: DocKey): (a: nat)
    requires exists b :: 0 <= b < |rows| && KeyOf(rows[b]) == k
    ensures a < |rows| && KeyOf(rows[a]) == k
    ensures forall b :: 0 <= b < a ==> KeyOf(rows[b]) != k
    decreases |rows|
  {
    if KeyOf(rows[0]) == k then 0
    else
      var b :| 0 <= b < |rows| && KeyOf(rows[b]) == k;
      assert KeyOf(rows[1..][b - 1]) == k;
      1 + FirstOccurrence(rows[1..], k)
  }

  /** Groups appear in the order their key first occurs in the rows. */
  lemma {:induction false} KeysInFirstOccurrenceOrder(rows: seq<ProcedureRow>, i: int, j: int)
    requires 0 <= i < j < |KeysInOrder(rows)|
    ensures exists b :: 0 <= b < |rows| && KeyOf(rows[b]) == KeysInOrder(rows)[i]
    ensures exists b :: 0 <= b < |rows| && KeyOf(rows[b]) == KeysInOrder(rows)[j]
    ensures FirstOccurrence(rows, KeysInOrder(rows)[i]) < FirstOccurrence(rows, KeysInOrder(rows)[j])
    decreases |rows|
  {
    KeysCoverRows(rows);
    var n := |rows| - 1;
    var prefix := rows[..n];
    var keys := KeysInOrder(prefix);
    KeysCoverRows(prefix);
    var ki := KeysInOrder(rows)[i];
    var kj := KeysInOrder(rows)[j];
    // the first occurrence of a key of the prefix lies in the prefix
    assert ki in keys;
    var ai := FirstOccurrence(prefix, ki);
    assert rows[ai] == prefix[ai];
    FirstOccurrenceUnique(rows, ki, ai);
    if j < |keys| {
      assert kj == keys[j] && kj in keys;
      var aj := FirstOccurrence(prefix, kj);
      assert rows[aj] == prefix[aj];
      FirstOccurrenceUnique(rows, kj, aj);
      KeysInFirstOccurrenceOrder(prefix, i, j);
    } else {
      // kj is the key the last row inserted
      assert kj == KeyOf(rows[n]) && kj !in keys;
      forall b | 0 <= b < n ensures KeyOf(rows[b]) != kj {
        assert rows[b] == prefix[b];
      }
      FirstOccurrenceUnique(rows, kj, n);
    }
  }

  lemma FirstOccurrenceUnique(rows: seq<ProcedureRow>, k: DocKey, a: nat)
    requires a < |rows| && KeyOf(rows[a]) == k
    requires forall b :: 0 <= b < a ==> KeyOf(rows[b]) != k
    ensures FirstOccurrence(rows, k) == a
  {
  }

  /** The indices of the rows with key `k`, in increasing order. */
  function KeyIndices(rows: seq<ProcedureRow>, k: DocKey): (idx: seq<nat>)
    ensures forall t :: 0 <= t < |idx| ==> idx[t] < |rows| && KeyOf(rows[idx[t]]) == k
    ensures forall t, u :: 0 <= t < u < |idx| ==> idx[t] < idx[u]
    ensures forall a :: 0 <= a < |rows| && KeyOf(rows[a]) == k ==> a in idx
    decreases |rows|
  {
    if rows == [] then []
    else
      var n := |rows| - 1;
      var idx := KeyIndices(rows[..n], k);
      assert forall a :: 0 <= a < n ==> rows[..n][a] == rows[a];
      if KeyOf(rows[n]) == k then idx + [n] else idx
  }

  /** Within a group, the procedures are those of the rows with the group's
      key, each once, in the order of the rows. */
  lemma {:induction false} GroupKeepsRowOrder(rows: seq<ProcedureRow>, k: DocKey)
    ensures |ItemsWithKey(rows, k)| == |KeyIndices(rows, k)|
    ensures forall t :: 0 <= t < |KeyIndices(rows, k)| ==>
      ItemsWithKey(rows, k)[t] == ItemOf(rows[KeyIndices(rows, k)[t]])
    decreases |rows|
  {
    if rows != [] {
      var n := |rows| - 1;
      var prefix := rows[..n];
      GroupKeepsRowOrder(prefix, k);
      GroupStep(rows, k, KeyIndices(prefix, k), ItemsWithKey(prefix, k));
    }
  }

  /** The inductive step of GroupKeepsRowOrder: the last row extends the
      group of its own key and leaves the others as they are. */
  lemma GroupStep(rows: seq<ProcedureRow>, k: DocKey, idx: seq<nat>, items: seq<ProcedureListItem>)
    requires rows != []
    requires idx == KeyIndices(rows[..|rows| - 1], k)
    requires items == ItemsWithKey(rows[..|rows| - 1], k)
    requires |items| == |idx|
    requires forall t :: 0 <= t < |idx| ==> items[t] == ItemOf(rows[..|rows| - 1][idx[t]])
    ensures |ItemsWithKey(rows, k)| == |KeyIndices(rows, k)|
    ensures forall t :: 0 <= t < |KeyIndices(rows, k)| ==>
      ItemsWithKey(rows, k)[t] == ItemOf(rows[KeyIndices(rows, k)[t]])
  {
    var n := |rows| - 1;
    forall t | 0 <= t < |idx|
      ensures items[t] == ItemOf(rows[idx[t]])
    {
      assert rows[..n][idx[t]] == rows[idx[t]];
    }
    if KeyOf(rows[n]) == k {
      assert KeyIndices(rows, k) == idx + [n];
      assert ItemsWithKey(rows, k) == items + [ItemOf(rows[n])];
    } else {
      assert KeyIndices(rows, k) == idx;
      assert ItemsWithKey(rows, k) == items;
    }
  }

  lemma {:induction false} EntriesShape(rows: seq<ProcedureRow>, keys: seq<DocKey>)
    ensures |Entries(rows, keys)| == |keys|
    ensures forall g :: 0 <= g < |keys| ==> Entries(rows, keys)[g] == EntryOf(keys[g], ItemsWithKey(rows, keys[g]))
    decreases |keys|
  {
    if keys != [] {
      EntriesShape(rows, keys[..|keys| - 1]);
    }
  }

  /** Each response entry carries a distinct document key, in first-occurrence
      order, and the procedures of exactly the rows with that key. */
  lemma GroupedEntries(rows: seq<ProcedureRow>, g: int)
    requires 0 <= g < |Grouped(rows)|
    ensures g < |KeysInOrder(rows)| && KeyOfEntry(Grouped(rows)[g]) == KeysInOrder(rows)[g]
    ensures |Grouped(rows)[g].documentProcedures| == |KeyIndices(rows, KeysInOrder(rows)[g])|
    ensures forall t :: 0 <= t < |KeyIndices(rows, KeysInOrder(rows)[g])| ==>
      Grouped(rows)[g].documentProcedures[t] == ItemOf(rows[KeyIndices(rows, KeysInOrder(rows)[g])[t]])
  {
    EntriesShape(rows, KeysInOrder(rows));
    GroupKeepsRowOrder(rows, KeysInOrder(rows)[g]);
  }

  /** Every row lands in exactly one group, the one with its key. */
  lemma RowInExactlyOneGroup(rows: seq<ProcedureRow>, a: int)
    requires 0 <= a < |rows|
    ensures exists g :: (0 <= g < |Grouped(rows)| && KeyOfEntry(Grouped(rows)[g]) == KeyOf(rows[a])
                         && a in KeyIndices(rows, KeyOfEntry(Grouped(rows)[g])))
    ensures forall g :: 0 <= g < |Grouped(rows)| && a in KeyIndices(rows, KeyOfEntry(Grouped(rows)[g])) ==>
      KeyOfEntry(Grouped(rows)[g]) == KeyOf(rows[a])
    ensures forall g, h :: 0 <= g < h < |Grouped(rows)| ==> KeyOfEntry(Grouped(rows)[g]) != KeyOfEntry(Grouped(rows)[h])
  {
    var keys := KeysInOrder(rows);
    var r := Grouped(rows);
    EntriesShape(rows, keys);
    KeysCoverRows(rows);
    KeysDistinct(rows);
    var k := KeyOf(rows[a]);
    assert k in keys;
    var g :| 0 <= g < |keys| && keys[g] == k;
    assert KeyOfEntry(r[g]) == k;
    forall g | 0 <= g < |r| && a in KeyIndices(rows, KeyOfEntry(r[g]))
      ensures KeyOfEntry(r[g]) == KeyOf(rows[a])
    {
      var idx := KeyIndices(rows, KeyOfEntry(r[g]));
      var t :| 0 <= t < |idx| && idx[t] == a;
    }
    forall g, h | 0 <= g < h < |r| ensures KeyOfEntry(r[g]) != KeyOfEntry(r[h]) {
      assert KeyOfEntry(r[g]) == keys[g] && KeyOfEntry(r[h]) == keys[h];
    }
  }

  /** The number of procedures in a response. */
  function TotalProcedures(response: seq<ProceduresByDocument>): nat
    decreases |response|
  {
    if response == [] then 0
    else TotalProcedures(response[..|response| - 1]) + |response[|response| - 1].documentProcedures|
  }

  lemma {:induction false} EntriesGrow(rows: seq<ProcedureRow>, row: ProcedureRow, keys: seq<DocKey>)
    ensures TotalProcedures(Entries(rows + [row], keys)) == TotalProcedures(Entries(rows, keys)) + multiset(keys)[KeyOf(row)]
    decreases |keys|
  {
    if keys != [] {
      var m := |keys| - 1;
      EntriesGrow(rows, row, keys[..m]);
      assert (rows + [row])[..|rows|] == rows;
      assert keys == keys[..m] + [keys[m]];
      var front := Entries(rows, keys[..m]) + [EntryOf(keys[m], ItemsWithKey(rows, keys[m]))];
      assert front[..|front| - 1] == Entries(rows, keys[..m]);
      var front' := Entries(rows + [row], keys[..m]) + [EntryOf(keys[m], ItemsWithKey(rows + [row], keys[m]))];
      assert front'[..|front'| - 1] == Entries(rows + [row], keys[..m]);
      assert |ItemsWithKey(rows + [row], keys[m])| ==
        |ItemsWithKey(rows, keys[m])| + (if KeyOf(row) == keys[m] then 1 else 0);
      assert multiset(keys)[KeyOf(row)] ==
        multiset(keys[..m])[KeyOf(row)] + (if KeyOf(row) == keys[m] then 1 else 0);
    }
  }

  /** No row is lost or duplicated: the groups hold as many procedures as
      there are rows. */
  lemma {:induction false} GroupSizesSumToRows(rows: seq<ProcedureRow>)
    ensures TotalProcedures(Grouped(rows)) == |rows|
    decreases |rows|
  {
    if rows != [] {
      var n := |rows| - 1;
      var prefix := rows[..n];
      var row := rows[n];
      assert rows == prefix + [row];
      GroupSizesSumToRows(prefix);
      var keys := KeysInOrder(prefix);
      EntriesGrow(prefix, row, keys);
      KeysDistinct(prefix);
      var k := KeyOf(row);
      if k in keys {
        DistinctCount(keys, k);
      } else {
        assert KeysInOrder(rows) == keys + [k];
        assert (keys + [k])[..|keys|] == keys;
        NoRowsNoItems(prefix, k);
        assert ItemsWithKey(rows, k) == [ItemOf(row)];
        var e := Entries(rows, keys + [k]);
        assert e[..|e| - 1] == Entries(rows, keys);
      }
    }
  }

  lemma {:induction false} DistinctCount(keys: seq<DocKey>, k: DocKey)
    requires forall i, j :: 0 <= i < j < |keys| ==> keys[i] != keys[j]
    requires k in keys
    ensures multiset(keys)[k] == 1
    decreases |keys|
  {
    var m := |keys| - 1;
    var init := keys[..m];
    assert keys == init + [keys[m]];
    assert multiset(keys) == multiset(init) + multiset{keys[m]};
    if keys[m] == k {
      forall a | 0 <= a < |init| ensures init[a] != k {
        assert init[a] == keys[a];
      }
      assert k !in multiset(init);
    } else {
      DistinctCount(init, k);
    }
  }

  lemma {:induction false} DistinctCardinality(keys: seq<DocKey>)
    requires forall i, j :: 0 <= i < j < |keys| ==> keys[i] != keys[j]
    ensures |set k | k in keys| == |keys|
    decreases |keys|
  {
    if keys != [] {
      var m := |keys| - 1;
      DistinctCardinality(keys[..m]);
      assert keys == keys[..m] + [keys[m]];
      assert (set k | k in keys) == (set k | k in keys[..m]) + {keys[m]};
      assert keys[m] !in keys[..m];
    }
  }

  /** The response has one entry per distinct document key, and no rows give
      no entries. */
  lemma ResponseCountsDistinctKeys(rows: seq<ProcedureRow>)
    ensures |Grouped(rows)| == |set a | 0 <= a < |rows| :: KeyOf(rows[a])|
    ensures Grouped(rows) == [] <==> rows == []
  {
    var keys := KeysInOrder(rows);
    EntriesShape(rows, keys);
    KeysCoverRows(rows);
    KeysDistinct(rows);
    DistinctCardinality(keys);
    assert (set a | 0 <= a < |rows| :: KeyOf(rows[a])) == (set k | k in keys);
    if rows != [] {
      assert KeyOf(rows[0]) in keys;
    }
  }

  /** A row of the version-history query. */
  datatype HistoryRow = HistoryRow(
    graphId: Uuid, version: string, createdAt: Timestamp,
    commitTitle: string, commitMessage: string, procedureName: string)

  /** `created_at` is passed through unread. */
  type Timestamp = string

  datatype EntityVersionItem = EntityVersionItem(
    graphId: Uuid, version: string, createdAt: Timestamp, commitTitle: string, commitMessage: string)

  datatype HistoryError = NoVersionHistory   // 404 "No version history found"

  /** `get_graph_versions` after its query: the rows mapped to version items,
      or "not found" when there are none. */
  function VersionHistory(rows: seq<HistoryRow>): (r: Result<seq<EntityVersionItem>, HistoryError>)
    ensures r.Failure? <==> rows == []
    ensures r.Failure? ==> r.error == NoVersionHistory
    ensures r.Success? ==> |r.value| == |rows| && forall i :: 0 <= i < |rows| ==>
      && r.value[i].graphId == rows[i].graphId
      && r.value[i].version == rows[i].version
      && r.value[i].createdAt == rows[i].createdAt
      && r.value[i].commitTitle == rows[i].commitTitle
      && r.value[i].commitMessage == rows[i].commitMessage
  {
    var versionHistory := seq(|rows|, i requires 0 <= i < |rows| =>
      EntityVersionItem(rows[i].graphId, rows[i].version, rows[i].createdAt, rows[i].commitTitle, rows[i].commitMessage));
    if versionHistory == [] then Failure(NoVersionHistory) else Success(versionHistory)
  }
}
