/**
 * `reconcileSyncLog` (ts/reconciliation/default.ts, lines 24-146): the
 * nested dictionary `modificationsByObject` as a class whose methods update
 * it entry by entry, the per-entry processing functions as its methods, and
 * the top-level method that folds a batch and then emits the operations.
 */
module Reconciliation {
  import opened SyncTypes
  import opened FieldMaps
  import opened ObjectReconciler
  import opened OperationEmitter
  import opened EntryClassifier

  /** The operations of one collection's records, pk by pk (the inner loop of lines 41-44). */
  function EmitCollection(g: CollectionModifications, collection: string, pks: seq<Pk>,
                          keyFields: (string, Pk) -> PkFields): seq<Operation>
    requires forall p :: p in pks ==> p in g.objects
    decreases |pks|
  {
    if pks == [] then []
    else
      var last := pks[|pks| - 1];
      EmitCollection(g, collection, pks[..|pks| - 1], keyFields)
        + Emission(g.objects[last], collection, keyFields(collection, last))
  }

  /** The operations of the listed collections, collection by collection (lines 39-46). */
  function EmitAll(t: Modifications, cs: seq<string>, keyFields: (string, Pk) -> PkFields): seq<Operation>
    requires ValidModifications(t)
    requires forall c :: c in cs ==> c in t.byCollection
    decreases |cs|
  {
    if cs == [] then []
    else
      var last := cs[|cs| - 1];
      var g := t.byCollection[last];
      EmitAll(t, cs[..|cs| - 1], keyFields) + EmitCollection(g, last, g.pks, keyFields)
  }

  /** What `reconcileSyncLog` returns, or the anomaly it throws. */
  function Reconcile(logEntries: seq<LogEntry>, keyFields: (string, Pk) -> PkFields): Result<seq<Operation>, Anomaly> {
    match FoldTable(logEntries)
    case Err(a) => Err(a)
    case Ok(t) =>
      FoldTableValid(logEntries);
      Ok(EmitAll(t, t.collections, keyFields))
  }

  /** `modificationsByObject`, updated in place as the entries are folded. */
  class Reconciler {
    var collections: seq<string>
    var byCollection: map<string, CollectionModifications>

    function Snapshot(): Modifications
      reads this
    {
      Modifications(collections, byCollection)
    }

    ghost predicate Valid()
      reads this
    {
      ValidModifications(Snapshot())
    }

    /** Line 25. */
    constructor ()
      ensures Valid() && Snapshot() == NoModifications
    {
      collections := [];
      byCollection := map[];
    }

    /** Line 29: `collectionModifications[pkAsJson]`. */
    function ObjectModificationsOf(collection: string, pk: Pk): (r: Option<ObjectModifications>)
      reads this
      ensures r == Get(Snapshot(), collection, pk)
    {
      if collection in byCollection && pk in byCollection[collection].objects
      then Some(byCollection[collection].objects[pk])
      else None
    }

    /** Line 27: `modificationsByObject[c] = modificationsByObject[c] || {}`. */
    method RegisterCollection(collection: string)
      requires Valid()
      modifies this
      ensures Valid() && Snapshot() == Register(old(Snapshot()), collection)
    {
      if collection !in byCollection {
        collections := collections + [collection];
        byCollection := byCollection[collection := CollectionModifications([], map[])];
      }
    }

    /** `collectionModifications[pkAsJson] = rec`, or the in-place update of the record stored there. */
    method SetObjectModifications(collection: string, pk: Pk, rec: ObjectModifications)
      requires Valid() && collection in byCollection
      modifies this
      ensures Valid() && Snapshot() == Store(old(Snapshot()), collection, pk, rec)
    {
      var g := byCollection[collection];
      var pks := if pk in g.objects then g.pks else g.pks + [pk];
      byCollection := byCollection[collection := CollectionModifications(pks, g.objects[pk := rec])];
    }

    /** `_processCreationEntry` (lines 49-80); a thrown anomaly is returned in `err`. */
    method ProcessCreationEntry(objectModifications: Option<ObjectModifications>, logEntry: LogEntry)
      returns (err: Option<Anomaly>)
      requires Valid() && logEntry.CreationEntry? && logEntry.collection in byCollection
      requires objectModifications == Get(Snapshot(), logEntry.collection, logEntry.pk)
      modifies this
      ensures Valid()
      ensures err.Some? <==> CreationStep(objectModifications, logEntry).Err?
      ensures err.Some? ==> err.value == CreationStep(objectModifications, logEntry).error
      ensures err.Some? ==> Snapshot() == old(Snapshot())
      ensures err.None? ==>
                Snapshot() == Store(old(Snapshot()), logEntry.collection, logEntry.pk,
                                    CreationStep(objectModifications, logEntry).value)
    {
      if objectModifications.None? {
        var fields := NewFieldsOf(logEntry.objectValue, logEntry);
        SetObjectModifications(logEntry.collection, logEntry.pk,
          ObjectModifications(true, Some(logEntry.createdOn), false, false, fields, map[]));
        return None;
      }
      var rec := objectModifications.value;
      if rec.shouldBeCreated {
        return Some(DoubleCreate(logEntry.collection, logEntry.pk));
      }
      var merged := MergeCreationInto(rec.fields, logEntry.objectValue, logEntry);
      if merged.None? {
        return Some(ModificationBeforeCreation(logEntry.collection, logEntry.pk));
      }
      SetObjectModifications(logEntry.collection, logEntry.pk,
        rec.(fields := merged.value, shouldBeCreated := true, createdOn := Some(logEntry.createdOn)));
      return None;
    }

    /** `_processDeletionEntry` (lines 82-93). */
    method ProcessDeletionEntry(objectModifications: Option<ObjectModifications>, logEntry: LogEntry)
      requires Valid() && logEntry.DeletionEntry? && logEntry.collection in byCollection
      requires objectModifications == Get(Snapshot(), logEntry.collection, logEntry.pk)
      modifies this
      ensures Valid()
      ensures Snapshot() == Store(old(Snapshot()), logEntry.collection, logEntry.pk,
                                  DeletionStep(objectModifications, logEntry))
    {
      var isDeleted := Truthy(logEntry.sharedOn);
      if objectModifications.None? {
        SetObjectModifications(logEntry.collection, logEntry.pk,
          ObjectModifications(false, None, isDeleted, true, [], map[]));
      } else {
        SetObjectModifications(logEntry.collection, logEntry.pk,
          objectModifications.value.(isDeleted := isDeleted, shouldBeDeleted := true, fields := []));
      }
    }

    /** `_processModificationEntry` (lines 95-120); a thrown anomaly is returned in `err`. */
    method ProcessModificationEntry(objectModifications: Option<ObjectModifications>, logEntry: LogEntry)
      returns (err: Option<Anomaly>)
      requires Valid() && logEntry.ModificationEntry? && logEntry.collection in byCollection
      requires objectModifications == Get(Snapshot(), logEntry.collection, logEntry.pk)
      modifies this
      ensures Valid()
      ensures err.Some? <==> ModificationStep(objectModifications, logEntry).Err?
      ensures err.Some? ==> err.value == ModificationStep(objectModifications, logEntry).error
      ensures err.Some? ==> Snapshot() == old(Snapshot())
      ensures err.None? ==>
                Snapshot() == Store(old(Snapshot()), logEntry.collection, logEntry.pk,
                                    ModificationStep(objectModifications, logEntry).value)
    {
      var updates := FieldModification(logEntry.value, logEntry.createdOn, logEntry.sharedOn);
      if objectModifications.None? {
        SetObjectModifications(logEntry.collection, logEntry.pk,
          ObjectModifications(false, None, Truthy(logEntry.sharedOn), false, [(logEntry.field, updates)], map[]));
        return None;
      }
      var rec := objectModifications.value;
      if rec.shouldBeCreated && Gt(rec.createdOn, logEntry.createdOn) {
        return Some(ModificationBeforeCreation(logEntry.collection, logEntry.pk));
      }
      var fieldModifications := Lookup(rec.fields, logEntry.field);
      if fieldModifications.None? {
        SetObjectModifications(logEntry.collection, logEntry.pk,
          rec.(stray := rec.stray[logEntry.field := updates]));
      } else if logEntry.createdOn > fieldModifications.value.createdOn {
        SetObjectModifications(logEntry.collection, logEntry.pk,
          rec.(fields := Put(rec.fields, logEntry.field, updates)));
      } else {
        assert byCollection[logEntry.collection].objects[logEntry.pk := rec] == byCollection[logEntry.collection].objects;
      }
      return None;
    }

    /** One turn of the loop of lines 26-37; a thrown anomaly is returned in `err`. */
    method ProcessLogEntry(logEntry: LogEntry) returns (err: Option<Anomaly>)
      requires Valid()
      modifies this
      ensures Valid()
      ensures err.None? <==> TableStep(old(Snapshot()), logEntry).Ok?
      ensures err.None? ==> TableStep(old(Snapshot()), logEntry) == Ok(Snapshot())
      ensures err.Some? ==> TableStep(old(Snapshot()), logEntry) == Err(err.value)
    {
      RegisterCollection(logEntry.collection);
      var objectModifications := ObjectModificationsOf(logEntry.collection, logEntry.pk);
      err := None;
      match logEntry {
        case ModificationEntry(_, _, _, _, _, _) =>
          err := ProcessModificationEntry(objectModifications, logEntry);
        case DeletionEntry(_, _, _, _) =>
          ProcessDeletionEntry(objectModifications, logEntry);
        case CreationEntry(_, _, _, _, _) =>
          err := ProcessCreationEntry(objectModifications, logEntry);
      }
    }
  }

  /** Lines 55-58: the fields of an object first seen through a create, value by value. */
  method NewFieldsOf(kvs: seq<(FieldName, Value)>, logEntry: LogEntry) returns (fields: Fields)
    ensures fields == NewFields(kvs, logEntry)
  {
    fields := [];
    for i := 0 to |kvs|
      invariant fields == NewFields(kvs[..i], logEntry)
    {
      assert kvs[..i + 1][..i] == kvs[..i];
      fields := Put(fields, kvs[i].0, Stamp(kvs[i].1, logEntry));
    }
    assert kvs[..|kvs|] == kvs;
  }

  /**
   * Lines 69-76: a create's values merged into the fields earlier modifies
   * built; None where the loop throws.
   */
  method MergeCreationInto(fields: Fields, kvs: seq<(FieldName, Value)>, logEntry: LogEntry)
    returns (merged: Option<Fields>)
    ensures merged == MergeCreation(fields, kvs, logEntry)
  {
    var cur := fields;
    for i := 0 to |kvs|
      invariant MergeCreation(fields, kvs[..i], logEntry) == Some(cur)
    {
      assert kvs[..i + 1][..i] == kvs[..i];
      var key := kvs[i].0;
      var present := Lookup(cur, key);
      if present.None? {
        cur := Put(cur, key, Stamp(kvs[i].1, logEntry));
      } else if logEntry.createdOn > present.value.createdOn {
        MergeCreationAborts(fields, kvs, i + 1, logEntry);
        return None;
      }
    }
    assert kvs[..|kvs|] == kvs;
    return Some(cur);
  }

  /** An anomaly found at some value aborts the merge of the whole create. */
  lemma {:induction false} MergeCreationAborts(fields: Fields, kvs: seq<(FieldName, Value)>, n: nat, e: LogEntry)
    requires n <= |kvs| && MergeCreation(fields, kvs[..n], e).None?
    ensures MergeCreation(fields, kvs, e).None?
    decreases |kvs| - n
  {
    if n < |kvs| {
      assert kvs[..n + 1][..n] == kvs[..n];
      MergeCreationAborts(fields, kvs, n + 1, e);
    } else {
      assert kvs[..n] == kvs;
    }
  }

  /** Lines 41-44: the operations of one collection's records, pk by pk. */
  method EmitCollectionOperations(g: CollectionModifications, collection: string,
                                  keyFields: (string, Pk) -> PkFields)
    returns (operations: seq<Operation>)
    requires forall p :: p in g.pks ==> p in g.objects
    ensures operations == EmitCollection(g, collection, g.pks, keyFields)
  {
    operations := [];
    var pks := g.pks;
    for pi := 0 to |pks|
      invariant operations == EmitCollection(g, collection, pks[..pi], keyFields)
    {
      assert pks[..pi + 1][..pi] == pks[..pi];
      var ops := ProcessModifications(g.objects[pks[pi]], collection, pks[pi], keyFields);
      operations := operations + ops;
    }
    assert pks[..|pks|] == pks;
  }

  /** Lines 39-46: every record's operations, collection by collection in first-seen order. */
  method EmitOperations(t: Modifications, keyFields: (string, Pk) -> PkFields)
    returns (operations: seq<Operation>)
    requires ValidModifications(t)
    ensures operations == EmitAll(t, t.collections, keyFields)
  {
    operations := [];
    var cs := t.collections;
    for ci := 0 to |cs|
      invariant operations == EmitAll(t, cs[..ci], keyFields)
    {
      assert cs[..ci + 1][..ci] == cs[..ci];
      var collection := cs[ci];
      assert collection in t.byCollection;
      var g := t.byCollection[collection];
      assert ValidCollection(g);
      var ops := EmitCollectionOperations(g, collection, keyFields);
      operations := operations + ops;
    }
    assert cs[..|cs|] == cs;
  }

  /**
   * `reconcileSyncLog` (lines 24-47): fold every entry into
   * `modificationsByObject` in input order, stopping at the first anomaly,
   * then emit each record's operations. `keyFields` stands for
   * `setObjectPk` with the storage registry.
   */
  method ReconcileSyncLog(logEntries: seq<LogEntry>, keyFields: (string, Pk) -> PkFields)
    returns (r: Result<seq<Operation>, Anomaly>)
    ensures r == Reconcile(logEntries, keyFields)
  {
    var modificationsByObject := new Reconciler();
    for i := 0 to |logEntries|
      invariant modificationsByObject.Valid()
      invariant FoldTable(logEntries[..i]) == Ok(modificationsByObject.Snapshot())
    {
      var prefix := logEntries[..i + 1];
      assert prefix[..i] == logEntries[..i] && prefix[i] == logEntries[i];
      assert FoldTable(prefix) == TableStep(modificationsByObject.Snapshot(), logEntries[i]);
      var err := modificationsByObject.ProcessLogEntry(logEntries[i]);
      if err.Some? {
        FoldTableErrorSticks(prefix, logEntries[i + 1..], err.value);
        assert prefix + logEntries[i + 1..] == logEntries;
        return Err(err.value);
      }
    }
    assert logEntries[..|logEntries|] == logEntries;
    var operations := EmitOperations(modificationsByObject.Snapshot(), keyFields);
    return Ok(operations);
  }
}
