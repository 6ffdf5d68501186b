/**
 * The batches of ts/sync-log/reconciliation.test.ts, reconciled by the
 * model. Field values are parameters (the reconciliation never looks at
 * one), and so is the schema lookup that turns a pk into key fields. The
 * test entries call the shared timestamp `syncedOn`; it is the entry's
 * `sharedOn` here.
 */
module ReconciliationScenarios {
  import opened SyncTypes
  import opened FieldMaps
  import opened ObjectReconciler
  import opened ObjectReconcilerLemmas
  import opened OperationEmitter
  import opened Reconciliation
  import opened ReconciliationProperties

  const ListOne := PkString("list-one")

  function Modify(createdOn: Timestamp, sharedOn: Option<Timestamp>, field: FieldName, value: Value): LogEntry {
    ModificationEntry("lists", ListOne, createdOn, sharedOn, field, value)
  }

  function Delete(createdOn: Timestamp, sharedOn: Option<Timestamp>): LogEntry {
    DeletionEntry("lists", ListOne, createdOn, sharedOn)
  }

  function Create(createdOn: Timestamp, sharedOn: Option<Timestamp>, value: seq<(FieldName, Value)>): LogEntry {
    CreationEntry("lists", ListOne, createdOn, sharedOn, value)
  }

  /** Lines 13-22: of two writes of one field, the newer is kept though it is folded first. */
  lemma NewestOfTwoWrites(second: Value, first: Value, keyFields: (string, Pk) -> PkFields)
    ensures Reconcile([Modify(2, None, "title", second), Modify(1, None, "title", first)], keyFields)
              == Ok([UpdateOneObject("lists", keyFields("lists", ListOne), map["title" := second])])
  {
    var es := [Modify(2, None, "title", second), Modify(1, None, "title", first)];
    SingleObjectBatch(es, keyFields);
    ModifiesOnly(es, "title", "lists", keyFields("lists", ListOne));
  }

  /** The batch of lines 13-22 in the other order: the newer write, folded last, is kept too. */
  lemma NewestOfTwoWritesSwapped(second: Value, first: Value, keyFields: (string, Pk) -> PkFields)
    ensures Reconcile([Modify(1, None, "title", first), Modify(2, None, "title", second)], keyFields)
              == Ok([UpdateOneObject("lists", keyFields("lists", ListOne), map["title" := second])])
  {
    var es := [Modify(1, None, "title", first), Modify(2, None, "title", second)];
    SingleObjectBatch(es, keyFields);
    ModifiesOnly(es, "title", "lists", keyFields("lists", ListOne));
  }

  /** Lines 24-34: likewise among three writes. */
  lemma NewestOfThreeWrites(second: Value, third: Value, first: Value, keyFields: (string, Pk) -> PkFields)
    ensures Reconcile([Modify(2, None, "title", second), Modify(3, None, "title", third),
                       Modify(1, None, "title", first)], keyFields)
              == Ok([UpdateOneObject("lists", keyFields("lists", ListOne), map["title" := third])])
  {
    var es := [Modify(2, None, "title", second), Modify(3, None, "title", third), Modify(1, None, "title", first)];
    SingleObjectBatch(es, keyFields);
    ModifiesOnly(es, "title", "lists", keyFields("lists", ListOne));
    var w :| NewestFirst(es, w) &&
      ObjectOutcome(es, "lists", keyFields("lists", ListOne)) ==
        Ok(if Truthy(es[w].sharedOn) then [] else [UpdateOneObject("lists", keyFields("lists", ListOne), map["title" := es[w].value])]);
    assert es[0].createdOn == 2 && es[1].createdOn == 3 && es[2].createdOn == 1;
    assert w == 1;
  }

  /** Lines 36-45: a delete wins over a newer write. */
  lemma DeleteWinsOverWrite(second: Value, keyFields: (string, Pk) -> PkFields)
    ensures Reconcile([Modify(2, None, "title", second), Delete(1, None)], keyFields)
              == Ok([DeleteOneObject("lists", keyFields("lists", ListOne))])
  {
    var es := [Modify(2, None, "title", second), Delete(1, None)];
    SingleObjectBatch(es, keyFields);
    DeleteWithoutCreate(es, 1, "lists", keyFields("lists", ListOne));
  }

  /** Lines 47-55: an object already deleted upstream needs nothing. */
  lemma AlreadyDeleted(second: Value, keyFields: (string, Pk) -> PkFields)
    ensures Reconcile([Modify(2, None, "title", second), Delete(4, Some(3)), Delete(1, Some(3))], keyFields)
              == Ok([])
  {
    var es := [Modify(2, None, "title", second), Delete(4, Some(3)), Delete(1, Some(3))];
    SingleObjectBatch(es, keyFields);
    DeleteWithoutCreate(es, 2, "lists", keyFields("lists", ListOne));
  }

  /** Lines 57-65. */
  lemma OneDelete(keyFields: (string, Pk) -> PkFields)
    ensures Reconcile([Delete(1, None)], keyFields) == Ok([DeleteOneObject("lists", keyFields("lists", ListOne))])
  {
    SingleObjectBatch([Delete(1, None)], keyFields);
    DeleteWithoutCreate([Delete(1, None)], 0, "lists", keyFields("lists", ListOne));
  }

  /** Lines 67-76: two deletes of one object make one delete. */
  lemma DoubleDelete(keyFields: (string, Pk) -> PkFields)
    ensures Reconcile([Delete(4, None), Delete(1, None)], keyFields)
              == Ok([DeleteOneObject("lists", keyFields("lists", ListOne))])
  {
    var es := [Delete(4, None), Delete(1, None)];
    SingleObjectBatch(es, keyFields);
    DeleteWithoutCreate(es, 1, "lists", keyFields("lists", ListOne));
  }

  /** Lines 78-86: a compound key is one pk like any other. */
  lemma CompoundKeyDelete(keyFields: (string, Pk) -> PkFields)
    ensures var pk := PkTuple([PkString("list-one"), PkNumber(3)]);
      Reconcile([DeletionEntry("listEntry", pk, 4, None)], keyFields)
        == Ok([DeleteOneObject("listEntry", keyFields("listEntry", pk))])
  {
    var es := [DeletionEntry("listEntry", PkTuple([PkString("list-one"), PkNumber(3)]), 4, None)];
    SingleObjectBatch(es, keyFields);
    DeleteWithoutCreate(es, 0, "listEntry", keyFields("listEntry", es[0].pk));
  }

  /** Lines 88-95: when the newest write is already shared, nothing is emitted. */
  lemma SyncedWrite(second: Value, keyFields: (string, Pk) -> PkFields)
    ensures Reconcile([Modify(1, None, "title", second), Modify(2, Some(3), "title", second)], keyFields) == Ok([])
  {
    var es := [Modify(1, None, "title", second), Modify(2, Some(3), "title", second)];
    SingleObjectBatch(es, keyFields);
    ModifiesOnly(es, "title", "lists", keyFields("lists", ListOne));
  }

  /** Lines 97-105: a create emits the object with every value it carries. */
  lemma CreateObjects(pk: Value, first: Value, keyFields: (string, Pk) -> PkFields)
    ensures Reconcile([Create(1, None, [("pk", pk), ("title", first)])], keyFields)
              == Ok([CreateObject("lists", keyFields("lists", ListOne) + map["pk" := pk, "title" := first])])
  {
    var e := Create(1, None, [("pk", pk), ("title", first)]);
    SingleObjectBatch([e], keyFields);
    CreatedRecord(pk, first);
  }

  /** The record the create of lines 97-105 folds to. */
  lemma CreatedRecord(pk: Value, first: Value)
    ensures var e := Create(1, None, [("pk", pk), ("title", first)]);
      && FoldObject(None, [e]).Ok? && FoldObject(None, [e]).value.Some?
      && var r := FoldObject(None, [e]).value.value;
      && r.shouldBeCreated && !r.shouldBeDeleted
      && FieldValues(r.fields) == map["pk" := pk, "title" := first]
  {
    var e := Create(1, None, [("pk", pk), ("title", first)]);
    CreateFresh(e);
    assert [e][..0] == [];
    var rec := CreationStep(None, e).value;
    assert FoldObject(None, [e]) == Ok(Some(rec));
    var fields := rec.fields;
    assert fields == [("pk", Stamp(pk, e)), ("title", Stamp(first, e))];
    assert fields[..1] == [fields[0]] && fields[..1][..0] == [];
    assert FieldValues(fields[..1]) == map["pk" := pk];
  }

  /**
   * The record the first two entries of lines 107-126 fold to: created at
   * time 1, with the title the earlier-folded write left and the create's
   * other values.
   */
  lemma ConsolidatedRecord(second: Value, pk: Value, first: Value, five: Value)
    ensures var es := [Modify(2, None, "title", second),
                       Create(1, None, [("pk", pk), ("title", first), ("prio", five)])];
      && FoldObject(None, es).Ok? && FoldObject(None, es).value.Some?
      && var r := FoldObject(None, es).value.value;
      && r.shouldBeCreated && !r.shouldBeDeleted && UniqueKeys(r.fields)
      && forall j :: Lookup(r.fields, j) ==
           if j == "title" then Some(FieldModification(second, 2, None))
           else if j == "pk" then Some(FieldModification(pk, 1, None))
           else if j == "prio" then Some(FieldModification(five, 1, None))
           else None
  {
    var m := Modify(2, None, "title", second);
    var c := Create(1, None, [("pk", pk), ("title", first), ("prio", five)]);
    var es := [m, c];
    assert es[..1] == [m] && [m][..0] == [];
    var rec := ModificationStep(None, m).value;
    assert FoldObject(None, [m]) == Ok(Some(rec));
    assert rec.fields == [("title", Updates(m))];
    CreateAfterModifies(rec, c);
    forall i | 0 <= i < |c.objectValue| ensures !Conflicts(rec.fields, c.objectValue[i].0, c) {
      assert i == 0 || i == 1 || i == 2;
    }
    FoldFlags(es);
    var r := CreationStep(Some(rec), c).value;
    forall j ensures Lookup(r.fields, j) ==
           if j == "title" then Some(FieldModification(second, 2, None))
           else if j == "pk" then Some(FieldModification(pk, 1, None))
           else if j == "prio" then Some(FieldModification(five, 1, None))
           else None
    {
      assert Lookup(r.fields, j) == Merged(rec.fields, c.objectValue, c, j);
      var kvs := c.objectValue;
      assert kvs[1..][1..] == [("prio", five)] && kvs[1..][1..][1..] == [];
    }
  }

  /**
   * Lines 107-116: a write folded before the create it postdates wins over
   * the create's own value of that field.
   */
  lemma CreateConsolidatesWrites(second: Value, pk: Value, first: Value, five: Value,
                                 keyFields: (string, Pk) -> PkFields)
    ensures Reconcile([Modify(2, None, "title", second),
                       Create(1, None, [("pk", pk), ("title", first), ("prio", five)])], keyFields)
              == Ok([CreateObject("lists", keyFields("lists", ListOne)
                                           + map["title" := second, "pk" := pk, "prio" := five])])
  {
    var es := [Modify(2, None, "title", second), Create(1, None, [("pk", pk), ("title", first), ("prio", five)])];
    var pkFields := keyFields("lists", ListOne);
    SingleObjectBatch(es, keyFields);
    ConsolidatedRecord(second, pk, first, five);
    ConsolidatedValues(second, pk, first, five);
  }

  /** The values the create of lines 107-116 is emitted with. */
  lemma ConsolidatedValues(second: Value, pk: Value, first: Value, five: Value)
    ensures var es := [Modify(2, None, "title", second),
                       Create(1, None, [("pk", pk), ("title", first), ("prio", five)])];
      && FoldObject(None, es).Ok? && FoldObject(None, es).value.Some?
      && var r := FoldObject(None, es).value.value;
      && r.shouldBeCreated && !r.shouldBeDeleted
      && FieldValues(r.fields) == map["title" := second, "pk" := pk, "prio" := five]
  {
    var es := [Modify(2, None, "title", second), Create(1, None, [("pk", pk), ("title", first), ("prio", five)])];
    ConsolidatedRecord(second, pk, first, five);
    ValuesOfLookups(FoldObject(None, es).value.value.fields, second, pk, five);
  }

  /** Fields read back as in `ConsolidatedRecord` hold exactly these values. */
  lemma ValuesOfLookups(fs: Fields, second: Value, pk: Value, five: Value)
    requires UniqueKeys(fs)
    requires forall j :: Lookup(fs, j) ==
               if j == "title" then Some(FieldModification(second, 2, None))
               else if j == "pk" then Some(FieldModification(pk, 1, None))
               else if j == "prio" then Some(FieldModification(five, 1, None))
               else None
    ensures FieldValues(fs) == map["title" := second, "pk" := pk, "prio" := five]
  {
    var expected := map["title" := second, "pk" := pk, "prio" := five];
    FieldValuesAgree(fs);
    var fv := FieldValues(fs);
    forall j ensures j in fv <==> j in expected {
      assert j in fv <==> Lookup(fs, j).Some?;
    }
    forall j | j in fv ensures fv[j] == expected[j] {
      assert fv[j] == Lookup(fs, j).value.value;
    }
    assert fv == expected;
  }

  /** Lines 118-126: an object created and deleted in one batch needs nothing. */
  lemma CreateThenDelete(second: Value, pk: Value, first: Value, five: Value, keyFields: (string, Pk) -> PkFields)
    ensures Reconcile([Modify(2, None, "title", second),
                       Create(1, None, [("pk", pk), ("title", first), ("prio", five)]),
                       Delete(3, None)], keyFields) == Ok([])
  {
    var es := [Modify(2, None, "title", second), Create(1, None, [("pk", pk), ("title", first), ("prio", five)]),
               Delete(3, None)];
    SingleObjectBatch(es, keyFields);
    ConsolidatedRecord(second, pk, first, five);
    assert es[..2] == [es[0], es[1]];
    CreateAndDeleteCancel(es, 1, 2, "lists", keyFields("lists", ListOne));
  }

  /** Lines 128-135: a second create of one object aborts the batch. */
  lemma DoubleCreate(pk: Value, first: Value, five: Value, keyFields: (string, Pk) -> PkFields)
    ensures var value := [("pk", pk), ("title", first), ("prio", five)];
      Reconcile([Create(1, Some(1), value), Create(2, None, value)], keyFields)
        == Err(Anomaly.DoubleCreate("lists", ListOne))
  {
    var value := [("pk", pk), ("title", first), ("prio", five)];
    var es := [Create(1, Some(1), value), Create(2, None, value)];
    SingleObjectBatch(es, keyFields);
    assert es[..1] == [es[0]] && [es[0]][..0] == [];
    var rec := CreationStep(None, es[0]).value;
    assert FoldObject(None, [es[0]]) == Ok(Some(rec));
    assert rec.shouldBeCreated;
    assert FoldObject(None, es) == Err(Anomaly.DoubleCreate("lists", ListOne));
  }
}
