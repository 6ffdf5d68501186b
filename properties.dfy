/**
 * What a whole batch reconciles to. The first lemma reduces `Reconcile` to
 * its objects: every object's operations come from its own entries alone,
 * objects are emitted in first-seen order, and the batch aborts exactly
 * when some object's entries are anomalous. The rest say what one object's
 * entries come to (ts/reconciliation/default.ts, lines 49-146).
 */
module ReconciliationProperties {
  import opened SyncTypes
  import opened FieldMaps
  import opened ObjectReconciler
  import opened ObjectReconcilerLemmas
  import opened OperationEmitter
  import opened EntryClassifier
  import opened Reconciliation

  /** The operations the entries addressed to one object come to, or their anomaly. */
  function ObjectOutcome(os: seq<LogEntry>, collection: string, pkFields: PkFields): Result<seq<Operation>, Anomaly> {
    match FoldObject(None, os)
    case Err(a) => Err(a)
    case Ok(None) => Ok([])
    case Ok(Some(rec)) => Ok(Emission(rec, collection, pkFields))
  }

  /** One object's operations within a batch. */
  function ObjectOperations(es: seq<LogEntry>, collection: string, pk: Pk, keyFields: (string, Pk) -> PkFields): seq<Operation> {
    match ObjectOutcome(EntriesFor(es, collection, pk), collection, keyFields(collection, pk))
    case Err(_) => []
    case Ok(ops) => ops
  }

  /** The operations of the listed pks of one collection, pk by pk. */
  function StagedCollection(es: seq<LogEntry>, collection: string, pks: seq<Pk>,
                            keyFields: (string, Pk) -> PkFields): seq<Operation>
    decreases |pks|
  {
    if pks == [] then []
    else
      StagedCollection(es, collection, pks[..|pks| - 1], keyFields)
        + ObjectOperations(es, collection, pks[|pks| - 1], keyFields)
  }

  /** The operations of the listed collections, each with its pks in first-seen order. */
  function Staged(es: seq<LogEntry>, cs: seq<string>, keyFields: (string, Pk) -> PkFields): seq<Operation>
    decreases |cs|
  {
    if cs == [] then []
    else
      var c := cs[|cs| - 1];
      Staged(es, cs[..|cs| - 1], keyFields) + StagedCollection(es, c, FirstSeen(PksIn(es, c)), keyFields)
  }

  lemma {:induction false} EmitCollectionStaged(es: seq<LogEntry>, t: Modifications, c: string, pks: seq<Pk>,
                                                keyFields: (string, Pk) -> PkFields)
    requires FoldTable(es) == Ok(t) && c in t.byCollection
    requires forall p :: p in pks ==> p in t.byCollection[c].objects
    ensures EmitCollection(t.byCollection[c], c, pks, keyFields) == StagedCollection(es, c, pks, keyFields)
    decreases |pks|
  {
    if pks != [] {
      var p := pks[|pks| - 1];
      EmitCollectionStaged(es, t, c, pks[..|pks| - 1], keyFields);
      FoldTableByObject(es);
      assert FoldObject(None, EntriesFor(es, c, p)) == Ok(Some(t.byCollection[c].objects[p]));
    }
  }

  lemma {:induction false} EmitAllStaged(es: seq<LogEntry>, t: Modifications, cs: seq<string>,
                                         keyFields: (string, Pk) -> PkFields)
    requires FoldTable(es) == Ok(t) && ValidModifications(t)
    requires forall c :: c in cs ==> c in t.byCollection
    ensures EmitAll(t, cs, keyFields) == Staged(es, cs, keyFields)
    decreases |cs|
  {
    if cs != [] {
      var c := cs[|cs| - 1];
      EmitAllStaged(es, t, cs[..|cs| - 1], keyFields);
      FoldTableOrder(es);
      EmitCollectionStaged(es, t, c, t.byCollection[c].pks, keyFields);
    }
  }

  /**
   * The batch succeeds exactly when every object's entries do; it then
   * emits, collection by collection and pk by pk in first-seen order, what
   * each object's own entries come to; when it aborts, its anomaly is that
   * of some object's entries.
   */
  lemma ReconcileIsStaged(es: seq<LogEntry>, keyFields: (string, Pk) -> PkFields)
    ensures Reconcile(es, keyFields).Ok? <==> forall c, p :: FoldObject(None, EntriesFor(es, c, p)).Ok?
    ensures Reconcile(es, keyFields).Ok? ==>
              Reconcile(es, keyFields).value == Staged(es, FirstSeen(CollectionsOf(es)), keyFields)
    ensures Reconcile(es, keyFields).Err? ==>
              exists c, p :: FoldObject(None, EntriesFor(es, c, p)) == Err(Reconcile(es, keyFields).error)
  {
    FoldTableByObject(es);
    FoldTableValid(es);
    if FoldTable(es).Ok? {
      var t := FoldTable(es).value;
      FoldTableOrder(es);
      EmitAllStaged(es, t, t.collections, keyFields);
    }
  }

  /** The entries of one object of `a + b` are its entries of `a`, then of `b`. */
  lemma {:induction false} EntriesForAppend(a: seq<LogEntry>, b: seq<LogEntry>, c: string, p: Pk)
    ensures EntriesFor(a + b, c, p) == EntriesFor(a, c, p) + EntriesFor(b, c, p)
    decreases |b|
  {
    if b == [] {
      assert a + b == a;
    } else {
      var pre := b[..|b| - 1];
      assert (a + b)[..|a + b| - 1] == a + pre;
      EntriesForAppend(a, pre, c, p);
    }
  }

  /** Two entries of one object keep their order among that object's entries. */
  lemma EntriesForPair(es: seq<LogEntry>, i: nat, j: nat)
    requires i < j < |es| && es[i].collection == es[j].collection && es[i].pk == es[j].pk
    ensures exists i', j' :: 0 <= i' < j' < |EntriesFor(es, es[j].collection, es[j].pk)|
              && EntriesFor(es, es[j].collection, es[j].pk)[i'] == es[i]
              && EntriesFor(es, es[j].collection, es[j].pk)[j'] == es[j]
  {
    var c, p := es[j].collection, es[j].pk;
    var before, after := es[..j], es[j + 1..];
    var e1 := EntriesFor(before, c, p);
    var i' := EntryIndex(before, i, c, p);
    var e2 := EntriesFor(before + [es[j]], c, p);
    EntriesForSnoc(before, es[j], c, p);
    assert e2 == e1 + [es[j]];
    assert es == (before + [es[j]]) + after;
    EntriesForAppend(before + [es[j]], after, c, p);
    var all := EntriesFor(es, c, p);
    assert all == e2 + EntriesFor(after, c, p);
    assert all[i'] == e2[i'] == e1[i'];
    assert all[|e1|] == e2[|e1|] == es[j];
  }

  /** Where an entry of one object sits among that object's entries. */
  lemma EntryIndex(es: seq<LogEntry>, i: nat, c: string, p: Pk) returns (i': nat)
    requires i < |es| && es[i].collection == c && es[i].pk == p
    ensures i' < |EntriesFor(es, c, p)| && EntriesFor(es, c, p)[i'] == es[i]
  {
    EntriesForMembers(es, c, p);
    assert es[i] in EntriesFor(es, c, p);
    i' :| 0 <= i' < |EntriesFor(es, c, p)| && EntriesFor(es, c, p)[i'] == es[i];
  }

  /** The table holding one object's record alone. */
  function SingleObject(c: string, p: Pk, rec: ObjectModifications): Modifications {
    Modifications([c], map[c := CollectionModifications([p], map[p := rec])])
  }

  lemma {:induction false} SingleObjectFold(es: seq<LogEntry>, c: string, p: Pk)
    requires forall k :: 0 <= k < |es| ==> es[k].collection == c && es[k].pk == p
    ensures FoldTable(es).Err? <==> FoldObject(None, es).Err?
    ensures FoldTable(es).Err? ==> FoldTable(es).error == FoldObject(None, es).error
    ensures FoldTable(es).Ok? && es != [] ==>
              FoldObject(None, es).value.Some? && FoldTable(es).value == SingleObject(c, p, FoldObject(None, es).value.value)
    ensures es == [] ==> FoldObject(None, es) == Ok(None)
    decreases |es|
  {
    if es != [] {
      var pre, last := es[..|es| - 1], es[|es| - 1];
      assert forall k :: 0 <= k < |pre| ==> pre[k] == es[k];
      SingleObjectFold(pre, c, p);
      if FoldObject(None, pre).Ok? {
        var prior := FoldObject(None, pre).value;
        TableStepSingle(prior, c, p, last);
      }
    }
  }

  /** One entry of the object folded into the table holding that object alone. */
  lemma TableStepSingle(prior: Option<ObjectModifications>, c: string, p: Pk, e: LogEntry)
    requires e.collection == c && e.pk == p
    ensures var t := if prior.None? then NoModifications else SingleObject(c, p, prior.value);
      TableStep(t, e) == match Step(prior, e) case Err(a) => Err(a) case Ok(rec) => Ok(SingleObject(c, p, rec))
  {
    var t := if prior.None? then NoModifications else SingleObject(c, p, prior.value);
    var g := if prior.None? then CollectionModifications([], map[]) else t.byCollection[c];
    var t1 := Register(t, c);
    assert t1 == Modifications([c], map[c := g]);
    assert Get(t1, c, p) == prior;
    match Step(prior, e)
    case Err(a) =>
    case Ok(rec) =>
      assert g.objects[p := rec] == map[p := rec];
      assert (if p in g.objects then g.pks else g.pks + [p]) == [p];
      assert t1.byCollection[c := CollectionModifications([p], map[p := rec])]
             == map[c := CollectionModifications([p], map[p := rec])];
  }

  /** A batch addressed to one object alone reconciles to what that object's entries come to. */
  lemma SingleObjectBatch(es: seq<LogEntry>, keyFields: (string, Pk) -> PkFields)
    requires es != []
    requires forall k :: 0 <= k < |es| ==> es[k].collection == es[0].collection && es[k].pk == es[0].pk
    ensures Reconcile(es, keyFields) == ObjectOutcome(es, es[0].collection, keyFields(es[0].collection, es[0].pk))
  {
    var c, p := es[0].collection, es[0].pk;
    SingleObjectFold(es, c, p);
    if FoldTable(es).Ok? {
      EmitSingle(c, p, FoldObject(None, es).value.value, keyFields);
    }
  }

  /** The table holding one record emits that record's operations. */
  lemma EmitSingle(c: string, p: Pk, rec: ObjectModifications, keyFields: (string, Pk) -> PkFields)
    ensures ValidModifications(SingleObject(c, p, rec))
    ensures EmitAll(SingleObject(c, p, rec), [c], keyFields) == Emission(rec, c, keyFields(c, p))
  {
    var t := SingleObject(c, p, rec);
    var g := t.byCollection[c];
    assert ValidCollection(g);
    assert [c][..0] == [] && [p][..0] == [];
    assert EmitCollection(g, c, [p], keyFields) == Emission(rec, c, keyFields(c, p));
  }

  // ---------------------------------------------------------------------
  // The batch-level anomalies.

  /**
   * Two creates of one object abort the whole batch; when no entry before
   * the second create aborted, with that object's double create (lines 65-67).
   */
  lemma DoubleCreateAborts(es: seq<LogEntry>, i: nat, j: nat, keyFields: (string, Pk) -> PkFields)
    requires i < j < |es| && es[i].CreationEntry? && es[j].CreationEntry?
    requires es[i].collection == es[j].collection && es[i].pk == es[j].pk
    ensures Reconcile(es, keyFields).Err?
    ensures FoldTable(es[..j]).Ok? ==> Reconcile(es, keyFields) == Err(DoubleCreate(es[j].collection, es[j].pk))
  {
    var c, p := es[j].collection, es[j].pk;
    EntriesForPair(es, i, j);
    var os := EntriesFor(es, c, p);
    var i', j' :| 0 <= i' < j' < |os| && os[i'] == es[i] && os[j'] == es[j];
    DoubleCreateFails(os, i', j');
    ReconcileIsStaged(es, keyFields);
    if FoldTable(es[..j]).Ok? {
      DoubleCreateFirst(es, i, j);
    }
  }

  /** The second create is the first entry to abort: the table fold fails at it, as a double create. */
  lemma DoubleCreateFirst(es: seq<LogEntry>, i: nat, j: nat)
    requires i < j < |es| && es[i].CreationEntry? && es[j].CreationEntry?
    requires es[i].collection == es[j].collection && es[i].pk == es[j].pk
    requires FoldTable(es[..j]).Ok?
    ensures FoldTable(es) == Err(DoubleCreate(es[j].collection, es[j].pk))
  {
    assert es[..j][i] == es[i];
    CreatedInTable(es[..j], i);
    TableStepDoubleCreate(FoldTable(es[..j]).value, es[j]);
    AbortsAt(es[..j], es[j], es[j + 1..], DoubleCreate(es[j].collection, es[j].pk));
    SplitAt(es, j);
  }

  /** A create of an object the table already holds to be created is a double create. */
  lemma TableStepDoubleCreate(t: Modifications, e: LogEntry)
    requires e.CreationEntry?
    requires Get(t, e.collection, e.pk).Some? && Get(t, e.collection, e.pk).value.shouldBeCreated
    ensures TableStep(t, e) == Err(DoubleCreate(e.collection, e.pk))
  {
    assert Get(Register(t, e.collection), e.collection, e.pk) == Get(t, e.collection, e.pk);
  }

  /** A sequence is what comes before position `j`, the entry at `j`, and what follows. */
  lemma SplitAt(es: seq<LogEntry>, j: nat)
    requires j < |es|
    ensures es[..j] + [es[j]] + es[j + 1..] == es
  {
  }

  /** The entries before `e` fold and `e` aborts: its anomaly is the batch's, whatever follows. */
  lemma AbortsAt(pre: seq<LogEntry>, e: LogEntry, more: seq<LogEntry>, a: Anomaly)
    requires FoldTable(pre).Ok? && TableStep(FoldTable(pre).value, e) == Err(a)
    ensures FoldTable(pre + [e] + more) == Err(a)
  {
    var upto := pre + [e];
    assert upto[..|upto| - 1] == pre && upto[|upto| - 1] == e;
    FoldTableErrorSticks(upto, more, a);
  }

  /** After a batch that did not abort, an object some entry created is held, to be created at that create's time. */
  lemma CreatedInTable(es: seq<LogEntry>, i: nat)
    requires i < |es| && es[i].CreationEntry? && FoldTable(es).Ok?
    ensures var r := Get(FoldTable(es).value, es[i].collection, es[i].pk);
      r.Some? && r.value.shouldBeCreated && r.value.createdOn == Some(es[i].createdOn)
  {
    var c, p := es[i].collection, es[i].pk;
    FoldTableByObject(es);
    var os := EntriesFor(es, c, p);
    var i' := EntryIndex(es, i, c, p);
    assert FoldObject(None, os) == Ok(Get(FoldTable(es).value, c, p));
    CreatedOnSticks(os, i');
  }

  /** After a create, an object's `createdOn` is that create's, whatever follows. */
  lemma {:induction false} CreatedOnSticks(os: seq<LogEntry>, i: nat)
    requires i < |os| && os[i].CreationEntry? && FoldObject(None, os).Ok?
    ensures FoldObject(None, os).value.Some?
    ensures FoldObject(None, os).value.value.shouldBeCreated
    ensures FoldObject(None, os).value.value.createdOn == Some(os[i].createdOn)
    decreases |os|
  {
    var pre, last := os[..|os| - 1], os[|os| - 1];
    assert forall k :: 0 <= k < |pre| ==> pre[k] == os[k];
    var prior := FoldObject(None, pre).value;
    assert Step(prior, last).Ok?;
    if i < |os| - 1 {
      CreatedOnSticks(pre, i);
      CreatedOnStep(prior.value, last);
    } else {
      CreateSetsCreatedOn(prior, last);
    }
  }

  /** A successful create marks the object created at its own time. */
  lemma CreateSetsCreatedOn(prior: Option<ObjectModifications>, e: LogEntry)
    requires e.CreationEntry? && Step(prior, e).Ok?
    ensures Step(prior, e).value.shouldBeCreated && Step(prior, e).value.createdOn == Some(e.createdOn)
  {
  }

  /** No entry after a create changes the creation flag or time. */
  lemma CreatedOnStep(rec: ObjectModifications, e: LogEntry)
    requires rec.shouldBeCreated && Step(Some(rec), e).Ok?
    ensures Step(Some(rec), e).value.shouldBeCreated && Step(Some(rec), e).value.createdOn == rec.createdOn
  {
  }

  /**
   * A modify stamped before the create of its object, but folded after
   * it, aborts that object's entries (lines 110-112).
   */
  lemma ModifyAfterCreateAborts(os: seq<LogEntry>, i: nat, j: nat)
    requires i < j < |os| && os[i].CreationEntry? && os[j].ModificationEntry?
    requires os[j].createdOn < os[i].createdOn
    ensures FoldObject(None, os).Err?
    ensures FoldObject(None, os[..j]).Ok? ==>
              FoldObject(None, os) == Err(ModificationBeforeCreation(os[j].collection, os[j].pk))
  {
    var pre, post := os[..j + 1], os[j + 1..];
    assert pre + post == os;
    FoldObjectAppend(None, pre, post);
    var before := os[..j];
    assert before + [os[j]] == pre;
    FoldObjectAppend(None, before, [os[j]]);
    assert [os[j]][..0] == [];
    if FoldObject(None, before).Ok? {
      assert before[i] == os[i];
      CreatedOnSticks(before, i);
      var rec := FoldObject(None, before).value.value;
      ModifyBeforeCreation(rec, os[j]);
    }
  }

  /** The same, lifted to the whole batch. */
  lemma ModifyAfterCreateAbortsBatch(es: seq<LogEntry>, i: nat, j: nat, keyFields: (string, Pk) -> PkFields)
    requires i < j < |es| && es[i].CreationEntry? && es[j].ModificationEntry?
    requires es[i].collection == es[j].collection && es[i].pk == es[j].pk
    requires es[j].createdOn < es[i].createdOn
    ensures Reconcile(es, keyFields).Err?
    ensures FoldTable(es[..j]).Ok? ==>
              Reconcile(es, keyFields) == Err(ModificationBeforeCreation(es[j].collection, es[j].pk))
  {
    var c, p := es[j].collection, es[j].pk;
    EntriesForPair(es, i, j);
    var os := EntriesFor(es, c, p);
    var i', j' :| 0 <= i' < j' < |os| && os[i'] == es[i] && os[j'] == es[j];
    ModifyAfterCreateAborts(os, i', j');
    ReconcileIsStaged(es, keyFields);
    if FoldTable(es[..j]).Ok? {
      ModifyBeforeCreationFirst(es, i, j);
    }
  }

  /** The early modify is the first entry to abort: the table fold fails at it. */
  lemma ModifyBeforeCreationFirst(es: seq<LogEntry>, i: nat, j: nat)
    requires i < j < |es| && es[i].CreationEntry? && es[j].ModificationEntry?
    requires es[i].collection == es[j].collection && es[i].pk == es[j].pk
    requires es[j].createdOn < es[i].createdOn
    requires FoldTable(es[..j]).Ok?
    ensures FoldTable(es) == Err(ModificationBeforeCreation(es[j].collection, es[j].pk))
  {
    assert es[..j][i] == es[i];
    CreatedInTable(es[..j], i);
    TableStepModifyBeforeCreation(FoldTable(es[..j]).value, es[j]);
    AbortsAt(es[..j], es[j], es[j + 1..], ModificationBeforeCreation(es[j].collection, es[j].pk));
    SplitAt(es, j);
  }

  /** A modify dated before the recorded creation of an object the table holds is a modification before creation. */
  lemma TableStepModifyBeforeCreation(t: Modifications, e: LogEntry)
    requires e.ModificationEntry? && Get(t, e.collection, e.pk).Some?
    requires Get(t, e.collection, e.pk).value.shouldBeCreated
    requires Gt(Get(t, e.collection, e.pk).value.createdOn, e.createdOn)
    ensures TableStep(t, e) == Err(ModificationBeforeCreation(e.collection, e.pk))
  {
    assert Get(Register(t, e.collection), e.collection, e.pk) == Get(t, e.collection, e.pk);
  }

  // ---------------------------------------------------------------------
  // What one object's entries come to.

  /**
   * Delete wins: without a create, an object with a delete emits one delete
   * when its LAST-folded delete was not shared yet, and nothing otherwise,
   * whatever modifies came before or after and whatever the timestamps.
   */
  lemma DeleteWithoutCreate(os: seq<LogEntry>, d: nat, collection: string, pkFields: PkFields)
    requires NoCreation(os) && LastDeletion(os, d)
    ensures ObjectOutcome(os, collection, pkFields) ==
              Ok(if Truthy(os[d].sharedOn) then [] else [DeleteOneObject(collection, pkFields)])
  {
    FoldWithoutCreation(os);
  }

  /** A create and a delete of one object cancel out: nothing is emitted, unless the entries abort. */
  lemma CreateAndDeleteCancel(os: seq<LogEntry>, i: nat, j: nat, collection: string, pkFields: PkFields)
    requires i < |os| && j < |os| && os[i].CreationEntry? && os[j].DeletionEntry?
    ensures ObjectOutcome(os, collection, pkFields).Err? || ObjectOutcome(os, collection, pkFields) == Ok([])
  {
    FoldFlags(os);
  }

  /**
   * A create without a delete emits exactly one create, carrying the key
   * fields and the object's fields, each with the value it ends with.
   */
  lemma CreateWithoutDelete(os: seq<LogEntry>, i: nat, collection: string, pkFields: PkFields)
    requires i < |os| && os[i].CreationEntry?
    requires forall k :: 0 <= k < |os| ==> !os[k].DeletionEntry?
    requires FoldObject(None, os).Ok?
    ensures |ObjectOutcome(os, collection, pkFields).value| == 1
    ensures var op := ObjectOutcome(os, collection, pkFields).value[0];
      var fields := FoldObject(None, os).value.value.fields;
      && op.CreateObject? && op.collection == collection
      && (forall f :: f in op.values <==> f in pkFields || Lookup(fields, f).Some?)
      && (forall f :: f in op.values ==>
            op.values[f] == if Lookup(fields, f).Some? then Lookup(fields, f).value.value else pkFields[f])
  {
    FoldFlags(os);
    CreateEmission(FoldObject(None, os).value.value, collection, pkFields);
  }

  /**
   * Modifies of one field alone emit one single-field update holding the
   * write with the greatest `createdOn` (the first-seen one on ties), or
   * nothing when that write was already synced.
   */
  lemma ModifiesOnly(os: seq<LogEntry>, f: FieldName, collection: string, pkFields: PkFields)
    requires os != []
    requires forall k :: 0 <= k < |os| ==> os[k].ModificationEntry? && os[k].field == f
    ensures exists w :: NewestFirst(os, w) &&
              ObjectOutcome(os, collection, pkFields) ==
                Ok(if Truthy(os[w].sharedOn) then [] else [UpdateOneObject(collection, pkFields, map[f := os[w].value])])
  {
    LastWriterWins(os, f);
    var w :| NewestFirst(os, w) && FoldObject(None, os).value.value.fields == [(f, Updates(os[w]))];
    var fs := FoldObject(None, os).value.value.fields;
    assert fs[..0] == [];
    assert UnsyncedUpdates(fs, collection, pkFields) ==
             if Truthy(os[w].sharedOn) then [] else [UpdateFor(collection, pkFields, fs[0])];
    assert ObjectOutcome(os, collection, pkFields) ==
             Ok(if Truthy(os[w].sharedOn) then [] else [UpdateOneObject(collection, pkFields, map[f := os[w].value])]);
  }
}
