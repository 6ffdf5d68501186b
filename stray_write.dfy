/**
 * Line 116 of ts/reconciliation/default.ts stores a modify of a field the
 * record does not hold yet on the record itself rather than in its
 * `fields`, so that write never reaches an emitted operation. This module
 * exhibits the loss on a concrete batch, and defines the step with the
 * write going into `fields`, proving of it that no write is lost.
 */
module StrayWriteFinding {
  import opened SyncTypes
  import opened FieldMaps
  import opened ObjectReconciler
  import opened ObjectReconcilerLemmas
  import opened OperationEmitter
  import opened Reconciliation
  import opened ReconciliationProperties

  /**
   * As written: a create of a title, then a later modify of the priority,
   * reconciles to a create without the priority (unless the schema's key
   * fields happen to include it).
   */
  lemma LaterFieldIsLost(title: Value, prio: Value, keyFields: (string, Pk) -> PkFields)
    ensures var pk := PkString("list-one");
      var es := [CreationEntry("lists", pk, 1, None, [("title", title)]),
                 ModificationEntry("lists", pk, 2, None, "prio", prio)];
      Reconcile(es, keyFields) == Ok([CreateObject("lists", keyFields("lists", pk) + map["title" := title])])
  {
    var pk := PkString("list-one");
    var es := [CreationEntry("lists", pk, 1, None, [("title", title)]),
               ModificationEntry("lists", pk, 2, None, "prio", prio)];
    SingleObjectBatch(es, keyFields);
    LostRecord(title, prio);
  }

  /** The record the batch of `LaterFieldIsLost` folds to, as written. */
  lemma LostRecord(title: Value, prio: Value)
    ensures var pk := PkString("list-one");
      var es := [CreationEntry("lists", pk, 1, None, [("title", title)]),
                 ModificationEntry("lists", pk, 2, None, "prio", prio)];
      && FoldObject(None, es).Ok? && FoldObject(None, es).value.Some?
      && var r := FoldObject(None, es).value.value;
      && r.shouldBeCreated && !r.shouldBeDeleted
      && Lookup(r.fields, "prio").None?
      && FieldValues(r.fields) == map["title" := title]
  {
    var pk := PkString("list-one");
    var c := CreationEntry("lists", pk, 1, None, [("title", title)]);
    var m := ModificationEntry("lists", pk, 2, None, "prio", prio);
    var es := [c, m];
    assert es[..1] == [c] && [c][..0] == [] && c.objectValue[..0] == [];
    CreateFresh(c);
    var rec := CreationStep(None, c).value;
    assert rec.fields == [("title", Stamp(title, c))];
    assert FoldObject(None, [c]) == Ok(Some(rec));
    StrayWrite(rec, m, "lists", map[]);
    var r := ModificationStep(Some(rec), m).value;
    assert FoldObject(None, es) == Ok(Some(r));
    assert r.fields[..0] == [];
  }

  /**
   * As written, without any create: two modifies of different fields of a
   * fresh object reconcile to one update carrying the first field only.
   */
  lemma SecondFieldLost(a: Value, b: Value, keyFields: (string, Pk) -> PkFields)
    ensures var pk := PkString("list-one");
      Reconcile([ModificationEntry("lists", pk, 1, None, "title", a),
                 ModificationEntry("lists", pk, 2, None, "prio", b)], keyFields)
        == Ok([UpdateOneObject("lists", keyFields("lists", pk), map["title" := a])])
  {
    var pk := PkString("list-one");
    var m1 := ModificationEntry("lists", pk, 1, None, "title", a);
    var m2 := ModificationEntry("lists", pk, 2, None, "prio", b);
    var es := [m1, m2];
    SingleObjectBatch(es, keyFields);
    assert es[..1] == [m1] && [m1][..0] == [];
    var rec := ModificationStep(None, m1).value;
    assert FoldObject(None, [m1]) == Ok(Some(rec));
    var r := ModificationStep(Some(rec), m2).value;
    assert r.fields == [("title", Updates(m1))];
    assert FoldObject(None, es) == Ok(Some(r));
    assert r.fields[..0] == [];
    assert !r.shouldBeDeleted && !r.shouldBeCreated;
    assert UnsyncedUpdates(r.fields, "lists", keyFields("lists", pk)) == [UpdateFor("lists", keyFields("lists", pk), r.fields[0])];
    assert ObjectOutcome(es, "lists", keyFields("lists", pk)) == Ok([UpdateOneObject("lists", keyFields("lists", pk), map["title" := a])]);
  }

  /** `_processModificationEntry` with the write of line 116 going into `fields`. */
  function ModificationStepFixed(prior: Option<ObjectModifications>, e: LogEntry): Result<ObjectModifications, Anomaly>
    requires e.ModificationEntry?
  {
    if prior.None? then
      Ok(ObjectModifications(false, None, Truthy(e.sharedOn), false, [(e.field, Updates(e))], map[]))
    else
      var rec := prior.value;
      if rec.shouldBeCreated && Gt(rec.createdOn, e.createdOn) then
        Err(ModificationBeforeCreation(e.collection, e.pk))
      else
        match Lookup(rec.fields, e.field)
        case None => Ok(rec.(fields := Put(rec.fields, e.field, Updates(e))))
        case Some(fm) =>
          if e.createdOn > fm.createdOn then Ok(rec.(fields := Put(rec.fields, e.field, Updates(e))))
          else Ok(rec)
  }

  function StepFixed(prior: Option<ObjectModifications>, e: LogEntry): Result<ObjectModifications, Anomaly> {
    match e
    case ModificationEntry(_, _, _, _, _, _) => ModificationStepFixed(prior, e)
    case DeletionEntry(_, _, _, _) => Ok(DeletionStep(prior, e))
    case CreationEntry(_, _, _, _, _) => CreationStep(prior, e)
  }

  function FoldObjectFixed(prior: Option<ObjectModifications>, es: seq<LogEntry>): Result<Option<ObjectModifications>, Anomaly>
    decreases |es|
  {
    if es == [] then Ok(prior)
    else
      match FoldObjectFixed(prior, es[..|es| - 1])
      case Err(a) => Err(a)
      case Ok(r) =>
        match StepFixed(r, es[|es| - 1])
        case Err(a) => Err(a)
        case Ok(rec) => Ok(Some(rec))
  }

  /** `fields` holds `f` with a write no older than `t`. */
  ghost predicate Holds(fields: Fields, f: FieldName, t: Timestamp) {
    Lookup(fields, f).Some? && Lookup(fields, f).value.createdOn >= t
  }

  /** The corrected step differs from the code only where the field is absent. */
  lemma FixedAgreesWhenPresent(prior: Option<ObjectModifications>, e: LogEntry)
    requires e.ModificationEntry?
    requires prior.Some? ==> Lookup(prior.value.fields, e.field).Some?
    ensures ModificationStepFixed(prior, e) == ModificationStep(prior, e)
  {
  }

  /**
   * Corrected, no write is lost: until a delete, every field a modify wrote
   * is in `fields`, holding that write or a newer one, and the fields keep
   * unique names.
   */
  lemma {:induction false} FixedKeepsWrites(os: seq<LogEntry>)
    requires forall k :: 0 <= k < |os| ==> !os[k].DeletionEntry?
    requires FoldObjectFixed(None, os).Ok?
    ensures FoldObjectFixed(None, os).value.Some? <==> os != []
    ensures os != [] ==>
              var r := FoldObjectFixed(None, os).value.value;
              && UniqueKeys(r.fields)
              && forall k :: 0 <= k < |os| && os[k].ModificationEntry? ==>
                   Holds(r.fields, os[k].field, os[k].createdOn)
    decreases |os|
  {
    if os != [] {
      var pre := os[..|os| - 1];
      assert forall k :: 0 <= k < |pre| ==> pre[k] == os[k];
      FixedKeepsWrites(pre);
      FixedKeepsStep(pre, os[|os| - 1], FoldObjectFixed(None, pre).value);
      assert pre + [os[|os| - 1]] == os;
    }
  }

  /** One more entry that is not a delete, from the state before it. */
  lemma FixedKeepsStep(pre: seq<LogEntry>, e: LogEntry, prior: Option<ObjectModifications>)
    requires !e.DeletionEntry? && StepFixed(prior, e).Ok?
    requires prior.Some? <==> pre != []
    requires prior.Some? ==>
               && UniqueKeys(prior.value.fields)
               && forall k :: 0 <= k < |pre| && pre[k].ModificationEntry? ==>
                    Holds(prior.value.fields, pre[k].field, pre[k].createdOn)
    ensures var r := StepFixed(prior, e).value;
      && UniqueKeys(r.fields)
      && forall k :: 0 <= k < |pre + [e]| && (pre + [e])[k].ModificationEntry? ==>
           Holds(r.fields, (pre + [e])[k].field, (pre + [e])[k].createdOn)
  {
    var r := StepFixed(prior, e).value;
    if prior.Some? {
      var rec := prior.value;
      if e.ModificationEntry? {
        FixedModifyStep(rec, e);
      } else {
        FixedCreateStep(rec, e);
      }
      HoldsExtend(pre, e, rec.fields, r.fields);
    } else {
      if e.CreationEntry? {
        NewFieldsUnique(e.objectValue, e);
      } else {
        PutLookup([], e.field, Updates(e), e.field);
      }
      assert pre + [e] == [e];
    }
  }

  lemma HoldsExtend(pre: seq<LogEntry>, e: LogEntry, before: Fields, after: Fields)
    requires forall k :: 0 <= k < |pre| && pre[k].ModificationEntry? ==> Holds(before, pre[k].field, pre[k].createdOn)
    requires forall f, t :: Holds(before, f, t) ==> Holds(after, f, t)
    requires e.ModificationEntry? ==> Holds(after, e.field, e.createdOn)
    ensures forall k :: 0 <= k < |pre + [e]| && (pre + [e])[k].ModificationEntry? ==>
              Holds(after, (pre + [e])[k].field, (pre + [e])[k].createdOn)
  {
    forall k | 0 <= k < |pre + [e]| && (pre + [e])[k].ModificationEntry?
      ensures Holds(after, (pre + [e])[k].field, (pre + [e])[k].createdOn)
    {
      if k < |pre| {
        assert (pre + [e])[k] == pre[k];
        assert Holds(before, pre[k].field, pre[k].createdOn);
      }
    }
  }

  /** One corrected modify: its field ends up held, at its time or later; no other field changes. */
  lemma FixedModifyStep(rec: ObjectModifications, e: LogEntry)
    requires e.ModificationEntry? && UniqueKeys(rec.fields)
    requires ModificationStepFixed(Some(rec), e).Ok?
    ensures var r := ModificationStepFixed(Some(rec), e).value;
      && UniqueKeys(r.fields)
      && Holds(r.fields, e.field, e.createdOn)
      && forall f, t :: Holds(rec.fields, f, t) ==> Holds(r.fields, f, t)
  {
    var fm := Lookup(rec.fields, e.field);
    if fm.None? || e.createdOn > fm.value.createdOn {
      assert ModificationStepFixed(Some(rec), e).value.fields == Put(rec.fields, e.field, Updates(e));
      PutHolds(rec.fields, e.field, Updates(e));
    }
  }

  /** Writing a field with a newer stamp keeps every held write and holds the new one. */
  lemma PutHolds(fs: Fields, k: FieldName, m: FieldModification)
    requires UniqueKeys(fs)
    requires Lookup(fs, k).Some? ==> m.createdOn > Lookup(fs, k).value.createdOn
    ensures UniqueKeys(Put(fs, k, m)) && Holds(Put(fs, k, m), k, m.createdOn)
    ensures forall f, t :: Holds(fs, f, t) ==> Holds(Put(fs, k, m), f, t)
  {
    PutEffect(fs, k, m);
    PutLookup(fs, k, m, k);
    forall f, t | Holds(fs, f, t) ensures Holds(Put(fs, k, m), f, t) {
      PutLookup(fs, k, m, f);
    }
  }

  /** A create merged into a record keeps every field the record held. */
  lemma FixedCreateStep(rec: ObjectModifications, e: LogEntry)
    requires e.CreationEntry? && UniqueKeys(rec.fields)
    requires CreationStep(Some(rec), e).Ok?
    ensures var r := CreationStep(Some(rec), e).value;
      && UniqueKeys(r.fields)
      && forall f, t :: Holds(rec.fields, f, t) ==> Holds(r.fields, f, t)
  {
    MergeCreationEffect(rec.fields, e.objectValue, e);
  }

  /** Some modify in `es` writes field `f`. */
  ghost predicate Modified(es: seq<LogEntry>, f: FieldName) {
    exists i :: 0 <= i < |es| && es[i].ModificationEntry? && es[i].field == f
  }

  /** `es[w]` is the first-seen of the modifies of `f` with the greatest `createdOn`. */
  ghost predicate NewestOfField(es: seq<LogEntry>, f: FieldName, w: int) {
    && 0 <= w < |es| && es[w].ModificationEntry? && es[w].field == f
    && (forall j :: 0 <= j < |es| && es[j].ModificationEntry? && es[j].field == f ==> es[j].createdOn <= es[w].createdOn)
    && (forall j :: 0 <= j < w && es[j].ModificationEntry? && es[j].field == f ==> es[j].createdOn < es[w].createdOn)
  }

  /** `fields` holds exactly the modified fields, each with its newest, first-seen write. */
  ghost predicate NewestHeld(es: seq<LogEntry>, fields: Fields) {
    && UniqueKeys(fields)
    && (forall f :: Lookup(fields, f).Some? <==> Modified(es, f))
    && (forall f :: Modified(es, f) ==>
          exists w :: NewestOfField(es, f, w) && Lookup(fields, f) == Some(Updates(es[w])))
  }

  /**
   * Corrected, last writer wins per field over any batch of modifies: the
   * record holds exactly the modified fields, each with the write of greatest
   * `createdOn`, the first-seen one on ties; it is neither created nor to be
   * deleted, and `isDeleted` is the first modify's (line 104).
   */
  lemma {:induction false} FixedLastWriterWins(es: seq<LogEntry>)
    requires es != []
    requires forall i :: 0 <= i < |es| ==> es[i].ModificationEntry?
    ensures FoldObjectFixed(None, es).Ok? && FoldObjectFixed(None, es).value.Some?
    ensures var r := FoldObjectFixed(None, es).value.value;
      && !r.shouldBeCreated && !r.shouldBeDeleted && r.isDeleted == Truthy(es[0].sharedOn)
      && NewestHeld(es, r.fields)
    decreases |es|
  {
    var pre := es[..|es| - 1];
    if |es| == 1 {
      assert pre == [];
      FixedFirstWrite(es);
    } else {
      assert forall i :: 0 <= i < |pre| ==> pre[i] == es[i];
      FixedLastWriterWins(pre);
      FixedNewestStep(es, FoldObjectFixed(None, pre).value.value);
    }
  }

  /** The first modify of a fresh object holds just its write. */
  lemma FixedFirstWrite(es: seq<LogEntry>)
    requires |es| == 1 && es[0].ModificationEntry?
    ensures NewestHeld(es, [(es[0].field, Updates(es[0]))])
  {
    var f, fs := es[0].field, [(es[0].field, Updates(es[0]))];
    assert NewestOfField(es, f, 0);
    forall g ensures Lookup(fs, g).Some? <==> Modified(es, g) {
      if g == f {
        assert es[0].field == g;
      }
    }
  }

  /** One more modify, corrected, keeps every field's newest write held. */
  lemma FixedNewestStep(es: seq<LogEntry>, rec: ObjectModifications)
    requires |es| > 1 && forall i :: 0 <= i < |es| ==> es[i].ModificationEntry?
    requires !rec.shouldBeCreated && NewestHeld(es[..|es| - 1], rec.fields)
    ensures ModificationStepFixed(Some(rec), es[|es| - 1]).Ok?
    ensures var r := ModificationStepFixed(Some(rec), es[|es| - 1]).value;
      && r.shouldBeCreated == rec.shouldBeCreated && r.shouldBeDeleted == rec.shouldBeDeleted
      && r.isDeleted == rec.isDeleted
      && NewestHeld(es, r.fields)
  {
    var pre, n := es[..|es| - 1], |es| - 1;
    var last, f := es[n], es[n].field;
    var fm := Lookup(rec.fields, f);
    var after := ModificationStepFixed(Some(rec), last).value.fields;
    var newer := fm.None? || last.createdOn > fm.value.createdOn;
    if newer {
      assert after == Put(rec.fields, f, Updates(last));
      PutEffect(rec.fields, f, Updates(last));
      forall g ensures Lookup(after, g) == if g == f then Some(Updates(last)) else Lookup(rec.fields, g) {
        PutLookup(rec.fields, f, Updates(last), g);
      }
    } else {
      assert after == rec.fields;
    }
    ModifiedSnoc(es);
    forall g | Modified(es, g)
      ensures exists w :: NewestOfField(es, g, w) && Lookup(after, g) == Some(Updates(es[w]))
    {
      if g != f {
        var w :| NewestOfField(pre, g, w) && Lookup(rec.fields, g) == Some(Updates(pre[w]));
        NewestOther(es, g, w);
      } else if fm.None? {
        NewestFresh(es);
      } else {
        var w :| NewestOfField(pre, f, w) && fm == Some(Updates(pre[w]));
        assert pre[w] == es[w];
        NewestLast(es, w);
      }
    }
  }

  /** A field is modified in `es` iff it is modified before the last entry, or by it. */
  lemma ModifiedSnoc(es: seq<LogEntry>)
    requires es != [] && es[|es| - 1].ModificationEntry?
    ensures forall g :: Modified(es, g) <==> Modified(es[..|es| - 1], g) || es[|es| - 1].field == g
  {
    var pre, n := es[..|es| - 1], |es| - 1;
    forall g ensures Modified(es, g) <==> Modified(pre, g) || es[n].field == g {
      if Modified(es, g) {
        var i :| 0 <= i < |es| && es[i].ModificationEntry? && es[i].field == g;
        if i < n {
          assert pre[i] == es[i];
        }
      }
      if Modified(pre, g) {
        var i :| 0 <= i < |pre| && pre[i].ModificationEntry? && pre[i].field == g;
        assert es[i] == pre[i];
      }
    }
  }

  /** The newest write of a field the last entry does not modify stays the newest. */
  lemma NewestOther(es: seq<LogEntry>, g: FieldName, w: int)
    requires es != [] && es[|es| - 1].ModificationEntry? && es[|es| - 1].field != g
    requires NewestOfField(es[..|es| - 1], g, w)
    ensures NewestOfField(es, g, w) && es[w] == es[..|es| - 1][w]
  {
    var pre := es[..|es| - 1];
    assert forall j :: 0 <= j < |pre| ==> pre[j] == es[j];
  }

  /** The last entry is the newest write of a field no earlier entry modified. */
  lemma NewestFresh(es: seq<LogEntry>)
    requires es != [] && es[|es| - 1].ModificationEntry?
    requires !Modified(es[..|es| - 1], es[|es| - 1].field)
    ensures NewestOfField(es, es[|es| - 1].field, |es| - 1)
  {
    var pre, n := es[..|es| - 1], |es| - 1;
    forall j | 0 <= j < n && es[j].ModificationEntry? ensures es[j].field != es[n].field {
      assert pre[j] == es[j];
    }
  }

  /** The last modify of a field is its newest write iff it is strictly newer than the earlier newest. */
  lemma NewestLast(es: seq<LogEntry>, w: int)
    requires es != [] && es[|es| - 1].ModificationEntry?
    requires NewestOfField(es[..|es| - 1], es[|es| - 1].field, w)
    ensures es[|es| - 1].createdOn > es[w].createdOn ==> NewestOfField(es, es[|es| - 1].field, |es| - 1)
    ensures es[|es| - 1].createdOn <= es[w].createdOn ==> NewestOfField(es, es[|es| - 1].field, w)
  {
    var pre := es[..|es| - 1];
    assert forall j :: 0 <= j < |pre| ==> pre[j] == es[j];
  }

  /** Corrected, the batch of `LaterFieldIsLost` keeps the priority. */
  lemma LaterFieldKeptWhenFixed(title: Value, prio: Value)
    ensures var pk := PkString("list-one");
      var es := [CreationEntry("lists", pk, 1, None, [("title", title)]),
                 ModificationEntry("lists", pk, 2, None, "prio", prio)];
      && FoldObjectFixed(None, es).Ok? && FoldObjectFixed(None, es).value.Some?
      && FieldValues(FoldObjectFixed(None, es).value.value.fields) == map["title" := title, "prio" := prio]
  {
    var pk := PkString("list-one");
    var c := CreationEntry("lists", pk, 1, None, [("title", title)]);
    var m := ModificationEntry("lists", pk, 2, None, "prio", prio);
    var es := [c, m];
    assert es[..1] == [c] && [c][..0] == [] && c.objectValue[..0] == [];
    CreateFresh(c);
    var rec := CreationStep(None, c).value;
    assert rec.fields == [("title", Stamp(title, c))];
    assert FoldObjectFixed(None, [c]) == Ok(Some(rec));
    var r := ModificationStepFixed(Some(rec), m).value;
    assert r.fields == [("title", Stamp(title, c)), ("prio", Updates(m))];
    assert FoldObjectFixed(None, es) == Ok(Some(r));
    assert r.fields[..1] == [r.fields[0]] && r.fields[..1][..0] == [];
    assert FieldValues(r.fields[..1]) == map["title" := title];
  }

  /** Corrected, the batch of `SecondFieldLost` emits one single-field update per modified field. */
  lemma SecondFieldKeptWhenFixed(a: Value, b: Value, pkFields: PkFields)
    ensures var pk := PkString("list-one");
      var es := [ModificationEntry("lists", pk, 1, None, "title", a),
                 ModificationEntry("lists", pk, 2, None, "prio", b)];
      && FoldObjectFixed(None, es).Ok? && FoldObjectFixed(None, es).value.Some?
      && Emission(FoldObjectFixed(None, es).value.value, "lists", pkFields)
           == [UpdateOneObject("lists", pkFields, map["title" := a]), UpdateOneObject("lists", pkFields, map["prio" := b])]
  {
    var pk := PkString("list-one");
    var m1 := ModificationEntry("lists", pk, 1, None, "title", a);
    var m2 := ModificationEntry("lists", pk, 2, None, "prio", b);
    var es := [m1, m2];
    assert es[..1] == [m1] && [m1][..0] == [];
    var rec := ModificationStepFixed(None, m1).value;
    assert FoldObjectFixed(None, [m1]) == Ok(Some(rec));
    var r := ModificationStepFixed(Some(rec), m2).value;
    assert r.fields == [("title", Updates(m1)), ("prio", Updates(m2))];
    assert FoldObjectFixed(None, es) == Ok(Some(r));
    assert r.fields[..1] == [r.fields[0]] && r.fields[..1][..0] == [];
    assert UnsyncedUpdates(r.fields[..1], "lists", pkFields) == [UpdateFor("lists", pkFields, r.fields[0])];
  }
}
