/**
 * What the per-entry rules of the Object Reconciler guarantee, one entry at
 * a time and over a whole sequence of entries for one object.
 */
module ObjectReconcilerLemmas {
  import opened SyncTypes
  import opened FieldMaps
  import opened ObjectReconciler
  import opened OperationEmitter

  // ---------------------------------------------------------------------
  // Creation
  // ---------------------------------------------------------------------

  /** A create on a fresh object records each value, stamped, in the value's own key order. */
  lemma {:induction false} NewFieldsEffect(kvs: seq<(FieldName, Value)>, e: LogEntry)
    requires UniqueKeys(kvs)
    ensures |NewFields(kvs, e)| == |kvs|
    ensures forall i :: 0 <= i < |kvs| ==> NewFields(kvs, e)[i] == (kvs[i].0, Stamp(kvs[i].1, e))
    decreases |kvs|
  {
    if kvs != [] {
      var pre, last := kvs[..|kvs| - 1], kvs[|kvs| - 1];
      assert forall i :: 0 <= i < |pre| ==> pre[i] == kvs[i];
      NewFieldsEffect(pre, e);
      var fs := NewFields(pre, e);
      assert forall i :: 0 <= i < |fs| ==> fs[i].0 != last.0;
      PutEffect(fs, last.0, Stamp(last.1, e));
    }
  }

  /** The fields a create builds never hold a name twice. */
  lemma {:induction false} NewFieldsUnique(kvs: seq<(FieldName, Value)>, e: LogEntry)
    ensures UniqueKeys(NewFields(kvs, e))
    decreases |kvs|
  {
    if kvs != [] {
      var pre, last := kvs[..|kvs| - 1], kvs[|kvs| - 1];
      NewFieldsUnique(pre, e);
      PutEffect(NewFields(pre, e), last.0, Stamp(last.1, e));
    }
  }

  /** A field already present whose write predates the create (line 73). */
  ghost predicate Conflicts(fields: Fields, k: FieldName, e: LogEntry) {
    Lookup(fields, k).Some? && e.createdOn > Lookup(fields, k).value.createdOn
  }

  /**
   * What a field holds after a create merged into `fields`: the value an
   * earlier modify left there, or else the create's own value, stamped.
   */
  function Merged(fields: Fields, kvs: seq<(FieldName, Value)>, e: LogEntry, j: FieldName): Option<FieldModification> {
    if Lookup(fields, j).Some? then Lookup(fields, j)
    else if IndexOf(kvs, j) < |kvs| then Some(Stamp(kvs[IndexOf(kvs, j)].1, e))
    else None
  }

  lemma MergedAppend(fields: Fields, pre: seq<(FieldName, Value)>, k: FieldName, v: Value, e: LogEntry, j: FieldName)
    ensures Merged(fields, pre + [(k, v)], e, j) ==
              if Merged(fields, pre, e, j).Some? then Merged(fields, pre, e, j)
              else if j == k then Some(Stamp(v, e)) else None
  {
    IndexOfAppend(pre, k, v, j);
    var kvs := pre + [(k, v)];
    if IndexOf(pre, j) < |pre| {
      assert kvs[IndexOf(pre, j)] == pre[IndexOf(pre, j)];
    }
  }

  /**
   * Merging a create into fields built by earlier modifies fails exactly
   * when some value's field was already written before the create; otherwise
   * present fields keep their values and absent ones get the create's.
   */
  lemma {:induction false} MergeCreationEffect(fields: Fields, kvs: seq<(FieldName, Value)>, e: LogEntry)
    ensures MergeCreation(fields, kvs, e).None? <==>
              exists i :: 0 <= i < |kvs| && Conflicts(fields, kvs[i].0, e)
    ensures MergeCreation(fields, kvs, e).Some? ==>
              forall j :: Lookup(MergeCreation(fields, kvs, e).value, j) == Merged(fields, kvs, e, j)
    ensures MergeCreation(fields, kvs, e).Some? && UniqueKeys(fields) ==>
              UniqueKeys(MergeCreation(fields, kvs, e).value)
  {
    MergeCreationFails(fields, kvs, e);
    MergeCreationLookup(fields, kvs, e);
    MergeCreationUnique(fields, kvs, e);
  }

  lemma {:induction false} MergeCreationFails(fields: Fields, kvs: seq<(FieldName, Value)>, e: LogEntry)
    ensures MergeCreation(fields, kvs, e).None? <==>
              exists i :: 0 <= i < |kvs| && Conflicts(fields, kvs[i].0, e)
    decreases |kvs|
  {
    if kvs != [] {
      var pre, last := kvs[..|kvs| - 1], kvs[|kvs| - 1];
      assert forall i :: 0 <= i < |pre| ==> pre[i] == kvs[i];
      MergeCreationFails(fields, pre, e);
      match MergeCreation(fields, pre, e)
      case None =>
        var i :| 0 <= i < |pre| && Conflicts(fields, pre[i].0, e);
        assert Conflicts(fields, kvs[i].0, e);
      case Some(fs) =>
        MergeCreationLookup(fields, pre, e);
        assert Lookup(fs, last.0) == Merged(fields, pre, e, last.0);
        MergeConflictLast(fields, pre, fs, last, e);
        if Conflicts(fields, last.0, e) {
          assert Conflicts(fields, kvs[|kvs| - 1].0, e);
        }
    }
  }

  /** Whether the last value of a create conflicts, once the earlier ones merged. */
  lemma MergeConflictLast(fields: Fields, pre: seq<(FieldName, Value)>, fs: Fields, last: (FieldName, Value), e: LogEntry)
    requires Lookup(fs, last.0) == Merged(fields, pre, e, last.0)
    requires forall i :: 0 <= i < |pre| ==> !Conflicts(fields, pre[i].0, e)
    ensures (Lookup(fs, last.0).Some? && e.createdOn > Lookup(fs, last.0).value.createdOn) <==> Conflicts(fields, last.0, e)
  {
    if Lookup(fields, last.0).None? && IndexOf(pre, last.0) < |pre| {
      assert Lookup(fs, last.0).value.createdOn == e.createdOn;
    }
  }

  lemma {:induction false} MergeCreationLookup(fields: Fields, kvs: seq<(FieldName, Value)>, e: LogEntry)
    ensures MergeCreation(fields, kvs, e).Some? ==>
              forall j :: Lookup(MergeCreation(fields, kvs, e).value, j) == Merged(fields, kvs, e, j)
    decreases |kvs|
  {
    if kvs != [] {
      var pre, last := kvs[..|kvs| - 1], kvs[|kvs| - 1];
      assert kvs == pre + [last];
      MergeCreationLookup(fields, pre, e);
      if MergeCreation(fields, kvs, e).Some? {
        var fs := MergeCreation(fields, pre, e).value;
        forall j ensures Lookup(MergeCreation(fields, kvs, e).value, j) == Merged(fields, kvs, e, j) {
          MergedAppend(fields, pre, last.0, last.1, e, j);
          if Lookup(fs, last.0).None? {
            PutLookup(fs, last.0, Stamp(last.1, e), j);
          }
        }
      }
    }
  }

  lemma {:induction false} MergeCreationUnique(fields: Fields, kvs: seq<(FieldName, Value)>, e: LogEntry)
    ensures MergeCreation(fields, kvs, e).Some? && UniqueKeys(fields) ==>
              UniqueKeys(MergeCreation(fields, kvs, e).value)
    decreases |kvs|
  {
    if kvs != [] {
      var pre, last := kvs[..|kvs| - 1], kvs[|kvs| - 1];
      MergeCreationUnique(fields, pre, e);
      if MergeCreation(fields, pre, e).Some? {
        PutEffect(MergeCreation(fields, pre, e).value, last.0, Stamp(last.1, e));
      }
    }
  }

  /** A create on a fresh object (lines 54-63). */
  lemma CreateFresh(e: LogEntry)
    requires e.CreationEntry? && UniqueKeys(e.objectValue)
    ensures CreationStep(None, e).Ok?
    ensures var r := CreationStep(None, e).value;
      && r.shouldBeCreated && r.createdOn == Some(e.createdOn)
      && !r.isDeleted && !r.shouldBeDeleted && r.stray == map[]
      && |r.fields| == |e.objectValue|
      && forall i :: 0 <= i < |e.objectValue| ==> r.fields[i] == (e.objectValue[i].0, Stamp(e.objectValue[i].1, e))
  {
    NewFieldsEffect(e.objectValue, e);
  }

  /**
   * A create folded into a record that earlier modifies built (lines 69-78):
   * it fails with a modification-before-creation exactly when a present field
   * was written before the create; otherwise it keeps every present field,
   * adds the absent ones stamped with its own timestamps, and marks the
   * record created at its `createdOn`.
   */
  lemma CreateAfterModifies(rec: ObjectModifications, e: LogEntry)
    requires e.CreationEntry? && !rec.shouldBeCreated
    ensures CreationStep(Some(rec), e).Err? <==>
              exists i :: 0 <= i < |e.objectValue| && Conflicts(rec.fields, e.objectValue[i].0, e)
    ensures CreationStep(Some(rec), e).Err? ==>
              CreationStep(Some(rec), e).error == ModificationBeforeCreation(e.collection, e.pk)
    ensures CreationStep(Some(rec), e).Ok? ==>
              var r := CreationStep(Some(rec), e).value;
              && r.shouldBeCreated && r.createdOn == Some(e.createdOn)
              && r.isDeleted == rec.isDeleted && r.shouldBeDeleted == rec.shouldBeDeleted
              && r.stray == rec.stray
              && forall j :: Lookup(r.fields, j) == Merged(rec.fields, e.objectValue, e, j)
  {
    MergeCreationEffect(rec.fields, e.objectValue, e);
  }

  // ---------------------------------------------------------------------
  // Modification
  // ---------------------------------------------------------------------

  /** A modify dated before the recorded creation of a created object is an anomaly (lines 110-112). */
  lemma ModifyBeforeCreation(rec: ObjectModifications, e: LogEntry)
    requires e.ModificationEntry?
    ensures ModificationStep(Some(rec), e).Err? <==> rec.shouldBeCreated && Gt(rec.createdOn, e.createdOn)
    ensures ModificationStep(Some(rec), e).Err? ==>
              ModificationStep(Some(rec), e).error == ModificationBeforeCreation(e.collection, e.pk)
  {
  }

  /**
   * Last writer wins on a field already in `fields` (lines 114-119): the
   * stored write is replaced only by a strictly newer one, so ties keep the
   * first-seen write; no other field and no flag changes.
   */
  lemma LastWriterWinsStep(rec: ObjectModifications, e: LogEntry, fm: FieldModification)
    requires e.ModificationEntry? && Lookup(rec.fields, e.field) == Some(fm)
    requires !(rec.shouldBeCreated && Gt(rec.createdOn, e.createdOn))
    ensures ModificationStep(Some(rec), e).Ok?
    ensures var r := ModificationStep(Some(rec), e).value;
      && r.shouldBeCreated == rec.shouldBeCreated && r.createdOn == rec.createdOn
      && r.isDeleted == rec.isDeleted && r.shouldBeDeleted == rec.shouldBeDeleted && r.stray == rec.stray
      && |r.fields| == |rec.fields|
      && Lookup(r.fields, e.field) == Some(if e.createdOn > fm.createdOn then Updates(e) else fm)
      && forall j :: j != e.field ==> Lookup(r.fields, j) == Lookup(rec.fields, j)
  {
    if e.createdOn > fm.createdOn {
      PutEffect(rec.fields, e.field, Updates(e));
      forall j {
        PutLookup(rec.fields, e.field, Updates(e), j);
      }
    }
  }

  /**
   * A modify of a field that `fields` lacks lands on the record itself
   * (line 116): `fields` is unchanged, so the operations emitted for the
   * record are exactly those emitted before the write.
   */
  lemma StrayWrite(rec: ObjectModifications, e: LogEntry, collection: string, pkFields: PkFields)
    requires e.ModificationEntry? && Lookup(rec.fields, e.field).None?
    requires !(rec.shouldBeCreated && Gt(rec.createdOn, e.createdOn))
    ensures ModificationStep(Some(rec), e) == Ok(rec.(stray := rec.stray[e.field := Updates(e)]))
    ensures ModificationStep(Some(rec), e).value.fields == rec.fields
    ensures Emission(ModificationStep(Some(rec), e).value, collection, pkFields) == Emission(rec, collection, pkFields)
  {
  }

  // ---------------------------------------------------------------------
  // The record invariant
  // ---------------------------------------------------------------------

  /** Every step keeps field names unique and a created record's creation time set. */
  lemma StepWellFormed(prior: Option<ObjectModifications>, e: LogEntry)
    requires prior.Some? ==> WellFormed(prior.value)
    ensures Step(prior, e).Ok? ==> WellFormed(Step(prior, e).value)
  {
    match e
    case CreationEntry(_, _, _, _, _) =>
      if prior.None? {
        NewFieldsUnique(e.objectValue, e);
      } else {
        MergeCreationEffect(prior.value.fields, e.objectValue, e);
      }
    case ModificationEntry(_, _, _, _, _, _) =>
      if prior.Some? {
        PutEffect(prior.value.fields, e.field, Updates(e));
      }
    case DeletionEntry(_, _, _, _) =>
  }

  // ---------------------------------------------------------------------
  // Folding a sequence of entries for one object
  // ---------------------------------------------------------------------

  /** Folding `es + more` is folding `es`, then `more` from where it stopped; an anomaly stops everything. */
  lemma {:induction false} FoldObjectAppend(prior: Option<ObjectModifications>, es: seq<LogEntry>, more: seq<LogEntry>)
    ensures FoldObject(prior, es + more) ==
              match FoldObject(prior, es)
              case Err(a) => Err(a)
              case Ok(r) => FoldObject(r, more)
    decreases |more|
  {
    if more == [] {
      assert es + more == es;
    } else {
      var pre := more[..|more| - 1];
      assert (es + more)[..|es + more| - 1] == es + pre;
      assert (es + more)[|es + more| - 1] == more[|more| - 1];
      FoldObjectAppend(prior, es, pre);
    }
  }

  /** An anomaly in a prefix is the anomaly of the whole sequence. */
  lemma FoldObjectErrorSticks(prior: Option<ObjectModifications>, es: seq<LogEntry>, more: seq<LogEntry>, a: Anomaly)
    requires FoldObject(prior, es) == Err(a)
    ensures FoldObject(prior, es + more) == Err(a)
  {
    FoldObjectAppend(prior, es, more);
  }

  /**
   * After folding an object's entries: a record exists iff there was an
   * entry; it is well formed; `shouldBeCreated` holds iff some entry was a
   * create and `shouldBeDeleted` iff some entry was a delete (neither flag
   * is ever cleared).
   */
  lemma {:induction false} FoldFlags(es: seq<LogEntry>)
    ensures FoldObject(None, es).Ok? ==>
              var r := FoldObject(None, es).value;
              && (r.Some? <==> es != [])
              && (r.Some? ==>
                    && WellFormed(r.value)
                    && (r.value.shouldBeCreated <==> exists i :: 0 <= i < |es| && es[i].CreationEntry?)
                    && (r.value.shouldBeDeleted <==> exists i :: 0 <= i < |es| && es[i].DeletionEntry?))
    decreases |es|
  {
    if es != [] {
      var pre := es[..|es| - 1];
      assert forall i :: 0 <= i < |pre| ==> pre[i] == es[i];
      FoldFlags(pre);
      if FoldObject(None, pre).Ok? {
        FlagsExtend(es, FoldObject(None, pre).value);
      }
    }
  }

  /** One more entry: a create sets `shouldBeCreated`, a delete `shouldBeDeleted`, nothing clears them. */
  lemma FlagsExtend(es: seq<LogEntry>, r: Option<ObjectModifications>)
    requires es != [] && (r.Some? <==> |es| > 1)
    requires r.Some? ==>
               && WellFormed(r.value)
               && (r.value.shouldBeCreated <==> exists i :: 0 <= i < |es| - 1 && es[i].CreationEntry?)
               && (r.value.shouldBeDeleted <==> exists i :: 0 <= i < |es| - 1 && es[i].DeletionEntry?)
    ensures Step(r, es[|es| - 1]).Ok? ==>
              var n := Step(r, es[|es| - 1]).value;
              && WellFormed(n)
              && (n.shouldBeCreated <==> exists i :: 0 <= i < |es| && es[i].CreationEntry?)
              && (n.shouldBeDeleted <==> exists i :: 0 <= i < |es| && es[i].DeletionEntry?)
  {
    var last := es[|es| - 1];
    StepWellFormed(r, last);
    if Step(r, last).Ok? {
      var n := Step(r, last).value;
      if r.None? {
        assert |es| == 1;
      }
      assert n.shouldBeCreated == (last.CreationEntry? || (r.Some? && r.value.shouldBeCreated));
      assert n.shouldBeDeleted == (last.DeletionEntry? || (r.Some? && r.value.shouldBeDeleted));
    }
  }

  /**
   * Two creates for one object always abort the fold; when nothing before
   * the second create aborted, the anomaly is that create's double create
   * (lines 65-67).
   */
  lemma DoubleCreateFails(es: seq<LogEntry>, i: nat, j: nat)
    requires i < j < |es| && es[i].CreationEntry? && es[j].CreationEntry?
    ensures FoldObject(None, es).Err?
    ensures FoldObject(None, es[..j]).Ok? ==>
              FoldObject(None, es) == Err(DoubleCreate(es[j].collection, es[j].pk))
  {
    var upto := es[..j + 1];
    assert upto == es[..j] + [es[j]];
    assert es[..j][i] == es[i];
    CreateAfterCreate(es[..j], es[j], i);
    assert upto + es[j + 1..] == es;
    FoldObjectAppend(None, upto, es[j + 1..]);
  }

  /** A create following a create aborts the fold at that entry, as a double create if nothing aborted earlier. */
  lemma CreateAfterCreate(pre: seq<LogEntry>, e: LogEntry, i: nat)
    requires i < |pre| && pre[i].CreationEntry? && e.CreationEntry?
    ensures FoldObject(None, pre + [e]).Err?
    ensures FoldObject(None, pre).Ok? ==> FoldObject(None, pre + [e]) == Err(DoubleCreate(e.collection, e.pk))
  {
    var es := pre + [e];
    assert es[..|es| - 1] == pre && es[|es| - 1] == e;
    FoldFlags(pre);
  }

  ghost predicate NoCreation(es: seq<LogEntry>) {
    forall i :: 0 <= i < |es| ==> !es[i].CreationEntry?
  }

  /** `d` is the position of the last delete in `es`. */
  ghost predicate LastDeletion(es: seq<LogEntry>, d: int) {
    0 <= d < |es| && es[d].DeletionEntry? && forall j :: d < j < |es| ==> !es[j].DeletionEntry?
  }

  /**
   * Without a create, an object's fold never fails and never marks it
   * created; once deleted its fields stay empty (later modifies only reach
   * the stray properties); and `isDeleted` is what the LAST-folded delete
   * says, whatever the timestamps.
   */
  lemma {:induction false} FoldWithoutCreation(es: seq<LogEntry>)
    requires NoCreation(es)
    ensures FoldObject(None, es).Ok?
    ensures es != [] ==>
              var r := FoldObject(None, es).value;
              && r.Some? && !r.value.shouldBeCreated
              && (r.value.shouldBeDeleted ==> r.value.fields == [])
              && forall d :: LastDeletion(es, d) ==> r.value.shouldBeDeleted && r.value.isDeleted == Truthy(es[d].sharedOn)
    decreases |es|
  {
    if es != [] {
      var pre := es[..|es| - 1];
      assert forall i :: 0 <= i < |pre| ==> pre[i] == es[i];
      FoldWithoutCreation(pre);
      forall d | LastDeletion(es, d) && d < |es| - 1 ensures LastDeletion(pre, d) {
      }
      WithoutCreationStep(es, FoldObject(None, pre).value);
    }
  }

  /** One more entry that is not a create, from the state before it. */
  lemma WithoutCreationStep(es: seq<LogEntry>, r: Option<ObjectModifications>)
    requires es != [] && !es[|es| - 1].CreationEntry?
    requires r.Some? <==> |es| > 1
    requires r.Some? ==>
               && !r.value.shouldBeCreated
               && (r.value.shouldBeDeleted ==> r.value.fields == [])
               && forall d :: LastDeletion(es, d) && d < |es| - 1 ==>
                    r.value.shouldBeDeleted && r.value.isDeleted == Truthy(es[d].sharedOn)
    ensures Step(r, es[|es| - 1]).Ok?
    ensures var n := Step(r, es[|es| - 1]).value;
      && !n.shouldBeCreated
      && (n.shouldBeDeleted ==> n.fields == [])
      && forall d :: LastDeletion(es, d) ==> n.shouldBeDeleted && n.isDeleted == Truthy(es[d].sharedOn)
  {
    var last := es[|es| - 1];
    if !last.DeletionEntry? {
      assert forall d :: LastDeletion(es, d) ==> d < |es| - 1;
    } else {
      assert forall d :: LastDeletion(es, d) ==> d == |es| - 1;
    }
  }

  /** `w` is the first of the entries with the greatest `createdOn`. */
  ghost predicate NewestFirst(es: seq<LogEntry>, w: int) {
    && 0 <= w < |es|
    && (forall j :: 0 <= j < |es| ==> es[j].createdOn <= es[w].createdOn)
    && (forall j :: 0 <= j < w ==> es[j].createdOn < es[w].createdOn)
  }

  /**
   * Last writer wins over a whole batch of modifies of one field: the object
   * ends with that one field, holding the write with the greatest
   * `createdOn`, the first-seen one on ties. The record is neither created
   * nor deleted, and `isDeleted` is whatever the FIRST modify's `sharedOn`
   * said (line 104).
   */
  lemma {:induction false} LastWriterWins(es: seq<LogEntry>, f: FieldName)
    requires es != []
    requires forall i :: 0 <= i < |es| ==> es[i].ModificationEntry? && es[i].field == f
    ensures FoldObject(None, es).Ok? && FoldObject(None, es).value.Some?
    ensures var r := FoldObject(None, es).value.value;
      && !r.shouldBeCreated && !r.shouldBeDeleted && r.isDeleted == Truthy(es[0].sharedOn)
      && exists w :: NewestFirst(es, w) && r.fields == [(f, Updates(es[w]))]
    decreases |es|
  {
    if |es| == 1 {
      assert NewestFirst(es, 0);
      assert es[..0] == [];
    } else {
      var pre := es[..|es| - 1];
      assert forall i :: 0 <= i < |pre| ==> pre[i] == es[i];
      LastWriterWins(pre, f);
      var rec := FoldObject(None, pre).value.value;
      var w' :| NewestFirst(pre, w') && rec.fields == [(f, Updates(pre[w']))];
      LastWriterExtends(es, f, rec, w');
    }
  }

  /** One more modify of the field keeps the newest, first-seen write. */
  lemma LastWriterExtends(es: seq<LogEntry>, f: FieldName, rec: ObjectModifications, w': int)
    requires |es| > 1
    requires forall i :: 0 <= i < |es| ==> es[i].ModificationEntry?
    requires es[|es| - 1].field == f
    requires NewestFirst(es[..|es| - 1], w') && rec.fields == [(f, Updates(es[w']))]
    requires !rec.shouldBeCreated
    ensures ModificationStep(Some(rec), es[|es| - 1]).Ok?
    ensures var r := ModificationStep(Some(rec), es[|es| - 1]).value;
      && r.shouldBeCreated == rec.shouldBeCreated && r.shouldBeDeleted == rec.shouldBeDeleted
      && r.isDeleted == rec.isDeleted
      && exists w :: NewestFirst(es, w) && r.fields == [(f, Updates(es[w]))]
  {
    var last := es[|es| - 1];
    assert Lookup(rec.fields, f) == Some(Updates(es[w']));
    var r := ModificationStep(Some(rec), last).value;
    if last.createdOn > es[w'].createdOn {
      assert r.fields == [(f, Updates(last))];
      assert NewestFirst(es, |es| - 1);
    } else {
      assert r.fields == rec.fields;
      assert NewestFirst(es, w');
    }
  }
}
