/**
 * The Operation Emitter: `_processModifications`
 * (ts/reconciliation/default.ts, lines 122-146) turns one terminal record
 * into zero or more storage operations, by a strict order of precedence:
 * deletion, then creation, then one update per unsynced field.
 */
module OperationEmitter {
  import opened SyncTypes
  import opened FieldMaps
  import opened ObjectReconciler

  /** Lines 132-135: the object of each field's latest value, by name. */
  function FieldValues(fs: Fields): map<FieldName, Value>
    decreases |fs|
  {
    if fs == [] then map[]
    else
      var last := fs[|fs| - 1];
      FieldValues(fs[..|fs| - 1])[last.0 := last.1.value]
  }

  /** The patch of an update: exactly one field. */
  function UpdateFor(collection: string, pkFields: PkFields, f: (FieldName, FieldModification)): Operation {
    UpdateOneObject(collection, pkFields, map[f.0 := f.1.value])
  }

  /** Lines 138-143: one update per field whose `syncedOn` is falsy, in field order. */
  function UnsyncedUpdates(fs: Fields, collection: string, pkFields: PkFields): seq<Operation>
    decreases |fs|
  {
    if fs == [] then []
    else
      var last := fs[|fs| - 1];
      UnsyncedUpdates(fs[..|fs| - 1], collection, pkFields)
        + (if !Truthy(last.1.syncedOn) then [UpdateFor(collection, pkFields, last)] else [])
  }

  /** The operations one terminal record needs, in the precedence of lines 127-145. */
  function Emission(rec: ObjectModifications, collection: string, pkFields: PkFields): seq<Operation> {
    if rec.shouldBeDeleted then
      if !rec.isDeleted && !rec.shouldBeCreated then [DeleteOneObject(collection, pkFields)] else []
    else if rec.shouldBeCreated then
      [CreateObject(collection, pkFields + FieldValues(rec.fields))]
    else
      UnsyncedUpdates(rec.fields, collection, pkFields)
  }

  /**
   * `_processModifications`: `keyFields` stands for `setObjectPk` with the
   * storage registry (line 126), a schema lookup outside this model.
   */
  method ProcessModifications(rec: ObjectModifications, collection: string, pk: Pk,
                              keyFields: (string, Pk) -> PkFields)
    returns (ops: seq<Operation>)
    ensures ops == Emission(rec, collection, keyFields(collection, pk))
  {
    var pkFields := keyFields(collection, pk);
    if rec.shouldBeDeleted {
      if !rec.isDeleted && !rec.shouldBeCreated {
        return [DeleteOneObject(collection, pkFields)];
      }
      return [];
    } else if rec.shouldBeCreated {
      var values := map[];
      for i := 0 to |rec.fields|
        invariant values == FieldValues(rec.fields[..i])
      {
        assert rec.fields[..i + 1][..i] == rec.fields[..i];
        values := values[rec.fields[i].0 := rec.fields[i].1.value];
      }
      assert rec.fields[..|rec.fields|] == rec.fields;
      return [CreateObject(collection, pkFields + values)];
    } else {
      var operations := [];
      for i := 0 to |rec.fields|
        invariant operations == UnsyncedUpdates(rec.fields[..i], collection, pkFields)
      {
        assert rec.fields[..i + 1][..i] == rec.fields[..i];
        var field := rec.fields[i];
        if !Truthy(field.1.syncedOn) {
          operations := operations + [UpdateFor(collection, pkFields, field)];
        }
      }
      assert rec.fields[..|rec.fields|] == rec.fields;
      return operations;
    }
  }

  /** The created object carries exactly the fields present, each with its latest value. */
  lemma {:induction false} FieldValuesAgree(fs: Fields)
    requires UniqueKeys(fs)
    ensures forall j :: j in FieldValues(fs) <==> Lookup(fs, j).Some?
    ensures forall j :: j in FieldValues(fs) ==> FieldValues(fs)[j] == Lookup(fs, j).value.value
    decreases |fs|
  {
    if fs != [] {
      var pre, last := fs[..|fs| - 1], fs[|fs| - 1];
      assert fs == pre + [last];
      assert forall i :: 0 <= i < |pre| ==> pre[i] == fs[i];
      FieldValuesAgree(pre);
      FieldValuesSnoc(pre, last);
    }
  }

  /** One step of `FieldValuesAgree`: appending a field not yet present. */
  lemma FieldValuesSnoc(pre: Fields, last: (FieldName, FieldModification))
    requires UniqueKeys(pre + [last])
    requires forall j :: j in FieldValues(pre) <==> Lookup(pre, j).Some?
    requires forall j :: j in FieldValues(pre) ==> FieldValues(pre)[j] == Lookup(pre, j).value.value
    ensures forall j :: j in FieldValues(pre + [last]) <==> Lookup(pre + [last], j).Some?
    ensures forall j :: j in FieldValues(pre + [last]) ==>
              FieldValues(pre + [last])[j] == Lookup(pre + [last], j).value.value
  {
    var fs := pre + [last];
    assert fs[..|fs| - 1] == pre && fs[|fs| - 1] == last;
    assert FieldValues(fs) == FieldValues(pre)[last.0 := last.1.value];
    forall i | 0 <= i < |pre| ensures pre[i].0 != last.0 {
      assert fs[i] == pre[i] && fs[|pre|] == last;
    }
    assert Lookup(pre, last.0).None?;
    forall j ensures Lookup(fs, j) == if j == last.0 then Some(last.1) else Lookup(pre, j) {
      LookupAppend(pre, last.0, last.1, j);
    }
  }

  /** The positions of the fields whose `syncedOn` is falsy. */
  ghost function UnsyncedAt(fs: Fields): set<int> {
    set i | 0 <= i < |fs| && !Truthy(fs[i].1.syncedOn)
  }

  /**
   * The updates of a record neither deleted nor created: every one patches
   * exactly one field whose `syncedOn` is falsy, every such field gets one,
   * and (field names being unique) exactly one, the updates of earlier
   * fields coming first.
   */
  lemma UnsyncedUpdatesEffect(fs: Fields, collection: string, pkFields: PkFields)
    ensures |UnsyncedUpdates(fs, collection, pkFields)| <= |fs|
    ensures forall op :: op in UnsyncedUpdates(fs, collection, pkFields) ==>
              exists i :: 0 <= i < |fs| && !Truthy(fs[i].1.syncedOn) && op == UpdateFor(collection, pkFields, fs[i])
    ensures forall i :: 0 <= i < |fs| && !Truthy(fs[i].1.syncedOn) ==>
              UpdateFor(collection, pkFields, fs[i]) in UnsyncedUpdates(fs, collection, pkFields)
    ensures |UnsyncedUpdates(fs, collection, pkFields)| == |UnsyncedAt(fs)|
    ensures UniqueKeys(fs) ==>
              var u := UnsyncedUpdates(fs, collection, pkFields);
              forall a, b :: 0 <= a < b < |u| ==> u[a] != u[b]
    ensures forall n :: 0 <= n <= |fs| ==>
              UnsyncedUpdates(fs[..n], collection, pkFields) <= UnsyncedUpdates(fs, collection, pkFields)
  {
    UnsyncedMembers(fs, collection, pkFields);
    UnsyncedCount(fs, collection, pkFields);
    if UniqueKeys(fs) {
      UnsyncedDistinct(fs, collection, pkFields);
    }
    UnsyncedPrefix(fs, collection, pkFields);
  }

  lemma {:induction false} UnsyncedMembers(fs: Fields, collection: string, pkFields: PkFields)
    ensures |UnsyncedUpdates(fs, collection, pkFields)| <= |fs|
    ensures forall op :: op in UnsyncedUpdates(fs, collection, pkFields) ==>
              exists i :: 0 <= i < |fs| && !Truthy(fs[i].1.syncedOn) && op == UpdateFor(collection, pkFields, fs[i])
    ensures forall i :: 0 <= i < |fs| && !Truthy(fs[i].1.syncedOn) ==>
              UpdateFor(collection, pkFields, fs[i]) in UnsyncedUpdates(fs, collection, pkFields)
    decreases |fs|
  {
    if fs != [] {
      var pre, last := fs[..|fs| - 1], fs[|fs| - 1];
      assert forall i :: 0 <= i < |pre| ==> pre[i] == fs[i];
      UnsyncedMembers(pre, collection, pkFields);
      var u0 := UnsyncedUpdates(pre, collection, pkFields);
      if Truthy(last.1.syncedOn) {
        assert UnsyncedUpdates(fs, collection, pkFields) == u0;
      } else {
        assert UnsyncedUpdates(fs, collection, pkFields) == u0 + [UpdateFor(collection, pkFields, last)];
      }
    }
  }

  lemma {:induction false} UnsyncedCount(fs: Fields, collection: string, pkFields: PkFields)
    ensures |UnsyncedUpdates(fs, collection, pkFields)| == |UnsyncedAt(fs)|
    decreases |fs|
  {
    if fs != [] {
      UnsyncedCount(fs[..|fs| - 1], collection, pkFields);
      UnsyncedAtSnoc(fs);
    }
  }

  /** The unsynced positions of `fs` are those of its prefix, plus the last one if it is unsynced. */
  lemma UnsyncedAtSnoc(fs: Fields)
    requires fs != []
    ensures var pre, n := fs[..|fs| - 1], |fs| - 1;
      |UnsyncedAt(fs)| == |UnsyncedAt(pre)| + if Truthy(fs[n].1.syncedOn) then 0 else 1
  {
    var pre, n := fs[..|fs| - 1], |fs| - 1;
    var extra: set<int> := if !Truthy(fs[n].1.syncedOn) then {n} else {};
    forall i ensures i in UnsyncedAt(fs) <==> i in UnsyncedAt(pre) + extra {
      if 0 <= i < n {
        assert fs[i] == pre[i];
      }
    }
    assert UnsyncedAt(fs) == UnsyncedAt(pre) + extra;
    assert n !in UnsyncedAt(pre);
    assert UnsyncedAt(pre) * extra == {};
  }

  lemma {:induction false} UnsyncedDistinct(fs: Fields, collection: string, pkFields: PkFields)
    requires UniqueKeys(fs)
    ensures var u := UnsyncedUpdates(fs, collection, pkFields);
      forall a, b :: 0 <= a < b < |u| ==> u[a] != u[b]
    decreases |fs|
  {
    if fs != [] {
      var pre, last := fs[..|fs| - 1], fs[|fs| - 1];
      assert forall i :: 0 <= i < |pre| ==> pre[i] == fs[i];
      UnsyncedDistinct(pre, collection, pkFields);
      UnsyncedMembers(pre, collection, pkFields);
      var u0 := UnsyncedUpdates(pre, collection, pkFields);
      var u := UnsyncedUpdates(fs, collection, pkFields);
      if !Truthy(last.1.syncedOn) {
        forall a | 0 <= a < |u0| ensures u0[a] != UpdateFor(collection, pkFields, last) {
          assert u0[a] in u0;
          var i :| 0 <= i < |pre| && !Truthy(pre[i].1.syncedOn) && u0[a] == UpdateFor(collection, pkFields, pre[i]);
          assert pre[i].0 != last.0;
          assert pre[i].0 in u0[a].patch;
        }
        forall a, b | 0 <= a < b < |u| ensures u[a] != u[b] {
          if b < |u0| {
            assert u[a] == u0[a] && u[b] == u0[b];
          } else {
            assert u[a] == u0[a] && u[b] == UpdateFor(collection, pkFields, last);
          }
        }
      } else {
        assert u == u0;
      }
    }
  }

  lemma {:induction false} UnsyncedPrefix(fs: Fields, collection: string, pkFields: PkFields)
    ensures forall n :: 0 <= n <= |fs| ==>
              UnsyncedUpdates(fs[..n], collection, pkFields) <= UnsyncedUpdates(fs, collection, pkFields)
    decreases |fs|
  {
    if fs != [] {
      var pre := fs[..|fs| - 1];
      UnsyncedPrefix(pre, collection, pkFields);
      forall n | 0 <= n <= |fs|
        ensures UnsyncedUpdates(fs[..n], collection, pkFields) <= UnsyncedUpdates(fs, collection, pkFields)
      {
        if n == |fs| {
          assert fs[..n] == fs;
        } else {
          assert fs[..n] == pre[..n];
        }
      }
    }
  }

  /**
   * A created record not to be deleted emits exactly one create, carrying
   * the key fields and every field's latest value; a field value wins over a
   * key field of the same name (lines 131-136).
   */
  lemma CreateEmission(rec: ObjectModifications, collection: string, pkFields: PkFields)
    requires !rec.shouldBeDeleted && rec.shouldBeCreated && UniqueKeys(rec.fields)
    ensures |Emission(rec, collection, pkFields)| == 1
    ensures var op := Emission(rec, collection, pkFields)[0];
      && op.CreateObject? && op.collection == collection
      && (forall j :: j in op.values <==> j in pkFields || Lookup(rec.fields, j).Some?)
      && (forall j :: j in op.values ==>
            op.values[j] == if Lookup(rec.fields, j).Some? then Lookup(rec.fields, j).value.value else pkFields[j])
  {
    FieldValuesAgree(rec.fields);
  }

  /**
   * A record neither deleted nor created emits only single-field updates,
   * one for each field whose `syncedOn` is falsy, in field order, with no
   * field patched twice (lines 137-144).
   */
  lemma UpdateEmission(rec: ObjectModifications, collection: string, pkFields: PkFields)
    requires !rec.shouldBeDeleted && !rec.shouldBeCreated
    ensures forall op :: op in Emission(rec, collection, pkFields) ==>
              && op.UpdateOneObject? && op.collection == collection && op.where == pkFields
              && |op.patch| == 1
              && exists i :: 0 <= i < |rec.fields| && !Truthy(rec.fields[i].1.syncedOn)
                             && op.patch == map[rec.fields[i].0 := rec.fields[i].1.value]
    ensures forall i :: 0 <= i < |rec.fields| && !Truthy(rec.fields[i].1.syncedOn) ==>
              UpdateFor(collection, pkFields, rec.fields[i]) in Emission(rec, collection, pkFields)
    ensures |Emission(rec, collection, pkFields)| == |UnsyncedAt(rec.fields)|
    ensures UniqueKeys(rec.fields) ==>
              var ops := Emission(rec, collection, pkFields);
              forall a, b :: 0 <= a < b < |ops| ==> ops[a] != ops[b]
    ensures forall n :: 0 <= n <= |rec.fields| ==>
              UnsyncedUpdates(rec.fields[..n], collection, pkFields) <= Emission(rec, collection, pkFields)
  {
    UnsyncedUpdatesEffect(rec.fields, collection, pkFields);
  }
}
