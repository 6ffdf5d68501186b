# Sync-log reconciliation, modelled in Dafny

A client keeps a log of the creates, modifies and deletes it made to
objects of named collections. `reconcileSyncLog` (ts/reconciliation/default.ts)
folds a batch of such entries, in input order, into one record per object.
An object is a (collection, pk) pair. It then turns each record into the
storage operations still needed to bring the backend up to date.

- A record says whether the object should be created and when.
- It says whether the object should be deleted, and whether the delete is already known upstream (`isDeleted`).
- It holds, for each field already in the record, the newest write seen for it, with that write's `createdOn` and `syncedOn`. Line 116 stores writes to other fields on the record itself (see Findings), and a delete clears the fields.
- Emission has a fixed precedence. First, a record to be deleted emits at most one delete: one only when the object is not known deleted and not created in this batch.
- Otherwise, a created record emits one create that carries all its fields.
- Otherwise, each field whose `syncedOn` is falsy emits one single-field update.
- Two anomalies abort the whole batch: a double create, and a modification dated before the object's creation.

The model:

- `SyncTypes` holds the log entries, the operations and the anomalies. Field values are an opaque type.
- `FieldMaps` holds the insertion-ordered field map of a JavaScript object, as an association list.
- `ObjectReconciler` holds the per-object record and the step each kind of entry applies to it, as pure functions. `ObjectReconcilerLemmas` holds what those steps and their fold guarantee.
- `OperationEmitter` holds `_processModifications`, a method with two loops proved equal to the function `Emission`, and the properties of `Emission`.
- `EntryClassifier` holds the two-level table `modificationsByObject` as a value. It also holds the fold of a whole batch into that table and its relation to the per-object folds.
- `Reconciliation` specifies the whole operation as the function `Reconcile`. Its class `Reconciler` holds the table as fields that its methods update in place, one method per `_process…Entry`. `ReconcileSyncLog` is the imperative top level, proved to return `Reconcile` of its input.
- `ReconciliationProperties` reduces a batch to its objects and states what one object's entries come to.
- `ReconciliationScenarios` reconciles each batch of ts/sync-log/reconciliation.test.ts.
- `StrayWriteFinding` holds the finding below.

These follow the code as written in JavaScript:

- A thrown error is a `Result`: `Err(DoubleCreate(..))` or `Err(ModificationBeforeCreation(..))`. The first anomaly in input order is the one returned.
- `!!sharedOn` and `!syncedOn` use JavaScript truthiness. A shared time of `0` counts as absent (`Truthy`).
- `objectModifications.createdOn > logEntry.createdOn`, where `createdOn` may be undefined, is false then (`Gt`).
- A delete replaces the deletion flags and clears the fields whatever its timestamp. It keeps the creation flag, the creation time and any stray properties.
- A first modify sets `isDeleted` from its `sharedOn`.
- The write of line 116 goes to the record, not to its `fields`. The model keeps such writes in a separate `stray` map that emission never reads.
- `setObjectPk` with the storage registry becomes the parameter `keyFields(collection, pk)`, an arbitrary function.

## Model

| member | source | states |
|---|---|---|
| FieldMaps.Lookup | ts/reconciliation/default.ts:114 | reading `fields[k]` gives nothing exactly when no entry is named `k`, and otherwise a record stored under `k` |
| FieldMaps.PutEffect | ts/reconciliation/default.ts:72 | assigning `fields[k]` appends when `k` is new, keeps the length when it is present, keeps names unique and replaces only the entry named `k` |
| FieldMaps.PutLookup | ts/reconciliation/default.ts:118 | after assigning `fields[k] = m`, reading `k` gives `m` and every other name reads as before |
| ObjectReconcilerLemmas.NewFieldsEffect | ts/reconciliation/default.ts:55-58 | the fields of a fresh create are its values in order, each stamped with the create's `createdOn` and `sharedOn` |
| ObjectReconcilerLemmas.NewFieldsUnique | ts/reconciliation/default.ts:55-58 | the fields a create builds never name a field twice |
| ObjectReconcilerLemmas.MergeCreationEffect | ts/reconciliation/default.ts:69-76 | merging a create into fields fails exactly when some value's field was written before the create; otherwise present fields keep their writes and absent ones get the create's value |
| ObjectReconcilerLemmas.CreateFresh | ts/reconciliation/default.ts:54-63 | a first create makes a record to be created at its time, not deleted, with its values as fields |
| ObjectReconcilerLemmas.CreateAfterModifies | ts/reconciliation/default.ts:68-79 | a create after modifies fails with modification-before-creation exactly on a conflicting field; otherwise it marks the record created at its time, keeps the deletion flags and stray writes, and merges the fields |
| ObjectReconcilerLemmas.ModifyBeforeCreation | ts/reconciliation/default.ts:110-112 | a modify fails exactly when the record is to be created at a later time than the modify, and the error names the object |
| ObjectReconcilerLemmas.LastWriterWinsStep | ts/reconciliation/default.ts:117-119 | a modify of a held field replaces its write only when strictly newer (a tie keeps the first); no other field or flag changes |
| ObjectReconcilerLemmas.StrayWrite | ts/reconciliation/default.ts:114-116 | a modify of a field the record does not hold leaves `fields` unchanged and goes to the stray writes, so the record emits exactly the operations it emitted before |
| ObjectReconcilerLemmas.StepWellFormed | ts/reconciliation/default.ts:30-36 | every step keeps field names unique and a created record's creation time set |
| ObjectReconcilerLemmas.FoldObjectAppend | ts/reconciliation/default.ts:26-37 | folding two runs of entries is folding the first and continuing from its result; an anomaly stops the fold |
| ObjectReconcilerLemmas.FoldObjectErrorSticks | ts/reconciliation/default.ts:26-37 | once an object's entries hit an anomaly, later entries do not change it |
| ObjectReconcilerLemmas.FoldFlags | ts/reconciliation/default.ts:49-93 | after an object's entries there is a record iff there was an entry; it is to be created iff some entry was a create, and to be deleted iff some entry was a delete |
| ObjectReconcilerLemmas.DoubleCreateFails | ts/reconciliation/default.ts:65-67 | two creates among an object's entries always abort its fold; when nothing before the second create aborted, the anomaly is `DoubleCreate` naming that create's collection and pk |
| ObjectReconcilerLemmas.FoldWithoutCreation | ts/reconciliation/default.ts:82-120 | without a create an object's fold never fails; once deleted, its fields stay empty, and `isDeleted` is what the last delete says |
| ObjectReconcilerLemmas.LastWriterWins | ts/reconciliation/default.ts:95-120 | for modifies of one field alone, the record holds only the write with the greatest `createdOn` (the first such on ties), and `isDeleted` comes from the first modify |
| OperationEmitter.ProcessModifications | ts/reconciliation/default.ts:122-146 | the two loops compute exactly `Emission` of the record |
| OperationEmitter.FieldValuesAgree | ts/reconciliation/default.ts:132-135 | the created object's values name exactly the record's fields, each with its latest value |
| OperationEmitter.UnsyncedUpdatesEffect | ts/reconciliation/default.ts:137-145 | there is one update for every field whose `syncedOn` is falsy and no other; their number is the number of such fields; with unique field names no two are equal; the updates of a prefix of the fields come first |
| OperationEmitter.CreateEmission | ts/reconciliation/default.ts:131-136 | a created record not to be deleted emits exactly one create, carrying the key fields and every field, field values winning over key fields |
| OperationEmitter.UpdateEmission | ts/reconciliation/default.ts:137-145 | any other record emits only single-field updates addressed by the key fields, one per unsynced field and as many as there are unsynced fields, in field order and, with unique field names, none twice |
| EntryClassifier.TableStepValid | ts/reconciliation/default.ts:27-36 | one entry keeps the table's collection and pk orders duplicate-free and in step with its keys |
| EntryClassifier.FoldTableValid | ts/reconciliation/default.ts:25-37 | a folded batch that succeeds yields a well-formed table |
| EntryClassifier.FirstSeenSpec | ts/reconciliation/default.ts:40-41 | first-seen order lists every key once and loses none |
| EntryClassifier.FoldTableErrorSticks | ts/reconciliation/default.ts:26-37 | the first anomaly in input order is the batch's anomaly |
| EntryClassifier.FoldTableByObject | ts/reconciliation/default.ts:26-37 | each object's record is what folding its own entries alone gives; an aborted batch has an object whose entries give the same anomaly |
| EntryClassifier.FoldTableOrder | ts/reconciliation/default.ts:27-29 | collections, and each collection's pks, are kept in the order of their first entry |
| Reconciliation.Reconciler.constructor | ts/reconciliation/default.ts:25 | the table starts empty |
| Reconciliation.Reconciler.ObjectModificationsOf | ts/reconciliation/default.ts:29 | it reads the object's record from the table, if there is one |
| Reconciliation.Reconciler.RegisterCollection | ts/reconciliation/default.ts:27 | a collection not seen before is added last with no records; a known one is left alone |
| Reconciliation.Reconciler.SetObjectModifications | ts/reconciliation/default.ts:59-62 | storing a record puts a new pk last and leaves a known pk in its place |
| Reconciliation.Reconciler.ProcessCreationEntry | ts/reconciliation/default.ts:49-80 | it returns the anomaly exactly when the creation step fails, leaving the table unchanged then, and otherwise stores the stepped record |
| Reconciliation.Reconciler.ProcessDeletionEntry | ts/reconciliation/default.ts:82-93 | it stores the deletion step's record |
| Reconciliation.Reconciler.ProcessModificationEntry | ts/reconciliation/default.ts:95-120 | it returns the anomaly exactly when the modification step fails, leaving the table unchanged then, and otherwise stores the stepped record; a stale write stores nothing |
| Reconciliation.Reconciler.ProcessLogEntry | ts/reconciliation/default.ts:27-36 | one turn of the entry loop is one table step |
| Reconciliation.NewFieldsOf | ts/reconciliation/default.ts:54-58 | its loop builds exactly the fields of a fresh create |
| Reconciliation.MergeCreationInto | ts/reconciliation/default.ts:69-76 | its loop either merges all values or reports the conflict, exactly as the merge function says |
| Reconciliation.MergeCreationAborts | ts/reconciliation/default.ts:73-75 | a conflict at any value aborts the merge of the whole create |
| Reconciliation.EmitCollectionOperations | ts/reconciliation/default.ts:41-44 | its loop emits each of the collection's records in pk order |
| Reconciliation.EmitOperations | ts/reconciliation/default.ts:39-46 | its loops emit every collection's records in collection order |
| Reconciliation.ReconcileSyncLog | ts/reconciliation/default.ts:24-47 | the imperative fold and emission return exactly `Reconcile` of the batch, stopping at the first anomaly |
| ReconciliationProperties.ReconcileIsStaged | ts/reconciliation/default.ts:24-47 | a batch succeeds iff every object's entries do; it then emits, in first-seen collection and pk order, what each object's own entries come to; an abort is some object's anomaly |
| ReconciliationProperties.SingleObjectBatch | ts/reconciliation/default.ts:24-47 | a batch addressed to one object reconciles to what that object's entries come to |
| ReconciliationProperties.DoubleCreateAborts | ts/reconciliation/default.ts:65-67 | two creates of one object anywhere in a batch abort it; when no entry before the second create aborted, the batch fails with `DoubleCreate` of that object |
| ReconciliationProperties.DoubleCreateFirst | ts/reconciliation/default.ts:25-37 | when the entries before the second create fold, the batch's table fold fails at it with that double create, whatever follows |
| ReconciliationProperties.CreatedOnSticks | ts/reconciliation/default.ts:78 | after a create, the object stays to be created with that create's time |
| ReconciliationProperties.ModifyAfterCreateAborts | ts/reconciliation/default.ts:110-112 | a modify folded after its object's create but dated before it aborts the object's entries; when nothing before it aborted, with `ModificationBeforeCreation` of that object |
| ReconciliationProperties.ModifyAfterCreateAbortsBatch | ts/reconciliation/default.ts:110-112 | such a modify aborts the whole batch; when no entry before it aborted, with `ModificationBeforeCreation` of that object |
| ReconciliationProperties.ModifyBeforeCreationFirst | ts/reconciliation/default.ts:25-37 | when the entries before such a modify fold, the batch's table fold fails at it with that modification before creation, whatever follows |
| ReconciliationProperties.DeleteWithoutCreate | ts/reconciliation/default.ts:127-130 | without a create, a deleted object emits one delete iff its last delete was not shared, whatever modifies or timestamps |
| ReconciliationProperties.CreateAndDeleteCancel | ts/reconciliation/default.ts:127-130 | an object created and deleted in one batch emits nothing, unless its entries abort |
| ReconciliationProperties.CreateWithoutDelete | ts/reconciliation/default.ts:131-136 | a created object that is not deleted emits exactly one create carrying the key fields and its fields' latest values |
| ReconciliationProperties.ModifiesOnly | ts/reconciliation/default.ts:137-145 | modifies of one field emit one update with the newest write, or nothing when that write is already synced |
| ReconciliationScenarios.NewestOfTwoWrites | ts/sync-log/reconciliation.test.ts:13-22 | the newer of two writes, folded first, is emitted |
| ReconciliationScenarios.NewestOfTwoWritesSwapped | ts/reconciliation/default.ts:117-118 | the same two writes in the other order: the newer, folded last, is emitted |
| ReconciliationScenarios.NewestOfThreeWrites | ts/sync-log/reconciliation.test.ts:24-34 | the newest of three writes is emitted |
| ReconciliationScenarios.DeleteWinsOverWrite | ts/sync-log/reconciliation.test.ts:36-45 | a delete wins over a newer write |
| ReconciliationScenarios.AlreadyDeleted | ts/sync-log/reconciliation.test.ts:47-55 | an object deleted upstream needs nothing |
| ReconciliationScenarios.OneDelete | ts/sync-log/reconciliation.test.ts:57-65 | one delete emits one delete |
| ReconciliationScenarios.DoubleDelete | ts/sync-log/reconciliation.test.ts:67-76 | two deletes emit one delete |
| ReconciliationScenarios.CompoundKeyDelete | ts/sync-log/reconciliation.test.ts:78-86 | a compound pk is handled like any other |
| ReconciliationScenarios.SyncedWrite | ts/sync-log/reconciliation.test.ts:88-95 | an already synced newest write emits nothing |
| ReconciliationScenarios.CreateObjects | ts/sync-log/reconciliation.test.ts:97-105 | a create emits the object with all its values |
| ReconciliationScenarios.ConsolidatedRecord | ts/sync-log/reconciliation.test.ts:107-116 | a newer write folded before a create keeps its value; the create adds the other values |
| ReconciliationScenarios.CreateConsolidatesWrites | ts/sync-log/reconciliation.test.ts:107-116 | the create is emitted with the newer write's title and the create's other values |
| ReconciliationScenarios.CreateThenDelete | ts/sync-log/reconciliation.test.ts:118-126 | create and delete in one batch emit nothing |
| ReconciliationScenarios.DoubleCreate | ts/sync-log/reconciliation.test.ts:128-135 | a second create aborts with a double-create anomaly naming the object |
| StrayWriteFinding.LostRecord | ts/reconciliation/default.ts:114-116 | as written, a later modify of a field the create lacked never reaches the record's fields |
| StrayWriteFinding.LaterFieldIsLost | ts/reconciliation/default.ts:114-116 | as written, that batch reconciles to a create without the later field |
| StrayWriteFinding.FixedAgreesWhenPresent | ts/reconciliation/default.ts:114-119 | the corrected step differs from the code only when the field is absent |
| StrayWriteFinding.FixedModifyStep | ts/reconciliation/default.ts:114-119 | a corrected modify leaves its field held at its time or later and loses no other field's write |
| StrayWriteFinding.FixedCreateStep | ts/reconciliation/default.ts:69-76 | a create merge loses no field the record held |
| StrayWriteFinding.FixedKeepsWrites | ts/reconciliation/default.ts:95-120 | with the correction, up to a delete, every modified field is held with that write or a newer one |
| StrayWriteFinding.LaterFieldKeptWhenFixed | ts/reconciliation/default.ts:114-116 | with the correction, the batch of `LaterFieldIsLost` keeps the later field |
| StrayWriteFinding.SecondFieldLost | ts/reconciliation/default.ts:114-116 | as written, modifies of `title` then `prio` on a fresh object reconcile to one update carrying `title` alone |
| StrayWriteFinding.SecondFieldKeptWhenFixed | ts/reconciliation/default.ts:137-144 | with the correction, that batch emits one single-field update per modified field, `title` then `prio` |
| StrayWriteFinding.FixedLastWriterWins | ts/reconciliation/default.ts:100-119 | with the correction, any batch of modifies leaves the object holding exactly the modified fields, each with its write of greatest `createdOn`, the first-seen on ties; not created, not to be deleted, `isDeleted` from the first modify |

## Left out

- ts/shared-sync-log/storex.ts is not part of this model. It is the storage side.
- `setObjectPk` and the storage registry are a schema lookup outside the core. They are the parameter `keyFields`, about which nothing is assumed.
- Pks are compared structurally, as stand-ins for their `JSON.stringify` text. Pks that are objects, and two different values with the same JSON text (`-0` and `0`, say), are not modelled.
- The order of `Object.entries` is taken as insertion order throughout. JavaScript lists integer-like keys (a pk of `3`, a field named `"1"`) first, in ascending order. The model does not reorder them.
- The model does not treat names that a JavaScript object inherits (`constructor`, `__proto__`, `toString`) specially. In the code, `fields[key]` finds them even when absent.
- The model keeps every line-116 write in `stray`, apart from the record's own properties. In the code, a modified field named `fields`, `shouldBeCreated`, `isDeleted`, `shouldBeDeleted` or `createdOn` overwrites that property.
- The values of `CreateObject` and the patch of `UpdateOneObject` are Dafny maps. The key order of the object `{...pkFields, ...object}` built at lines 131-136 is lost; which keys it holds and their values are kept.
- Timestamps are integers. Fractional timestamps, NaN and undefined `createdOn` on an entry are not modelled.
- An entry whose `operation` is none of the three is not modelled. The code skips it after registering its collection, which emits nothing.
- The anomalies carry their kind, collection and pk. The message text is not modelled.
- Records are values stored in the table. The code mutates them in place (`Object.assign`, line 118, and the merge loop). No other reference to a record or a field record exists, so nothing observable differs. For the same reason, the fields a create merge has already added before it throws are not modelled: the batch is aborted. `ProcessCreationEntry` leaves the table unchanged on an anomaly, where the code has already merged the earlier values into the record.
- The test file's entries name the shared timestamp `syncedOn`, which default.ts does not read: it reads `sharedOn`. The test also expects `createObject` arguments in an array, where default.ts passes one object. The scenarios take the test's `syncedOn` as the entry's `sharedOn` and follow default.ts for the operations.
- ReconciliationProperties.ReconcileIsStaged: on an abort it says only that the anomaly is some object's. `Reconcile` itself takes the first in input order, through `FoldTable` (see `EntryClassifier.FoldTableErrorSticks`).
- ReconciliationProperties.CreateAndDeleteCancel: it allows for the entries aborting rather than ruling that out.

## Findings

| source | as written | input that shows it | evidently intended | confidence | as-written member | corrected member |
|---|---|---|---|---|---|---|
| ts/reconciliation/default.ts:114-116 | a modify of a field the record does not hold yet is assigned to `objectModifications[field]`, on the record itself, so no operation ever carries it | a create of `lists`/`list-one` with `{title}` at time 1, then a modify of `prio` at time 2: the result is a create without `prio` | assign it to `objectModifications.fields[field]`, as every other write is | high, not executed | StrayWriteFinding.LaterFieldIsLost | StrayWriteFinding.FixedKeepsWrites |
| ts/reconciliation/default.ts:114-116 | the same assignment also drops every field after the first in a batch with no create | a modify of `title` at time 1, then a modify of `prio` at time 2, on a fresh object: the result is one update carrying only `title` | one single-field update per modified field, each with its newest write | high, not executed | StrayWriteFinding.SecondFieldLost | StrayWriteFinding.FixedLastWriterWins |

The corrected step is `StrayWriteFinding.ModificationStepFixed`, folded by `FoldObjectFixed`. `LaterFieldKeptWhenFixed` and `SecondFieldKeptWhenFixed` fold the two example batches with it. `StrayWriteFinding.FixedAgreesWhenPresent` shows that it differs from the code only at line 116, when the field is absent. The rest of the model (`ObjectReconciler.ModificationStep`, `Reconcile`, `ReconcileSyncLog`) keeps the code's behaviour at line 116, because it models what the code does.
