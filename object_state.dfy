/**
 * The Object Reconciler: the record kept for one (collection, pk) and the
 * rule by which each create, delete and modify entry updates it
 * (ts/reconciliation/default.ts, lines 8-15 and 49-120). These functions
 * are the specification of the per-entry methods of Reconciliation.Reconciler.
 */
module ObjectReconciler {
  import opened SyncTypes
  import opened FieldMaps

  /**
   * The per-object record. `stray` holds the properties that line 116
   * writes onto the record itself rather than into `fields`.
   */
  datatype ObjectModifications = ObjectModifications(
    shouldBeCreated: bool,
    createdOn: Option<Timestamp>,
    isDeleted: bool,
    shouldBeDeleted: bool,
    fields: Fields,
    stray: map<FieldName, FieldModification>)

  /** What every record built by the fold satisfies. */
  ghost predicate WellFormed(rec: ObjectModifications) {
    UniqueKeys(rec.fields) && (rec.shouldBeCreated ==> rec.createdOn.Some?)
  }

  /** The field record a create entry stamps onto each of its values. */
  function Stamp(v: Value, e: LogEntry): FieldModification {
    FieldModification(v, e.createdOn, e.sharedOn)
  }

  /** Lines 55-58: the fields of an object first seen through a create. */
  function NewFields(kvs: seq<(FieldName, Value)>, e: LogEntry): Fields
    decreases |kvs|
  {
    if kvs == [] then []
    else
      var last := kvs[|kvs| - 1];
      Put(NewFields(kvs[..|kvs| - 1], e), last.0, Stamp(last.1, e))
  }

  /**
   * Lines 69-76: a create folded into fields that earlier modifies built.
   * A value whose field is absent is inserted; a field already present whose
   * `createdOn` is before the create's is an anomaly (None).
   */
  function MergeCreation(fields: Fields, kvs: seq<(FieldName, Value)>, e: LogEntry): Option<Fields>
    decreases |kvs|
  {
    if kvs == [] then Some(fields)
    else
      match MergeCreation(fields, kvs[..|kvs| - 1], e)
      case None => None
      case Some(fs) =>
        var last := kvs[|kvs| - 1];
        match Lookup(fs, last.0)
        case None => Some(Put(fs, last.0, Stamp(last.1, e)))
        case Some(fm) => if e.createdOn > fm.createdOn then None else Some(fs)
  }

  /** `_processCreationEntry` (lines 49-80). */
  function CreationStep(prior: Option<ObjectModifications>, e: LogEntry): Result<ObjectModifications, Anomaly>
    requires e.CreationEntry?
  {
    if prior.None? then
      Ok(ObjectModifications(true, Some(e.createdOn), false, false, NewFields(e.objectValue, e), map[]))
    else if prior.value.shouldBeCreated then
      Err(DoubleCreate(e.collection, e.pk))
    else
      match MergeCreation(prior.value.fields, e.objectValue, e)
      case None => Err(ModificationBeforeCreation(e.collection, e.pk))
      case Some(fs) => Ok(prior.value.(fields := fs, shouldBeCreated := true, createdOn := Some(e.createdOn)))
  }

  /** `_processDeletionEntry` (lines 82-93). */
  function DeletionStep(prior: Option<ObjectModifications>, e: LogEntry): ObjectModifications
    requires e.DeletionEntry?
  {
    if prior.None? then
      ObjectModifications(false, None, Truthy(e.sharedOn), true, [], map[])
    else
      prior.value.(isDeleted := Truthy(e.sharedOn), shouldBeDeleted := true, fields := [])
  }

  /** The field record a modify entry carries (line 100). */
  function Updates(e: LogEntry): FieldModification
    requires e.ModificationEntry?
  {
    FieldModification(e.value, e.createdOn, e.sharedOn)
  }

  /** `_processModificationEntry` (lines 95-120), with the write of line 116 kept as written. */
  function ModificationStep(prior: Option<ObjectModifications>, e: LogEntry): Result<ObjectModifications, Anomaly>
    requires e.ModificationEntry?
  {
    if prior.None? then
      Ok(ObjectModifications(false, None, Truthy(e.sharedOn), false, [(e.field, Updates(e))], map[]))
    else
      var rec := prior.value;
      if rec.shouldBeCreated && Gt(rec.createdOn, e.createdOn) then
        Err(ModificationBeforeCreation(e.collection, e.pk))
      else
        match Lookup(rec.fields, e.field)
        case None => Ok(rec.(stray := rec.stray[e.field := Updates(e)]))
        case Some(fm) =>
          if e.createdOn > fm.createdOn then Ok(rec.(fields := Put(rec.fields, e.field, Updates(e))))
          else Ok(rec)
  }

  /** The dispatch on the entry's operation (lines 30-36). */
  function Step(prior: Option<ObjectModifications>, e: LogEntry): Result<ObjectModifications, Anomaly> {
    match e
    case ModificationEntry(_, _, _, _, _, _) => ModificationStep(prior, e)
    case DeletionEntry(_, _, _, _) => Ok(DeletionStep(prior, e))
    case CreationEntry(_, _, _, _, _) => CreationStep(prior, e)
  }

  /** All entries addressed to one object, folded strictly in input order. */
  function FoldObject(prior: Option<ObjectModifications>, es: seq<LogEntry>): Result<Option<ObjectModifications>, Anomaly>
    decreases |es|
  {
    if es == [] then Ok(prior)
    else
      match FoldObject(prior, es[..|es| - 1])
      case Err(a) => Err(a)
      case Ok(r) =>
        match Step(r, es[|es| - 1])
        case Err(a) => Err(a)
        case Ok(rec) => Ok(Some(rec))
  }
}
