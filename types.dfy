/**
 * Values shared by every stage of the reconciliation: the client sync-log
 * entries that come in, the storage operations that go out, and the two
 * anomalies that abort a batch.
 */
module SyncTypes {

  datatype Option<+T> = None | Some(value: T)

  datatype Result<+R, +E> = Ok(value: R) | Err(error: E)

  /** A logical timestamp (a JavaScript number, taken here as an integer). */
  type Timestamp = int

  type FieldName = string

  /** A field value of any shape; the reconciliation never inspects one. */
  type Value(==)

  /**
   * A primary key: a scalar or an ordered tuple (compound key). Keys are
   * compared structurally, as their JSON text would be.
   */
  datatype Pk = PkString(s: string) | PkNumber(n: int) | PkTuple(items: seq<Pk>)

  /** The named key fields a storage backend addresses an object by. */
  type PkFields = map<FieldName, Value>

  /**
   * JavaScript truthiness of an optional timestamp: `undefined`, `null`
   * and `0` are all falsy.
   */
  predicate Truthy(t: Option<Timestamp>) {
    t.Some? && t.value != 0
  }

  /** JavaScript `a > b` where `a` may be `undefined` (then it is false). */
  predicate Gt(a: Option<Timestamp>, b: Timestamp) {
    a.Some? && a.value > b
  }

  /** One client sync-log entry: a create, a modify or a delete. */
  datatype LogEntry =
    | CreationEntry(collection: string, pk: Pk, createdOn: Timestamp, sharedOn: Option<Timestamp>,
                    objectValue: seq<(FieldName, Value)>)
    | ModificationEntry(collection: string, pk: Pk, createdOn: Timestamp, sharedOn: Option<Timestamp>,
                        field: FieldName, value: Value)
    | DeletionEntry(collection: string, pk: Pk, createdOn: Timestamp, sharedOn: Option<Timestamp>)

  /** The two data-integrity anomalies that abort a whole batch. */
  datatype Anomaly =
    | DoubleCreate(collection: string, pk: Pk)
    | ModificationBeforeCreation(collection: string, pk: Pk)

  /** A storage operation the reconciliation asks the backend to run. */
  datatype Operation =
    | CreateObject(collection: string, values: map<FieldName, Value>)
    | UpdateOneObject(collection: string, where: PkFields, patch: map<FieldName, Value>)
    | DeleteOneObject(collection: string, where: PkFields)
}
