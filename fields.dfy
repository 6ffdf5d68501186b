/**
 * The per-field state of one object: a JavaScript object keyed by field
 * name, whose keys keep their insertion order. It is modelled as an
 * association list; assigning `obj[k] = v` replaces the entry for `k` where
 * it stands, or appends one when `k` is new.
 */
module FieldMaps {
  import opened SyncTypes

  /** The latest known write to one field. */
  datatype FieldModification = FieldModification(value: Value, createdOn: Timestamp, syncedOn: Option<Timestamp>)

  type Fields = seq<(FieldName, FieldModification)>

  /** No field name occurs twice, as in every JavaScript object. */
  ghost predicate UniqueKeys<T>(fs: seq<(FieldName, T)>) {
    forall i, j :: 0 <= i < j < |fs| ==> fs[i].0 != fs[j].0
  }

  /** Position of the first entry named `k`, or `|fs|` when there is none. */
  function IndexOf<T>(fs: seq<(FieldName, T)>, k: FieldName): (i: nat)
    ensures i <= |fs|
    ensures i < |fs| ==> fs[i].0 == k
    ensures forall j :: 0 <= j < i ==> fs[j].0 != k
  {
    if fs == [] then 0
    else if fs[0].0 == k then 0
    else 1 + IndexOf(fs[1..], k)
  }

  /** The first-occurrence property determines IndexOf. */
  lemma {:induction false} IndexOfUnique<T>(fs: seq<(FieldName, T)>, k: FieldName, i: nat)
    requires i <= |fs|
    requires i < |fs| ==> fs[i].0 == k
    requires forall j :: 0 <= j < i ==> fs[j].0 != k
    ensures IndexOf(fs, k) == i
  {
    if fs != [] && fs[0].0 != k {
      IndexOfUnique(fs[1..], k, i - 1);
    }
  }

  /** `fs[k]`: the entry stored under `k`, if any. */
  function Lookup(fs: Fields, k: FieldName): (r: Option<FieldModification>)
    ensures r.None? <==> forall i :: 0 <= i < |fs| ==> fs[i].0 != k
    ensures r.Some? ==> exists i :: 0 <= i < |fs| && fs[i] == (k, r.value)
  {
    var i := IndexOf(fs, k);
    if i == |fs| then None else Some(fs[i].1)
  }

  /** `fs[k] = m`: replace the entry for `k` in place, or append it. */
  function Put(fs: Fields, k: FieldName, m: FieldModification): (r: Fields)
  {
    var i := IndexOf(fs, k);
    if i == |fs| then fs + [(k, m)] else fs[i := (k, m)]
  }

  /** What `obj[k] = m` does to an object's entries. */
  lemma PutEffect(fs: Fields, k: FieldName, m: FieldModification)
    ensures Lookup(fs, k).None? ==> Put(fs, k, m) == fs + [(k, m)]
    ensures Lookup(fs, k).Some? ==> |Put(fs, k, m)| == |fs|
    ensures UniqueKeys(fs) ==> UniqueKeys(Put(fs, k, m))
    ensures UniqueKeys(fs) ==> forall i :: 0 <= i < |fs| ==>
              Put(fs, k, m)[i] == if fs[i].0 == k then (k, m) else fs[i]
  {
  }

  /** Reading back after `obj[k] = m`: `k` holds `m`, every other key is untouched. */
  lemma PutLookup(fs: Fields, k: FieldName, m: FieldModification, j: FieldName)
    ensures Lookup(Put(fs, k, m), j) == if j == k then Some(m) else Lookup(fs, j)
  {
    var r := Put(fs, k, m);
    var i := IndexOf(fs, k);
    if j == k {
      IndexOfUnique(r, k, i);
    } else {
      var n := IndexOf(fs, j);
      assert n < |fs| ==> r[n] == fs[n];
      IndexOfUnique(r, j, if n == |fs| then |r| else n);
    }
  }

  /** Reading `k` after appending a new entry. */
  lemma {:induction false} LookupAppend(fs: Fields, k: FieldName, m: FieldModification, j: FieldName)
    ensures Lookup(fs + [(k, m)], j) == if Lookup(fs, j).Some? then Lookup(fs, j)
                                        else if j == k then Some(m) else None
  {
    if fs != [] {
      assert (fs + [(k, m)])[1..] == fs[1..] + [(k, m)];
      LookupAppend(fs[1..], k, m, j);
    }
  }

  /** The first position of `j` after appending an entry named `k`. */
  lemma IndexOfAppend<T>(fs: seq<(FieldName, T)>, k: FieldName, x: T, j: FieldName)
    ensures IndexOf(fs + [(k, x)], j) ==
              if IndexOf(fs, j) < |fs| then IndexOf(fs, j) else if j == k then |fs| else |fs| + 1
  {
    var n := IndexOf(fs, j);
    var r := fs + [(k, x)];
    assert forall i :: 0 <= i < |fs| ==> r[i] == fs[i];
    IndexOfUnique(r, j, if n < |fs| then n else if j == k then |fs| else |fs| + 1);
  }
}
