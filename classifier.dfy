/**
 * The Entry Classifier: `modificationsByObject`
 * (ts/reconciliation/default.ts, lines 6-7 and 25-37), one record per
 * (collection, pk), with collections and, within each, pks kept in the
 * order they were first seen. This module holds its value and the
 * specification of folding a whole batch into it, entry by entry.
 */
module EntryClassifier {
  import opened SyncTypes
  import opened ObjectReconciler

  /** One collection's records, keyed by pk, with the pks in first-seen order. */
  datatype CollectionModifications = CollectionModifications(pks: seq<Pk>, objects: map<Pk, ObjectModifications>)

  /** Every collection's records, with the collections in first-seen order. */
  datatype Modifications = Modifications(collections: seq<string>, byCollection: map<string, CollectionModifications>)

  const NoModifications := Modifications([], map[])

  ghost predicate Distinct<T>(s: seq<T>) {
    forall i, j :: 0 <= i < j < |s| ==> s[i] != s[j]
  }

  ghost predicate ValidCollection(g: CollectionModifications) {
    Distinct(g.pks) && forall p :: p in g.objects <==> p in g.pks
  }

  /** The key orders list each key once, and exactly the keys present. */
  ghost predicate ValidModifications(t: Modifications) {
    && Distinct(t.collections)
    && (forall c :: c in t.byCollection <==> c in t.collections)
    && forall c :: c in t.byCollection ==> ValidCollection(t.byCollection[c])
  }

  /** Line 27: make sure the entry's collection has a (possibly empty) entry. */
  function Register(t: Modifications, collection: string): Modifications {
    if collection in t.byCollection then t
    else Modifications(t.collections + [collection],
                       t.byCollection[collection := CollectionModifications([], map[])])
  }

  /** Line 29: the record of an object, if one exists yet. */
  function Get(t: Modifications, collection: string, pk: Pk): Option<ObjectModifications> {
    if collection in t.byCollection && pk in t.byCollection[collection].objects
    then Some(t.byCollection[collection].objects[pk])
    else None
  }

  /** `collectionModifications[pkAsJson] = rec`: a new pk goes last, a known one keeps its place. */
  function Store(t: Modifications, collection: string, pk: Pk, rec: ObjectModifications): Modifications
    requires collection in t.byCollection
  {
    var g := t.byCollection[collection];
    var pks := if pk in g.objects then g.pks else g.pks + [pk];
    t.(byCollection := t.byCollection[collection := CollectionModifications(pks, g.objects[pk := rec])])
  }

  /** One turn of the loop of lines 26-37. */
  function TableStep(t: Modifications, e: LogEntry): Result<Modifications, Anomaly> {
    var t1 := Register(t, e.collection);
    match Step(Get(t1, e.collection, e.pk), e)
    case Err(a) => Err(a)
    case Ok(rec) => Ok(Store(t1, e.collection, e.pk, rec))
  }

  /** The whole loop of lines 25-37: the first anomaly aborts the batch. */
  function FoldTable(es: seq<LogEntry>): Result<Modifications, Anomaly>
    decreases |es|
  {
    if es == [] then Ok(NoModifications)
    else
      match FoldTable(es[..|es| - 1])
      case Err(a) => Err(a)
      case Ok(t) => TableStep(t, es[|es| - 1])
  }

  /** The entries addressed to one object, in input order. */
  function EntriesFor(es: seq<LogEntry>, collection: string, pk: Pk): seq<LogEntry>
    decreases |es|
  {
    if es == [] then []
    else
      var last := es[|es| - 1];
      EntriesFor(es[..|es| - 1], collection, pk)
        + (if last.collection == collection && last.pk == pk then [last] else [])
  }

  /** `s` with every repetition of an earlier element dropped. */
  function FirstSeen<T(==)>(s: seq<T>): seq<T>
    decreases |s|
  {
    if s == [] then []
    else
      var f := FirstSeen(s[..|s| - 1]);
      if s[|s| - 1] in f then f else f + [s[|s| - 1]]
  }

  /** The collection of each entry, in input order. */
  function CollectionsOf(es: seq<LogEntry>): seq<string>
    decreases |es|
  {
    if es == [] then [] else CollectionsOf(es[..|es| - 1]) + [es[|es| - 1].collection]
  }

  /** The pk of each entry addressed to `collection`, in input order. */
  function PksIn(es: seq<LogEntry>, collection: string): seq<Pk>
    decreases |es|
  {
    if es == [] then []
    else
      var last := es[|es| - 1];
      PksIn(es[..|es| - 1], collection) + (if last.collection == collection then [last.pk] else [])
  }

  // ---------------------------------------------------------------------

  /** One entry keeps the key orders duplicate-free and in step with the keys present. */
  lemma TableStepValid(t: Modifications, e: LogEntry)
    requires ValidModifications(t)
    ensures TableStep(t, e).Ok? ==> ValidModifications(TableStep(t, e).value)
  {
    RegisterValid(t, e.collection);
    var t1 := Register(t, e.collection);
    match Step(Get(t1, e.collection, e.pk), e)
    case Err(_) =>
    case Ok(rec) => StoreValid(t1, e.collection, e.pk, rec);
  }

  lemma RegisterValid(t: Modifications, c: string)
    requires ValidModifications(t)
    ensures ValidModifications(Register(t, c)) && c in Register(t, c).byCollection
  {
    if c !in t.byCollection {
      var cs := t.collections + [c];
      assert forall i :: 0 <= i < |t.collections| ==> cs[i] == t.collections[i];
      assert forall x :: x in cs <==> x in t.collections || x == c;
    }
  }

  lemma StoreValid(t: Modifications, c: string, p: Pk, rec: ObjectModifications)
    requires ValidModifications(t) && c in t.byCollection
    ensures ValidModifications(Store(t, c, p, rec))
  {
    var g := t.byCollection[c];
    assert ValidCollection(g);
    if p !in g.objects {
      var pks := g.pks + [p];
      assert forall i :: 0 <= i < |g.pks| ==> pks[i] == g.pks[i];
      assert forall x :: x in pks <==> x in g.pks || x == p;
    }
    assert ValidCollection(Store(t, c, p, rec).byCollection[c]);
  }

  /** A batch folded without an anomaly gives a well-formed table. */
  lemma {:induction false} FoldTableValid(es: seq<LogEntry>)
    ensures FoldTable(es).Ok? ==> ValidModifications(FoldTable(es).value)
    decreases |es|
  {
    if es != [] {
      FoldTableValid(es[..|es| - 1]);
      if FoldTable(es[..|es| - 1]).Ok? {
        TableStepValid(FoldTable(es[..|es| - 1]).value, es[|es| - 1]);
      }
    }
  }

  /** FirstSeen keeps each element once and loses none. */
  lemma {:induction false} FirstSeenSpec<T>(s: seq<T>)
    ensures Distinct(FirstSeen(s))
    ensures forall x :: x in FirstSeen(s) <==> x in s
    decreases |s|
  {
    if s != [] {
      var pre := s[..|s| - 1];
      assert s == pre + [s[|s| - 1]];
      FirstSeenSpec(pre);
    }
  }

  /** Membership in the entries of one object. */
  lemma {:induction false} EntriesForMembers(es: seq<LogEntry>, collection: string, pk: Pk)
    ensures forall x :: x in EntriesFor(es, collection, pk) <==> x in es && x.collection == collection && x.pk == pk
    decreases |es|
  {
    if es != [] {
      var pre := es[..|es| - 1];
      assert es == pre + [es[|es| - 1]];
      EntriesForMembers(pre, collection, pk);
    }
  }

  /** An anomaly in a prefix of the batch is the anomaly of the whole batch. */
  lemma {:induction false} FoldTableErrorSticks(es: seq<LogEntry>, more: seq<LogEntry>, a: Anomaly)
    requires FoldTable(es) == Err(a)
    ensures FoldTable(es + more) == Err(a)
    decreases |more|
  {
    if more == [] {
      assert es + more == es;
    } else {
      var pre := more[..|more| - 1];
      assert (es + more)[..|es + more| - 1] == es + pre;
      FoldTableErrorSticks(es, pre, a);
    }
  }

  lemma EntriesForSnoc(pre: seq<LogEntry>, e: LogEntry, c: string, p: Pk)
    ensures EntriesFor(pre + [e], c, p) ==
              if e.collection == c && e.pk == p then EntriesFor(pre, c, p) + [e] else EntriesFor(pre, c, p)
  {
    assert (pre + [e])[..|pre + [e]| - 1] == pre;
  }

  lemma FoldObjectSnoc(s: seq<LogEntry>, e: LogEntry)
    ensures FoldObject(None, s + [e]) ==
              match FoldObject(None, s)
              case Err(a) => Err(a)
              case Ok(r) => (match Step(r, e) case Err(a) => Err(a) case Ok(rec) => Ok(Some(rec)))
  {
    assert (s + [e])[..|s + [e]| - 1] == s;
  }

  lemma GetAfterStore(t: Modifications, c: string, p: Pk, rec: ObjectModifications, c': string, p': Pk)
    requires c in t.byCollection
    ensures Get(Store(t, c, p, rec), c', p') == if c' == c && p' == p then Some(rec) else Get(t, c', p')
  {
  }

  /**
   * Grouping does not change what happens to an object: after the whole
   * batch, each object's record is what folding just its own entries gives;
   * and when the batch aborts, folding the entries of some one object
   * gives the same anomaly.
   */
  lemma {:induction false} FoldTableByObject(es: seq<LogEntry>)
    ensures FoldTable(es).Ok? ==>
              forall c, p :: FoldObject(None, EntriesFor(es, c, p)) == Ok(Get(FoldTable(es).value, c, p))
    ensures FoldTable(es).Err? ==>
              exists c, p :: FoldObject(None, EntriesFor(es, c, p)) == Err(FoldTable(es).error)
    decreases |es|
  {
    if es != [] {
      var pre, e := es[..|es| - 1], es[|es| - 1];
      assert es == pre + [e];
      FoldTableByObject(pre);
      match FoldTable(pre)
      case Err(a) =>
        var c, p :| FoldObject(None, EntriesFor(pre, c, p)) == Err(a);
        EntriesForSnoc(pre, e, c, p);
        FoldObjectSnoc(EntriesFor(pre, c, p), e);
        assert FoldObject(None, EntriesFor(es, c, p)) == Err(a);
      case Ok(t) =>
        var t1 := Register(t, e.collection);
        var prior := Get(t1, e.collection, e.pk);
        assert prior == Get(t, e.collection, e.pk);
        EntriesForSnoc(pre, e, e.collection, e.pk);
        FoldObjectSnoc(EntriesFor(pre, e.collection, e.pk), e);
        match Step(prior, e)
        case Err(a) =>
          assert FoldObject(None, EntriesFor(es, e.collection, e.pk)) == Err(a);
        case Ok(rec) =>
          var t' := Store(t1, e.collection, e.pk, rec);
          assert FoldTable(es) == Ok(t');
          forall c, p ensures FoldObject(None, EntriesFor(es, c, p)) == Ok(Get(t', c, p)) {
            GetAfterStore(t1, e.collection, e.pk, rec, c, p);
            EntriesForSnoc(pre, e, c, p);
            if c != e.collection || p != e.pk {
              assert Get(t1, c, p) == Get(t, c, p);
            }
          }
    }
  }

  /**
   * Collections come out in the order their first entry came in, and the
   * pks of each collection likewise.
   */
  lemma {:induction false} FoldTableOrder(es: seq<LogEntry>)
    requires FoldTable(es).Ok?
    ensures FoldTable(es).value.collections == FirstSeen(CollectionsOf(es))
    ensures forall c :: c in FoldTable(es).value.byCollection ==>
              FoldTable(es).value.byCollection[c].pks == FirstSeen(PksIn(es, c))
    decreases |es|
  {
    if es != [] {
      var pre, e := es[..|es| - 1], es[|es| - 1];
      FoldTableOrder(pre);
      FoldTableValid(pre);
      var t := FoldTable(pre).value;
      forall c | c !in t.byCollection ensures PksIn(pre, c) == [] {
        PksInEmpty(pre, c);
      }
      var rec := Step(Get(Register(t, e.collection), e.collection, e.pk), e).value;
      OrderStep(es, t, rec);
    }
  }

  /** The key orders after one more entry, from those before it. */
  lemma OrderStep(es: seq<LogEntry>, t: Modifications, rec: ObjectModifications)
    requires es != [] && ValidModifications(t)
    requires t.collections == FirstSeen(CollectionsOf(es[..|es| - 1]))
    requires forall c :: c in t.byCollection ==> t.byCollection[c].pks == FirstSeen(PksIn(es[..|es| - 1], c))
    requires forall c :: c !in t.byCollection ==> PksIn(es[..|es| - 1], c) == []
    ensures var e := es[|es| - 1];
      var t' := Store(Register(t, e.collection), e.collection, e.pk, rec);
      && t'.collections == FirstSeen(CollectionsOf(es))
      && forall c :: c in t'.byCollection ==> t'.byCollection[c].pks == FirstSeen(PksIn(es, c))
  {
    var pre, e := es[..|es| - 1], es[|es| - 1];
    var t' := Store(Register(t, e.collection), e.collection, e.pk, rec);
    StoreShape(t, e.collection, e.pk, rec);
    assert CollectionsOf(es) == CollectionsOf(pre) + [e.collection];
    FirstSeenSpec(CollectionsOf(pre));
    assert FirstSeen(CollectionsOf(es)) ==
      if e.collection in FirstSeen(CollectionsOf(pre)) then FirstSeen(CollectionsOf(pre))
      else FirstSeen(CollectionsOf(pre)) + [e.collection];
    forall c | c in t'.byCollection
      ensures t'.byCollection[c].pks == FirstSeen(PksIn(es, c))
    {
      CollectionOrderStep(es, t, rec, c);
    }
  }

  /** The pk order of one collection after one more entry. */
  lemma CollectionOrderStep(es: seq<LogEntry>, t: Modifications, rec: ObjectModifications, c: string)
    requires es != [] && ValidModifications(t)
    requires c in t.byCollection ==> t.byCollection[c].pks == FirstSeen(PksIn(es[..|es| - 1], c))
    requires c !in t.byCollection ==> PksIn(es[..|es| - 1], c) == []
    requires c in t.byCollection || c == es[|es| - 1].collection
    ensures var e := es[|es| - 1];
      var t' := Store(Register(t, e.collection), e.collection, e.pk, rec);
      t'.byCollection[c].pks == FirstSeen(PksIn(es, c))
  {
    var pre, e := es[..|es| - 1], es[|es| - 1];
    var t' := Store(Register(t, e.collection), e.collection, e.pk, rec);
    StoreShape(t, e.collection, e.pk, rec);
    if c == e.collection {
      if c in t.byCollection {
        assert ValidCollection(t.byCollection[c]);
        PksInLast(es, c, t'.byCollection[c].pks, t.byCollection[c].objects);
      } else {
        assert FirstSeen(PksIn(pre, c)) == [];
        PksInLast(es, c, t'.byCollection[c].pks, map[]);
      }
    } else {
      assert PksIn(es, c) == PksIn(pre, c) + [];
      assert PksIn(es, c) == PksIn(pre, c);
      assert t'.byCollection[c].pks == t.byCollection[c].pks;
    }
  }

  /** The pk order of the entry's own collection after the entry. */
  lemma PksInLast(es: seq<LogEntry>, c: string, pks: seq<Pk>, objects: map<Pk, ObjectModifications>)
    requires es != [] && es[|es| - 1].collection == c
    requires var pre, p := es[..|es| - 1], es[|es| - 1].pk;
      ValidCollection(CollectionModifications(FirstSeen(PksIn(pre, c)), objects)) &&
      pks == if p in objects then FirstSeen(PksIn(pre, c)) else FirstSeen(PksIn(pre, c)) + [p]
    ensures pks == FirstSeen(PksIn(es, c))
  {
    var pre, p := es[..|es| - 1], es[|es| - 1].pk;
    assert PksIn(es, c) == PksIn(pre, c) + [p];
    FirstSeenSnoc(PksIn(pre, c), p);
  }

  lemma FirstSeenSnoc<T>(s: seq<T>, x: T)
    ensures FirstSeen(s + [x]) == if x in FirstSeen(s) then FirstSeen(s) else FirstSeen(s) + [x]
  {
    assert (s + [x])[..|s|] == s;
  }

  /** How storing a record changes the key orders: a new collection or pk goes last. */
  lemma StoreShape(t: Modifications, c: string, p: Pk, rec: ObjectModifications)
    ensures var t' := Store(Register(t, c), c, p, rec);
      && t'.collections == (if c in t.byCollection then t.collections else t.collections + [c])
      && (forall c' :: c' in t'.byCollection <==> c' in t.byCollection || c' == c)
      && (forall c' :: c' in t.byCollection && c' != c ==> t'.byCollection[c'].pks == t.byCollection[c'].pks)
      && t'.byCollection[c].pks ==
           if c !in t.byCollection then [p]
           else if p in t.byCollection[c].objects then t.byCollection[c].pks
           else t.byCollection[c].pks + [p]
  {
  }

  /** A collection that no entry named yet has no pks. */
  lemma {:induction false} PksInEmpty(es: seq<LogEntry>, c: string)
    requires FoldTable(es).Ok? && c !in FoldTable(es).value.byCollection
    ensures PksIn(es, c) == []
    decreases |es|
  {
    if es != [] {
      var pre := es[..|es| - 1];
      PksInEmpty(pre, c);
    }
  }
}
