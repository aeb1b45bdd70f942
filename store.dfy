/**
 * The document store the sync engine and the HTTP server write to: one
 * MongoDB collection, as far as the code in this repository relies on it.
 * A collection maps each `_id` to the stored document, which carries that
 * `_id` as a field. Filters are flat (field equal to value) and updates
 * apply their `$set` and `$unset` operators field by field.
 */
module Store {
  import opened Wrappers
  import opened Documents

  /** Errors the driver or the server raises for one call. */
  datatype StoreError =
    | InvalidArgument  // the filter, replacement or update is missing, or the update has no operators
    | ImmutableId      // the write would change a document's `_id`
    | DuplicateKey     // an insert names an `_id` the collection already holds

  /** One update operator and its argument object, such as `$set: { ... }`. */
  datatype UpdateOp = UpdateOp(op: string, fields: Doc)

  /** An update document: its operators in property order. */
  type Update = seq<UpdateOp>

  /** What `updateOne` reports. */
  datatype UpdateResult = UpdateResult(matchedCount: nat, modifiedCount: nat)

  /** A document's `_id`. */
  function IdOf(d: Doc): Value {
    Get(d, "_id")
  }

  /** Every stored document carries its key as its `_id`. */
  predicate Keyed(docs: map<Value, Doc>) {
    forall k | k in docs :: IdOf(docs[k]) == k
  }

  /** The `_id` put first, ahead of a document that has none. */
  lemma GetWithId(id: Value, d: Doc, n: string)
    ensures Get([Field("_id", id)] + d, n) == if n == "_id" then id else Get(d, n)
  {
    assert ([Field("_id", id)] + d)[1..] == d;
  }

  /**
   * `replaceOne({ _id: id }, replacement, { upsert: true })`: the document
   * at `id` becomes the replacement, inserted if it was missing. A
   * replacement without `_id` takes `id`; one with another `_id` is refused.
   */
  function ReplaceOneUpsert(docs: map<Value, Doc>, id: Value, replacement: Option<Doc>)
    : (r: Result<map<Value, Doc>, StoreError>)
    ensures r.Err? <==> replacement.None? || IdOf(replacement.value) !in {id, Undefined}
    ensures replacement.Some? && IdOf(replacement.value) == id ==> r == Ok(docs[id := replacement.value])
    ensures r.Ok? ==> id in r.value && IdOf(r.value[id]) == id
    ensures r.Ok? ==> forall n | n != "_id" :: Get(r.value[id], n) == Get(replacement.value, n)
    ensures r.Ok? ==> r.value.Keys == docs.Keys + {id}
    ensures r.Ok? ==> forall k | k in docs && k != id :: r.value[k] == docs[k]
    ensures r.Ok? && Keyed(docs) ==> Keyed(r.value)
  {
    if replacement.None? then Err(InvalidArgument)
    else
      var d := replacement.value;
      if IdOf(d) == id then Ok(docs[id := d])
      else if IdOf(d) == Undefined then
        var stored := [Field("_id", id)] + d;
        assert IdOf(stored) == id by { GetWithId(id, d, "_id"); }
        assert forall n | n != "_id" :: Get(stored, n) == Get(d, n) by {
          forall n | n != "_id" ensures Get(stored, n) == Get(d, n) { GetWithId(id, d, n); }
        }
        Ok(docs[id := stored])
      else Err(ImmutableId)
  }

  /**
   * `insertOne(document)`: a document whose `_id` is missing or `null` is
   * given the `_id` the driver generates; any other `_id` is kept, and one
   * the collection already holds is refused. The stored document has its
   * `_id` first, then the document's other fields in order. The result is
   * the new collection and the inserted `_id`.
   */
  function Insert(docs: map<Value, Doc>, document: Option<Doc>, generated: ObjectId)
    : (r: Result<(map<Value, Doc>, Value), StoreError>)
    ensures document.None? ==> r == Err(InvalidArgument)
    ensures r.Ok? ==> r.value.1 !in docs && r.value.0.Keys == docs.Keys + {r.value.1}
    ensures r.Ok? ==> forall k | k in docs :: r.value.0[k] == docs[k]
    ensures r.Ok? ==> var s := r.value.0[r.value.1];
            |s| > 0 && s[0] == Field("_id", r.value.1) && s[1..] == RemoveField(document.value, "_id")
    ensures r.Ok? ==> forall n | n != "_id" :: Get(r.value.0[r.value.1], n) == Get(document.value, n)
    ensures r.Ok? && Keyed(docs) ==> Keyed(r.value.0)
    ensures document.Some? && IdOf(document.value) !in {Undefined, Null} ==>
      (r.Ok? <==> IdOf(document.value) !in docs) && (r.Ok? ==> r.value.1 == IdOf(document.value))
    ensures document.Some? && IdOf(document.value) in {Undefined, Null} ==>
      (r.Ok? <==> Oid(generated) !in docs) && (r.Ok? ==> r.value.1 == Oid(generated))
    ensures r.Err? ==> r.error == if document.None? then InvalidArgument else DuplicateKey
  {
    if document.None? then Err(InvalidArgument)
    else
      var d := document.value;
      var id := if IdOf(d) !in {Undefined, Null} then IdOf(d) else Oid(generated);
      if id in docs then Err(DuplicateKey)
      else
        var stored := [Field("_id", id)] + RemoveField(d, "_id");
        assert stored[1..] == RemoveField(d, "_id");
        assert IdOf(stored) == id by { GetWithId(id, RemoveField(d, "_id"), "_id"); }
        assert forall n | n != "_id" :: Get(stored, n) == Get(d, n) by {
          forall n | n != "_id" ensures Get(stored, n) == Get(d, n) { GetWithId(id, RemoveField(d, "_id"), n); }
        }
        Ok((docs[id := stored], id))
  }

  /** A `$set` object that names `_id` with a value other than the document's own. */
  predicate ChangesId(d: Doc, fs: Doc) {
    exists i | 0 <= i < |fs| :: fs[i].name == "_id" && fs[i].value != IdOf(d)
  }

  /** An operator MongoDB refuses because it would change `_id`: such a `$set`, or an `$unset` of `_id`. */
  predicate TouchesId(d: Doc, o: UpdateOp) {
    || (o.op == "$set" && ChangesId(d, o.fields))
    || (o.op == "$unset" && Has(o.fields, "_id"))
  }

  /** The property names of an operator's argument, in order. */
  function Names(fs: Doc): (r: seq<string>)
    ensures |r| == |fs|
    ensures forall n :: n in r <==> Has(fs, n)
  {
    var r := seq(|fs|, i requires 0 <= i < |fs| => fs[i].name);
    assert forall n | Has(fs, n) :: n in r by {
      forall n | Has(fs, n) ensures n in r {
        var i :| 0 <= i < |fs| && fs[i].name == n;
        assert r[i] == n;
      }
    }
    r
  }

  /** A `$set` that keeps `_id` leaves the document's `_id` as it was. */
  lemma SetFieldsKeepsId(d: Doc, fs: Doc)
    requires !ChangesId(d, fs)
    ensures IdOf(SetFields(d, fs)) == IdOf(d)
  {
    GetSetFields(d, fs, "_id", IdOf(d));
  }

  /**
   * The driver's check of an update document: it has a first property, and
   * that property's name starts with `$`.
   */
  predicate HasAtomicOperators(u: Update) {
    |u| > 0 && |u[0].op| > 0 && u[0].op[0] == '$'
  }

  /**
   * The operators of an update applied to one document in property order:
   * `$set` writes its fields, `$unset` removes the fields it names. An
   * operator that would change `_id` makes the whole update fail.
   */
  function ApplyOperators(d: Doc, u: Update): (r: Result<Doc, StoreError>)
    ensures r.Ok? ==> IdOf(r.value) == IdOf(d)
    ensures r.Err? <==> exists i | 0 <= i < |u| :: TouchesId(d, u[i])
    ensures r.Err? ==> r.error == ImmutableId
    decreases |u|
  {
    if u == [] then Ok(d)
    else if TouchesId(d, u[0]) then Err(ImmutableId)
    else
      var d1 :=
        if u[0].op == "$set" then SetFields(d, u[0].fields)
        else if u[0].op == "$unset" then RemoveFields(d, Names(u[0].fields))
        else d;
      assert IdOf(d1) == IdOf(d) by {
        if u[0].op == "$set" { SetFieldsKeepsId(d, u[0].fields); }
      }
      assert forall o :: TouchesId(d1, o) == TouchesId(d, o);
      var r := ApplyOperators(d1, u[1..]);
      assert forall i | 1 <= i < |u| :: u[i] == u[1..][i - 1];
      r
  }

  /**
   * `updateOne`'s treatment of one matching document: an update document
   * without operators is refused before anything is written; otherwise its
   * operators are applied, and one that would change `_id` refuses the
   * update as a whole.
   */
  function ApplyUpdate(d: Doc, u: Update): (r: Result<Doc, StoreError>)
    ensures !HasAtomicOperators(u) ==> r == Err(InvalidArgument)
    ensures r.Ok? ==> IdOf(r.value) == IdOf(d)
    ensures r.Err? <==> !HasAtomicOperators(u) || exists i | 0 <= i < |u| :: TouchesId(d, u[i])
    ensures r.Err? ==> r.error == if HasAtomicOperators(u) then ImmutableId else InvalidArgument
  {
    if HasAtomicOperators(u) then ApplyOperators(d, u) else Err(InvalidArgument)
  }

  /** `{ $set: fs }` writes the fields of `fs` and nothing else, unless it would change `_id`. */
  lemma ApplySetOnly(d: Doc, fs: Doc)
    ensures ApplyUpdate(d, [UpdateOp("$set", fs)]) == if ChangesId(d, fs) then Err(ImmutableId) else Ok(SetFields(d, fs))
  {
    var u := [UpdateOp("$set", fs)];
    assert u[0].op[0] == '$';
    assert TouchesId(d, u[0]) == ChangesId(d, fs);
    assert u[1..] == [];
    if !ChangesId(d, fs) {
      assert ApplyOperators(SetFields(d, fs), []) == Ok(SetFields(d, fs));
      assert ApplyOperators(d, u) == ApplyOperators(SetFields(d, fs), []);
    }
  }

  /** A flat filter: every filter field equals the document's field of that name. */
  predicate Matches(d: Doc, filter: Doc) {
    forall i | 0 <= i < |filter| :: Get(d, filter[i].name) == filter[i].value
  }

  /** The update of the chosen document `k`, and what `updateOne` reports for it. */
  predicate UpdatedAt(before: map<Value, Doc>, k: Value, u: Update, after: map<Value, Doc>,
                      r: Result<UpdateResult, StoreError>)
    requires k in before
  {
    match ApplyUpdate(before[k], u)
    case Err(e) => r == Err(e) && after == before
    case Ok(d) => after == before[k := d] && r == Ok(UpdateResult(1, if d == before[k] then 0 else 1))
  }

  /**
   * `updateOne(filter, update)`: a missing filter or update, or an update
   * without operators, is refused; otherwise, when some document matches,
   * the store picks one of them and updates it, and when none does, nothing
   * changes.
   */
  ghost predicate UpdateOneStep(before: map<Value, Doc>, filter: Option<Doc>, update: Option<Update>,
                                after: map<Value, Doc>, r: Result<UpdateResult, StoreError>)
  {
    if filter.None? || update.None? || !HasAtomicOperators(update.value) then
      r == Err(InvalidArgument) && after == before
    else if forall k | k in before :: !Matches(before[k], filter.value) then
      r == Ok(UpdateResult(0, 0)) && after == before
    else
      exists k | k in before && Matches(before[k], filter.value) :: UpdatedAt(before, k, update.value, after, r)
  }

  /** `updateOne({ _id: k }, update)`: the document at `k`, if any, is updated. */
  function UpdateById(docs: map<Value, Doc>, k: Value, u: Update): (r: Result<map<Value, Doc>, StoreError>)
    ensures !HasAtomicOperators(u) ==> r == Err(InvalidArgument)
    ensures k !in docs && HasAtomicOperators(u) ==> r == Ok(docs)
    ensures r.Ok? ==> r.value.Keys == docs.Keys
    ensures r.Ok? ==> forall j | j in docs && j != k :: r.value[j] == docs[j]
    ensures r.Ok? && Keyed(docs) ==> Keyed(r.value)
  {
    if !HasAtomicOperators(u) then Err(InvalidArgument)
    else if k !in docs then Ok(docs)
    else
      match ApplyUpdate(docs[k], u)
      case Err(e) => Err(e)
      case Ok(d) => Ok(docs[k := d])
  }

  /** With the filter `{ _id: k }`, the store has no choice to make: it updates the document at `k`. */
  lemma {:induction false} UpdateByIdFilter(before: map<Value, Doc>, k: Value, u: Update,
                                            after: map<Value, Doc>, r: Result<UpdateResult, StoreError>)
    requires Keyed(before)
    requires UpdateOneStep(before, Some([Field("_id", k)]), Some(u), after, r)
    ensures match UpdateById(before, k, u)
            case Ok(m) => after == m && r.Ok?
            case Err(e) => after == before && r == Err(e)
  {
    var f := [Field("_id", k)];
    forall j | j in before ensures Matches(before[j], f) <==> j == k {
      assert |f| == 1 && f[0] == Field("_id", k);
      assert Matches(before[j], f) <==> IdOf(before[j]) == k;
    }
    if k in before {
      assert Matches(before[k], f);
      var j :| j in before && Matches(before[j], f) && UpdatedAt(before, j, u, after, r);
      assert j == k;
    }
  }

  /** All documents of a collection, one per `_id`, in some order. */
  predicate IsSnapshot(s: seq<Doc>, docs: map<Value, Doc>) {
    && (forall i | 0 <= i < |s| :: IdOf(s[i]) in docs && docs[IdOf(s[i])] == s[i])
    && (forall i, j | 0 <= i < j < |s| :: IdOf(s[i]) != IdOf(s[j]))
    && (forall k | k in docs :: exists i | 0 <= i < |s| :: IdOf(s[i]) == k)
  }

  /** The documents at a list of distinct keys that covers the collection form a snapshot of it. */
  lemma ListedSnapshot(docs: map<Value, Doc>, ids: seq<Value>, s: seq<Doc>)
    requires Keyed(docs) && |ids| == |s|
    requires forall i | 0 <= i < |ids| :: ids[i] in docs && s[i] == docs[ids[i]]
    requires forall i, j | 0 <= i < j < |ids| :: ids[i] != ids[j]
    requires forall k | k in docs :: k in ids
    ensures IsSnapshot(s, docs)
  {
    forall k | k in docs ensures exists i | 0 <= i < |s| :: IdOf(s[i]) == k {
      var i :| 0 <= i < |ids| && ids[i] == k;
      assert IdOf(s[i]) == k;
    }
  }

  /** Listing the documents at keys not yet listed, one key at a time. */
  predicate Listing(all: map<Value, Doc>, rest: set<Value>, ids: seq<Value>, s: seq<Doc>) {
    && rest <= all.Keys && |ids| == |s|
    && (forall i | 0 <= i < |ids| :: ids[i] in all && s[i] == all[ids[i]])
    && (forall i, j | 0 <= i < j < |ids| :: ids[i] != ids[j])
    && (forall k | k in all :: k in rest <==> k !in ids)
  }

  /** Listing one more key keeps the listing. */
  lemma ListingStep(all: map<Value, Doc>, rest: set<Value>, ids: seq<Value>, s: seq<Doc>, k: Value)
    requires Listing(all, rest, ids, s) && k in rest
    ensures Listing(all, rest - {k}, ids + [k], s + [all[k]])
  {
    var ids', s' := ids + [k], s + [all[k]];
    assert forall i | 0 <= i < |ids| :: ids'[i] == ids[i] && s'[i] == s[i];
    assert k !in ids;
    forall j | j in all ensures j in rest - {k} <==> j !in ids' {
      assert j in ids' <==> j in ids || j == k;
    }
  }

  /** One MongoDB collection. */
  class Collection {
    var docs: map<Value, Doc>

    ghost predicate Valid()
      reads this
    {
      Keyed(docs)
    }

    constructor (initial: map<Value, Doc>)
      requires Keyed(initial)
      ensures Valid() && docs == initial
    {
      docs := initial;
    }

    /** `find({}).toArray()`: every document once, in an order the store chooses. */
    method Find() returns (snapshot: seq<Doc>)
      requires Valid()
      ensures IsSnapshot(snapshot, docs)
    {
      var all := docs;
      var rest := all.Keys;
      snapshot := [];
      ghost var ids: seq<Value> := [];
      while rest != {}
        invariant Listing(all, rest, ids, snapshot)
        decreases |rest|
      {
        var k :| k in rest;
        ListingStep(all, rest, ids, snapshot, k);
        snapshot := snapshot + [all[k]];
        ids := ids + [k];
        rest := rest - {k};
      }
      assert rest == {};
      ListedSnapshot(all, ids, snapshot);
    }

    /** `replaceOne({ _id: id }, replacement, { upsert: true })`. */
    method ReplaceOne(id: Value, replacement: Option<Doc>) returns (out: Outcome<StoreError>)
      requires Valid()
      modifies this
      ensures Valid()
      ensures match ReplaceOneUpsert(old(docs), id, replacement)
              case Ok(m) => out == Pass && docs == m
              case Err(e) => out == Fail(e) && docs == old(docs)
    {
      match ReplaceOneUpsert(docs, id, replacement)
      case Ok(m) =>
        docs := m;
        out := Pass;
      case Err(e) =>
        out := Fail(e);
    }

    /** `updateOne(filter, update)`, without upsert. */
    method UpdateOne(filter: Option<Doc>, update: Option<Update>) returns (r: Result<UpdateResult, StoreError>)
      requires Valid()
      modifies this
      ensures Valid()
      ensures UpdateOneStep(old(docs), filter, update, docs, r)
    {
      if filter.None? || update.None? || !HasAtomicOperators(update.value) {
        r := Err(InvalidArgument);
        return;
      }
      if k :| k in docs && Matches(docs[k], filter.value) {
        match ApplyUpdate(docs[k], update.value)
        case Err(e) =>
          r := Err(e);
        case Ok(d) =>
          r := Ok(UpdateResult(1, if d == docs[k] then 0 else 1));
          docs := docs[k := d];
        assert UpdatedAt(old(docs), k, update.value, docs, r);
      } else {
        r := Ok(UpdateResult(0, 0));
      }
    }

    /** `insertOne(document)`, with the `_id` the driver would generate passed in. */
    method InsertOne(document: Option<Doc>, generated: ObjectId) returns (r: Result<Value, StoreError>)
      requires Valid()
      modifies this
      ensures Valid()
      ensures match Insert(old(docs), document, generated)
              case Ok((m, id)) => r == Ok(id) && docs == m
              case Err(e) => r == Err(e) && docs == old(docs)
    {
      match Insert(docs, document, generated)
      case Ok((m, id)) =>
        docs := m;
        r := Ok(id);
      case Err(e) =>
        r := Err(e);
    }

    /** `deleteOne({ _id: id })`: deleting a missing document is not an error. */
    method DeleteOne(id: Value) returns (deletedCount: nat)
      requires Valid()
      modifies this
      ensures Valid()
      ensures docs == old(docs) - {id}
      ensures deletedCount == if id in old(docs) then 1 else 0
    {
      deletedCount := if id in docs then 1 else 0;
      docs := docs - {id};
    }
  }
}
