/**
 * The request rewrites of the Data API server and the routes that use them:
 * `normalizeIdInFilter`, the `_id` stripping of `/insertOne`, `/updateOne`
 * and `/updateMany`, and the result loop of `/updateMany`. `ObjectId.isValid`
 * and `new ObjectId(text)` belong to the driver; they are parameters here.
 */
module DataApiServer {
  import opened Wrappers
  import opened Documents
  import opened Store

  // ---------------------------------------------------------------------
  // normalizeIdInFilter
  // ---------------------------------------------------------------------

  /**
   * The filter's `_id` is a string that `ObjectId.isValid` accepts. (A string
   * is never an ObjectId, so the `instanceof` test adds nothing.)
   */
  predicate ConvertsId(f: Doc, isValid: string -> bool) {
    Get(f, "_id").Str? && isValid(Get(f, "_id").s)
  }

  /**
   * `normalizeIdInFilter(filter)`: a missing filter stays missing; a filter
   * whose `_id` is a valid ObjectId string becomes a new filter with the
   * same properties in the same order, except that `_id` holds the ObjectId;
   * any other filter is returned as it is.
   */
  function NormalizeIdInFilter(filter: Option<Doc>, isValid: string -> bool, toObjectId: string -> ObjectId)
    : (r: Option<Doc>)
    ensures filter.None? ==> r.None?
    ensures filter.Some? && !ConvertsId(filter.value, isValid) ==> r == filter
    ensures filter.Some? && ConvertsId(filter.value, isValid) ==>
      && r.Some?
      && |r.value| == |filter.value|
      && (forall i | 0 <= i < |filter.value| :: r.value[i].name == filter.value[i].name)
      && (forall i | 0 <= i < |filter.value| && filter.value[i].name != "_id" :: r.value[i] == filter.value[i])
      && Holds(r.value, "_id", Oid(toObjectId(Get(filter.value, "_id").s)))
      && (forall n | n != "_id" :: Get(r.value, n) == Get(filter.value, n))
  {
    if filter.Some? && ConvertsId(filter.value, isValid) then
      var f := filter.value;
      assert Has(f, "_id");
      var r := SetField(f, "_id", Oid(toObjectId(Get(f, "_id").s)));
      assert forall n | n != "_id" :: Get(r, n) == Get(f, n) by {
        forall n | n != "_id" ensures Get(r, n) == Get(f, n) {
          GetSetField(f, "_id", Oid(toObjectId(Get(f, "_id").s)), n);
        }
      }
      Some(r)
    else filter
  }

  /** Normalizing twice is normalizing once: the converted `_id` is no longer a string. */
  lemma NormalizeIdempotent(filter: Option<Doc>, isValid: string -> bool, toObjectId: string -> ObjectId)
    ensures var once := NormalizeIdInFilter(filter, isValid, toObjectId);
            NormalizeIdInFilter(once, isValid, toObjectId) == once
  {
    var once := NormalizeIdInFilter(filter, isValid, toObjectId);
    if filter.Some? && ConvertsId(filter.value, isValid) {
      GetHolds(once.value, "_id", Oid(toObjectId(Get(filter.value, "_id").s)));
    }
  }

  /** The `_id` of a filter: the first property of that name holds it. */
  lemma FirstId(f: Doc)
    requires Has(f, "_id")
    ensures exists i | 0 <= i < |f| :: f[i].name == "_id" && f[i].value == Get(f, "_id")
  {
    FirstIndex(f, "_id");
    var i :| 0 <= i < |f| && f[i].name == "_id" && forall j | 0 <= j < i :: f[j].name != "_id";
    GetFirst(f, i);
  }

  /** The reason for the rewrite: a filter naming `_id` by a string never matches a document whose `_id` is an ObjectId. */
  lemma StringIdMissesObjectIds(f: Doc, d: Doc)
    requires Get(f, "_id").Str? && IdOf(d).Oid?
    ensures !Matches(d, f)
  {
    FirstId(f);
  }

  /**
   * After the rewrite the filter selects the documents whose `_id` is the
   * converted ObjectId and that agree with the filter's other properties.
   */
  lemma NormalizedFilterMatches(f: Doc, isValid: string -> bool, toObjectId: string -> ObjectId, d: Doc)
    requires ConvertsId(f, isValid)
    ensures Matches(d, NormalizeIdInFilter(Some(f), isValid, toObjectId).value) <==>
      && IdOf(d) == Oid(toObjectId(Get(f, "_id").s))
      && forall i | 0 <= i < |f| && f[i].name != "_id" :: Get(d, f[i].name) == f[i].value
  {
    var r := NormalizeIdInFilter(Some(f), isValid, toObjectId).value;
    var v := Oid(toObjectId(Get(f, "_id").s));
    FirstId(f);
    var i0 :| 0 <= i0 < |f| && f[i0].name == "_id" && f[i0].value == Get(f, "_id");
    assert r[i0].name == "_id" && r[i0].value == v;
    forall i | 0 <= i < |f| && f[i].name == "_id" ensures r[i].value == v {
      assert r[i].name == "_id";
    }
  }

  /**
   * With a normalized `{ _id: text }` filter, the store has no choice to
   * make: it updates the document whose `_id` is the ObjectId of `text`.
   */
  lemma UpdateByObjectIdText(before: map<Value, Doc>, text: string, isValid: string -> bool,
                             toObjectId: string -> ObjectId, u: Update,
                             after: map<Value, Doc>, r: Result<UpdateResult, StoreError>)
    requires Keyed(before) && isValid(text)
    requires UpdateOneStep(before, NormalizeIdInFilter(Some([Field("_id", Str(text))]), isValid, toObjectId),
                           Some(u), after, r)
    ensures match UpdateById(before, Oid(toObjectId(text)), u)
            case Ok(m) => after == m && r.Ok?
            case Err(e) => after == before && r == Err(e)
  {
    var f := [Field("_id", Str(text))];
    assert Get(f, "_id") == Str(text);
    var n := NormalizeIdInFilter(Some(f), isValid, toObjectId).value;
    assert n == [Field("_id", Oid(toObjectId(text)))] by {
      assert |n| == 1 && n[0].name == "_id";
    }
    UpdateByIdFilter(before, Oid(toObjectId(text)), u, after, r);
  }

  // ---------------------------------------------------------------------
  // `_id` stripping of /insertOne
  // ---------------------------------------------------------------------

  /**
   * `/insertOne`: a document with a truthy `_id` loses that property, so
   * that the driver generates one; every other property is kept. A document
   * whose `_id` is missing or falsy is passed on as it is.
   */
  function StripInsertId(document: Option<Doc>): (r: Option<Doc>)
    ensures document.None? ==> r.None?
    ensures document.Some? ==> r.Some? && forall n | n != "_id" :: Get(r.value, n) == Get(document.value, n)
    ensures document.Some? && Truthy(IdOf(document.value)) ==>
      !Has(r.value, "_id") && forall n | n != "_id" :: Has(r.value, n) <==> Has(document.value, n)
    ensures document.Some? && !Truthy(IdOf(document.value)) ==> r == document
  {
    if document.Some? && Truthy(IdOf(document.value)) then Some(RemoveField(document.value, "_id"))
    else document
  }

  /** `const { _id, ...rest } = doc`: the other properties stay in their order. */
  lemma StripInsertIdKeepsOrder(d: Doc, j: nat)
    requires UniqueNames(d) && j < |d| && d[j].name == "_id" && Truthy(d[j].value)
    ensures StripInsertId(Some(d)) == Some(d[..j] + d[j + 1..])
  {
    GetUnique(d, j);
    RemoveFieldSplice(d, j);
  }

  /** A document sent with a truthy `_id` is stored under the `_id` the driver generates. */
  lemma InsertWithTruthyIdGenerates(docs: map<Value, Doc>, d: Doc, generated: ObjectId)
    requires Truthy(IdOf(d)) && Oid(generated) !in docs
    ensures var r := Insert(docs, StripInsertId(Some(d)), generated);
            r.Ok? && r.value.1 == Oid(generated)
  {
    assert IdOf(StripInsertId(Some(d)).value) == Undefined;
  }

  /**
   * As written, a falsy `_id` such as the empty string of a blank sheet cell
   * is not removed: the document is stored under that `_id` instead of a
   * generated one, and a second such document is refused as a duplicate.
   */
  lemma FalsyInsertIdIsKept(docs: map<Value, Doc>, d: Doc, generated: ObjectId)
    requires IdOf(d) == Str("")
    ensures StripInsertId(Some(d)) == Some(d)
    ensures var r := Insert(docs, StripInsertId(Some(d)), generated);
            if Str("") in docs then r == Err(DuplicateKey) else r.Ok? && r.value.1 == Str("")
  {
  }

  /** The intended rewrite: any `_id` the document names is removed. */
  function StripInsertIdAlways(document: Option<Doc>): (r: Option<Doc>)
    ensures document.None? ==> r.None?
    ensures document.Some? ==> r.Some? && !Has(r.value, "_id")
    ensures document.Some? ==> forall n | n != "_id" :: Get(r.value, n) == Get(document.value, n)
    ensures document.Some? && !Has(document.value, "_id") ==> r == document
  {
    if document.Some? then Some(RemoveField(document.value, "_id")) else document
  }

  /** With the intended rewrite, every inserted document gets the generated `_id`. */
  lemma InsertAlwaysGenerates(docs: map<Value, Doc>, d: Doc, generated: ObjectId)
    requires Oid(generated) !in docs
    ensures var r := Insert(docs, StripInsertIdAlways(Some(d)), generated);
            r.Ok? && r.value.1 == Oid(generated)
            && forall n | n != "_id" :: Get(r.value.0[Oid(generated)], n) == Get(d, n)
  {
    assert IdOf(StripInsertIdAlways(Some(d)).value) == Undefined;
  }

  /** The `/insertOne` route: strip, then insert. */
  method InsertOneRoute(coll: Collection, document: Option<Doc>, generated: ObjectId)
    returns (r: Result<Value, StoreError>)
    requires coll.Valid()
    modifies coll
    ensures coll.Valid()
    ensures match Insert(old(coll.docs), StripInsertId(document), generated)
            case Ok((m, id)) => r == Ok(id) && coll.docs == m
            case Err(e) => r == Err(e) && coll.docs == old(coll.docs)
  {
    r := coll.InsertOne(StripInsertId(document), generated);
  }

  // ---------------------------------------------------------------------
  // `_id` stripping of /updateOne and /updateMany
  // ---------------------------------------------------------------------

  /** `update.$set`: the argument of the first `$set` operator, if there is one. */
  function SetArgument(u: Update): (r: Option<Doc>)
    ensures r.Some? <==> exists i | 0 <= i < |u| :: u[i].op == "$set"
    ensures r.Some? ==> exists i | 0 <= i < |u| :: u[i] == UpdateOp("$set", r.value)
    decreases |u|
  {
    if u == [] then None
    else if u[0].op == "$set" then Some(u[0].fields)
    else
      var r := SetArgument(u[1..]);
      assert forall i | 1 <= i < |u| :: u[i] == u[1..][i - 1];
      r
  }

  /** `update && update.$set && update.$set._id`. */
  predicate StripsSetId(update: Option<Update>) {
    update.Some? && SetArgument(update.value).Some? && Truthy(Get(SetArgument(update.value).value, "_id"))
  }

  /** `{ ...update, $set: rest }`: the `$set` operator takes `rest`, in its place; the others stay. */
  function WithSet(u: Update, rest: Doc): (r: Update)
    ensures |r| == |u|
    ensures forall i | 0 <= i < |u| :: r[i] == if u[i].op == "$set" then UpdateOp("$set", rest) else u[i]
  {
    seq(|u|, i requires 0 <= i < |u| => if u[i].op == "$set" then UpdateOp("$set", rest) else u[i])
  }

  /**
   * `/updateOne` and `/updateMany`: when `update.$set._id` is truthy, `_id`
   * is removed from `$set`, its other fields and every other operator are
   * kept; otherwise the update is passed on as it is.
   */
  function StripSetId(update: Option<Update>): (r: Option<Update>)
    ensures update.None? ==> r.None?
    ensures !StripsSetId(update) ==> r == update
    ensures StripsSetId(update) ==>
      && r.Some? && |r.value| == |update.value|
      && (forall i | 0 <= i < |update.value| && update.value[i].op != "$set" :: r.value[i] == update.value[i])
      && (forall i | 0 <= i < |update.value| && update.value[i].op == "$set" ::
            && r.value[i].op == "$set"
            && !Has(r.value[i].fields, "_id")
            && forall n | n != "_id" :: Get(r.value[i].fields, n) == Get(SetArgument(update.value).value, n))
  {
    if StripsSetId(update) then
      Some(WithSet(update.value, RemoveField(SetArgument(update.value).value, "_id")))
    else update
  }

  /**
   * An update without `_id` in any `$set` is accepted exactly when it has
   * operators and none of its `$unset`s names `_id`.
   */
  lemma NoSetIdKeepsId(d: Doc, u: Update)
    requires forall i | 0 <= i < |u| && u[i].op == "$set" :: !Has(u[i].fields, "_id")
    ensures ApplyUpdate(d, u).Ok? <==>
      HasAtomicOperators(u) && forall i | 0 <= i < |u| && u[i].op == "$unset" :: !Has(u[i].fields, "_id")
  {
    forall i | 0 <= i < |u| ensures TouchesId(d, u[i]) <==> u[i].op == "$unset" && Has(u[i].fields, "_id") {
      if u[i].op == "$set" {
        assert forall j | 0 <= j < |u[i].fields| :: u[i].fields[j].name != "_id";
      }
    }
  }

  /** The stripped update has the same operators, in the same order, and the same non-`$set` arguments. */
  lemma SameOperators(u: Update, r: Update)
    requires |r| == |u|
    requires forall i | 0 <= i < |u| && u[i].op != "$set" :: r[i] == u[i]
    requires forall i | 0 <= i < |u| && u[i].op == "$set" :: r[i].op == "$set"
    ensures HasAtomicOperators(r) == HasAtomicOperators(u)
    ensures forall i | 0 <= i < |u| :: (r[i].op == "$unset" && Has(r[i].fields, "_id")) == (u[i].op == "$unset" && Has(u[i].fields, "_id"))
  {
    if |u| > 0 {
      assert r[0].op == u[0].op;
    }
  }

  /**
   * What the stripping is for: a stripped update is never refused for its
   * `$set`; it is refused only when it has no operators or unsets `_id`.
   */
  lemma StrippedUpdateKeepsId(d: Doc, update: Option<Update>)
    requires StripsSetId(update)
    ensures ApplyUpdate(d, StripSetId(update).value).Ok? <==>
      HasAtomicOperators(update.value)
      && forall i | 0 <= i < |update.value| && update.value[i].op == "$unset" :: !Has(update.value[i].fields, "_id")
  {
    var r := StripSetId(update).value;
    NoSetIdKeepsId(d, r);
    SameOperators(update.value, r);
  }

  /**
   * As written, a falsy `_id` in `$set`, such as the empty string of a blank
   * sheet cell, is not removed, and the store refuses the update for
   * changing the document's `_id`.
   */
  lemma FalsySetIdIsRefused(d: Doc, rest: Doc)
    requires IdOf(d) != Str("")
    ensures var update := Some([UpdateOp("$set", [Field("_id", Str(""))] + rest)]);
            StripSetId(update) == update && ApplyUpdate(d, update.value) == Err(ImmutableId)
  {
    var fs := [Field("_id", Str(""))] + rest;
    var u := [UpdateOp("$set", fs)];
    assert SetArgument(u) == Some(fs);
    assert Get(fs, "_id") == Str("");
    assert fs[0].name == "_id" && fs[0].value != IdOf(d);
    assert u[0].op == "$set" && ChangesId(d, u[0].fields);
    ApplySetOnly(d, fs);
  }

  /** The intended rewrite: any `_id` in `$set` is removed. */
  function StripSetIdAlways(update: Option<Update>): (r: Option<Update>)
    ensures update.None? ==> r.None?
    ensures update.Some? ==> r.Some? && |r.value| == |update.value|
    ensures update.Some? ==> forall i | 0 <= i < |update.value| && update.value[i].op != "$set" :: r.value[i] == update.value[i]
    ensures update.Some? ==> forall i | 0 <= i < |update.value| && update.value[i].op == "$set" ::
      && r.value[i].op == "$set"
      && !Has(r.value[i].fields, "_id")
      && forall n | n != "_id" :: Get(r.value[i].fields, n) == Get(SetArgument(update.value).value, n)
    ensures update.Some? && (SetArgument(update.value).None? || !Has(SetArgument(update.value).value, "_id"))
            && (forall i | 0 <= i < |update.value| && update.value[i].op == "$set" ::
                  update.value[i].fields == SetArgument(update.value).value)
            ==> r == update
  {
    if update.Some? && SetArgument(update.value).Some? then
      var u := update.value;
      var r := WithSet(u, RemoveField(SetArgument(u).value, "_id"));
      assert !Has(SetArgument(u).value, "_id") && (forall i | 0 <= i < |u| && u[i].op == "$set" :: u[i].fields == SetArgument(u).value)
        ==> r == u;
      Some(r)
    else update
  }

  /**
   * With the intended rewrite, no update is refused for its `$set`; it is
   * refused only when it has no operators or unsets `_id`.
   */
  lemma StrippedAlwaysKeepsId(d: Doc, update: Option<Update>)
    requires update.Some?
    ensures ApplyUpdate(d, StripSetIdAlways(update).value).Ok? <==>
      HasAtomicOperators(update.value)
      && forall i | 0 <= i < |update.value| && update.value[i].op == "$unset" :: !Has(update.value[i].fields, "_id")
  {
    var r := StripSetIdAlways(update).value;
    NoSetIdKeepsId(d, r);
    SameOperators(update.value, r);
  }

  // ---------------------------------------------------------------------
  // Routes
  // ---------------------------------------------------------------------

  /** The `/updateOne` route: normalize the filter, strip `$set._id`, update one document. */
  method UpdateOneRoute(coll: Collection, filter: Option<Doc>, update: Option<Update>,
                        isValid: string -> bool, toObjectId: string -> ObjectId)
    returns (r: Result<UpdateResult, StoreError>)
    requires coll.Valid()
    modifies coll
    ensures coll.Valid()
    ensures UpdateOneStep(old(coll.docs), NormalizeIdInFilter(filter, isValid, toObjectId), StripSetId(update), coll.docs, r)
  {
    r := coll.UpdateOne(NormalizeIdInFilter(filter, isValid, toObjectId), StripSetId(update));
  }

  /** One element of the `updates` array of `/updateMany`. */
  datatype UpdateRequest = UpdateRequest(filter: Option<Doc>, update: Option<Update>)

  /** The `i`-th update of the batch, as the route rewrites it, took the store from `before` to `after`. */
  ghost predicate BatchStep(updates: seq<UpdateRequest>, i: nat, isValid: string -> bool, toObjectId: string -> ObjectId,
                            before: map<Value, Doc>, after: map<Value, Doc>, r: Result<UpdateResult, StoreError>)
    requires i < |updates|
  {
    UpdateOneStep(before, NormalizeIdInFilter(updates[i].filter, isValid, toObjectId),
                  StripSetId(updates[i].update), after, r)
  }

  /** One more update of the batch: the trace and the outcomes grow by its step. */
  lemma ExtendTrace(updates: seq<UpdateRequest>, i: nat, isValid: string -> bool, toObjectId: string -> ObjectId,
                    trace: seq<map<Value, Doc>>, outcomes: seq<Result<UpdateResult, StoreError>>,
                    after: map<Value, Doc>, r: Result<UpdateResult, StoreError>)
    requires i < |updates| && |trace| == i + 1 && |outcomes| == i
    requires forall j | 0 <= j < i :: BatchStep(updates, j, isValid, toObjectId, trace[j], trace[j + 1], outcomes[j])
    requires BatchStep(updates, i, isValid, toObjectId, trace[i], after, r)
    ensures var t, o := trace + [after], outcomes + [r];
            forall j | 0 <= j < i + 1 :: BatchStep(updates, j, isValid, toObjectId, t[j], t[j + 1], o[j])
  {
  }

  /**
   * The `/updateMany` route: the updates run one after the other, each with
   * its filter normalized and its `$set._id` stripped, and each `updateOne`
   * result is pushed in turn. The first failing update ends the request with
   * its error; the updates before it stay applied. A missing `updates` array
   * is an error. `trace` lists the collection before the first update and
   * after each one that ran; `outcomes` what each one reported.
   */
  method UpdateMany(coll: Collection, updates: Option<seq<UpdateRequest>>,
                    isValid: string -> bool, toObjectId: string -> ObjectId)
    returns (r: Result<seq<UpdateResult>, StoreError>,
             ghost trace: seq<map<Value, Doc>>, ghost outcomes: seq<Result<UpdateResult, StoreError>>)
    requires coll.Valid()
    modifies coll
    ensures coll.Valid()
    ensures |trace| == |outcomes| + 1 && trace[0] == old(coll.docs) && trace[|outcomes|] == coll.docs
    ensures updates.None? ==> r == Err(InvalidArgument) && outcomes == []
    ensures updates.Some? ==> |outcomes| <= |updates.value|
    ensures updates.Some? ==> forall i | 0 <= i < |outcomes| ::
      BatchStep(updates.value, i, isValid, toObjectId, trace[i], trace[i + 1], outcomes[i])
    ensures forall i | 0 <= i < |outcomes| - 1 :: outcomes[i].Ok?
    ensures updates.Some? && r.Ok? ==>
      && |outcomes| == |updates.value| && |r.value| == |updates.value|
      && forall i | 0 <= i < |outcomes| :: outcomes[i] == Ok(r.value[i])
    ensures updates.Some? && r.Err? ==> |outcomes| > 0 && outcomes[|outcomes| - 1] == Err(r.error)
  {
    trace := [coll.docs];
    outcomes := [];
    if updates.None? {
      return Err(InvalidArgument), trace, outcomes;
    }
    var batch := updates.value;
    var results: seq<UpdateResult> := [];
    for i := 0 to |batch|
      invariant coll.Valid()
      invariant |trace| == i + 1 && |outcomes| == i && |results| == i
      invariant trace[0] == old(coll.docs) && trace[i] == coll.docs
      invariant forall j | 0 <= j < i :: BatchStep(batch, j, isValid, toObjectId, trace[j], trace[j + 1], outcomes[j])
      invariant forall j | 0 <= j < i :: outcomes[j] == Ok(results[j])
    {
      var filter := NormalizeIdInFilter(batch[i].filter, isValid, toObjectId);
      var update := StripSetId(batch[i].update);
      var result := coll.UpdateOne(filter, update);
      ExtendTrace(batch, i, isValid, toObjectId, trace, outcomes, coll.docs, result);
      trace := trace + [coll.docs];
      outcomes := outcomes + [result];
      if result.Err? {
        return Err(result.error), trace, outcomes;
      }
      results := results + [result.value];
    }
    r := Ok(results);
  }
}
