/**
 * The change-event mirror: `mirrorChangeToLocal` applies one change-stream
 * notification from the primary collection to the local mirror, and the
 * `'change'` handler applies every notification in turn, logging and
 * skipping the ones that throw.
 */
module ChangeStream {
  import opened Wrappers
  import opened Documents
  import opened Store

  /** One change-stream notification; the handler reads all of it but `removedFields`. */
  datatype ChangeEvent = ChangeEvent(
    operationType: string,
    /** `documentKey._id`; `None` when the event has no `documentKey`. */
    documentKey: Option<Value>,
    fullDocument: Option<Doc>,
    /** `updateDescription.updatedFields`; `None` when the event has no `updateDescription`. */
    updatedFields: Option<Doc>,
    /** `updateDescription.removedFields`: the names of the fields the update removed. */
    removedFields: seq<string>)

  /** Why handling one event throws. */
  datatype MirrorError =
    | NoDocumentKey        // reading `change.documentKey._id` fails
    | NoUpdateDescription  // reading `change.updateDescription.updatedFields` fails
    | StoreFailed(e: StoreError)

  /** The operation types the handler acts on; every other one is only logged. */
  predicate Handled(operationType: string) {
    operationType in {"insert", "replace", "update", "delete"}
  }

  /** The mirror after one event, or the error the event's handling throws. */
  function ApplyChange(m: map<Value, Doc>, c: ChangeEvent): (r: Result<map<Value, Doc>, MirrorError>)
    ensures c.documentKey.None? ==> r.Err?
    ensures r.Ok? ==> forall j | j != c.documentKey.value :: (j in r.value <==> j in m)
    ensures r.Ok? ==> forall j | j in m && j != c.documentKey.value :: r.value[j] == m[j]
    ensures r.Ok? && Keyed(m) ==> Keyed(r.value)
    ensures c.operationType in {"insert", "replace"} && c.documentKey.Some? && c.fullDocument.Some?
            && IdOf(c.fullDocument.value) == c.documentKey.value
            ==> r == Ok(m[c.documentKey.value := c.fullDocument.value])
    ensures c.operationType == "update" && c.documentKey.Some? && c.updatedFields.Some? && c.documentKey.value !in m
            ==> r == Ok(m)
    ensures c.operationType == "update" && r.Ok? ==> r.value.Keys == m.Keys
    ensures c.operationType == "delete" && c.documentKey.Some?
            ==> r.Ok? && c.documentKey.value !in r.value && (c.documentKey.value !in m ==> r.value == m)
    ensures !Handled(c.operationType) && c.documentKey.Some? ==> r == Ok(m)
  {
    if c.documentKey.None? then Err(NoDocumentKey)
    else
      var k := c.documentKey.value;
      if c.operationType == "insert" || c.operationType == "replace" then
        match ReplaceOneUpsert(m, k, c.fullDocument)
        case Ok(m') => Ok(m')
        case Err(e) => Err(StoreFailed(e))
      else if c.operationType == "update" then
        if c.updatedFields.None? then Err(NoUpdateDescription)
        else
          match UpdateById(m, k, [UpdateOp("$set", c.updatedFields.value)])
          case Ok(m') => Ok(m')
          case Err(e) => Err(StoreFailed(e))
      else if c.operationType == "delete" then
        Ok(m - {k})
      else
        Ok(m)
  }

  /** The handler's `try`/`catch`: an event that throws leaves the mirror as it was. */
  function Step(m: map<Value, Doc>, c: ChangeEvent): map<Value, Doc> {
    match ApplyChange(m, c)
    case Ok(m') => m'
    case Err(_) => m
  }

  /** The mirror after a sequence of events, applied one at a time in stream order. */
  function ApplyStream(m: map<Value, Doc>, cs: seq<ChangeEvent>): map<Value, Doc>
    decreases |cs|
  {
    if cs == [] then m else ApplyStream(Step(m, cs[0]), cs[1..])
  }

  /**
   * An update event on a present key with a `$set` that keeps `_id`: every
   * field it names takes the new value and every other field keeps its old one.
   */
  lemma UpdateEventEffect(m: map<Value, Doc>, c: ChangeEvent, n: string)
    requires c.operationType == "update" && c.documentKey.Some? && c.updatedFields.Some?
    requires UniqueNames(c.updatedFields.value)
    requires c.documentKey.value in m && !ChangesId(m[c.documentKey.value], c.updatedFields.value)
    ensures ApplyChange(m, c).Ok?
    ensures var r := ApplyChange(m, c).value; var k := c.documentKey.value;
            k in r && Get(r[k], n) == if Has(c.updatedFields.value, n) then Get(c.updatedFields.value, n) else Get(m[k], n)
  {
    var k := c.documentKey.value;
    var fs := c.updatedFields.value;
    ApplySetOnly(m[k], fs);
    if Has(fs, n) {
      var i :| 0 <= i < |fs| && fs[i].name == n;
      GetUnique(fs, i);
      assert Holds(fs, n, Get(fs, n));
      GetSetFields(m[k], fs, n, Get(fs, n));
    } else {
      GetSetFields(m[k], fs, n, Undefined);
    }
  }

  /** Repeating an upsert that succeeded changes nothing. */
  lemma UpsertIdempotent(m: map<Value, Doc>, k: Value, full: Option<Doc>)
    ensures ReplaceOneUpsert(m, k, full).Ok? ==>
      var m1 := ReplaceOneUpsert(m, k, full).value; ReplaceOneUpsert(m1, k, full) == Ok(m1)
  {
    if ReplaceOneUpsert(m, k, full).Ok? {
      var m1 := ReplaceOneUpsert(m, k, full).value;
      var d := full.value;
      if IdOf(d) != k {
        assert m1[k] == [Field("_id", k)] + d;
        assert m1[k := [Field("_id", k)] + d] == m1;
      } else {
        assert m1[k := d] == m1;
      }
    }
  }

  /** Repeating `$set` of an object with distinct names by `_id`, after it succeeded, changes nothing. */
  lemma UpdateIdempotent(m: map<Value, Doc>, k: Value, fs: Doc)
    requires UniqueNames(fs)
    ensures var u := [UpdateOp("$set", fs)];
            UpdateById(m, k, u).Ok? ==> var m1 := UpdateById(m, k, u).value; UpdateById(m1, k, u) == Ok(m1)
  {
    if k in m {
      ApplySetOnly(m[k], fs);
      if !ChangesId(m[k], fs) {
        var d1 := SetFields(m[k], fs);
        SetFieldsKeepsId(m[k], fs);
        assert !ChangesId(d1, fs);
        SetFieldsIdempotent(m[k], fs);
        ApplySetOnly(d1, fs);
        assert m[k := d1][k := d1] == m[k := d1];
      }
    }
  }

  /**
   * Applying any event twice in a row leaves the mirror as applying it once
   * (the `updatedFields` of an event, a JavaScript object, has distinct names).
   */
  lemma StepIdempotent(m: map<Value, Doc>, c: ChangeEvent)
    requires c.updatedFields.Some? ==> UniqueNames(c.updatedFields.value)
    ensures Step(Step(m, c), c) == Step(m, c)
  {
    if c.documentKey.Some? {
      var k := c.documentKey.value;
      if c.operationType == "insert" || c.operationType == "replace" {
        UpsertIdempotent(m, k, c.fullDocument);
      } else if c.operationType == "update" && c.updatedFields.Some? {
        UpdateIdempotent(m, k, c.updatedFields.value);
      } else if c.operationType == "delete" {
        assert m - {k} - {k} == m - {k};
      }
    }
  }

  /** Applying two stretches of the stream is applying their concatenation. */
  lemma {:induction false} ApplyStreamAppend(m: map<Value, Doc>, a: seq<ChangeEvent>, b: seq<ChangeEvent>)
    ensures ApplyStream(m, a + b) == ApplyStream(ApplyStream(m, a), b)
    decreases |a|
  {
    if a == [] {
      assert a + b == b;
    } else {
      assert (a + b)[0] == a[0];
      assert (a + b)[1..] == a[1..] + b;
      ApplyStreamAppend(Step(m, a[0]), a[1..], b);
    }
  }

  /** Two events are applied one after the other. */
  lemma ApplyStreamPair(m: map<Value, Doc>, e1: ChangeEvent, e2: ChangeEvent)
    ensures ApplyStream(m, [e1, e2]) == Step(Step(m, e1), e2)
  {
    assert [e1, e2][1..] == [e2];
    assert ApplyStream(Step(m, e1), [e2]) == ApplyStream(Step(Step(m, e1), e2), []);
  }

  /** The last event of a stretch is applied to the mirror the rest of the stretch left. */
  lemma ApplyStreamSnoc(m: map<Value, Doc>, a: seq<ChangeEvent>, c: ChangeEvent)
    ensures ApplyStream(m, a + [c]) == Step(ApplyStream(m, a), c)
  {
    ApplyStreamAppend(m, a, [c]);
  }

  /**
   * Fault isolation: an event that throws, or whose operation type is not
   * handled, changes nothing, and every later event is applied as if it had
   * not been in the stream.
   */
  lemma FaultIsolation(m: map<Value, Doc>, a: seq<ChangeEvent>, c: ChangeEvent, b: seq<ChangeEvent>)
    requires ApplyChange(ApplyStream(m, a), c).Err? || !Handled(c.operationType)
    ensures ApplyStream(m, a + [c] + b) == ApplyStream(m, a + b)
  {
    var before := ApplyStream(m, a);
    assert Step(before, c) == before;
    ApplyStreamAppend(m, a + [c], b);
    ApplyStreamSnoc(m, a, c);
    ApplyStreamAppend(m, a, b);
  }

  /** Of two updates to the same key, the later one's value of a field is the one left. */
  lemma LaterUpdateWins(m: map<Value, Doc>, k: Value, first: Doc, second: Doc, n: string)
    requires UniqueNames(second) && Has(second, n) && !Has(second, "_id")
    ensures var r := ApplyStream(m, [ChangeEvent("update", Some(k), None, Some(first), []),
                                     ChangeEvent("update", Some(k), None, Some(second), [])]);
            (k in m ==> k in r && Get(r[k], n) == Get(second, n)) && (k !in m ==> r == m)
  {
    var e1 := ChangeEvent("update", Some(k), None, Some(first), []);
    var e2 := ChangeEvent("update", Some(k), None, Some(second), []);
    var m1 := Step(m, e1);
    ApplyStreamPair(m, e1, e2);
    if k in m {
      assert k in m1;
      assert !ChangesId(m1[k], second);
      UpdateEventEffect(m1, e2, n);
    }
  }

  /** An insert followed by a delete of the same key leaves the key absent and the rest as it was. */
  lemma InsertThenDelete(m: map<Value, Doc>, k: Value, full: Doc)
    ensures var r := ApplyStream(m, [ChangeEvent("insert", Some(k), Some(full), None, []),
                                     ChangeEvent("delete", Some(k), None, None, [])]);
            k !in r && forall j | j in m && j != k :: j in r && r[j] == m[j]
  {
    var e1 := ChangeEvent("insert", Some(k), Some(full), None, []);
    var e2 := ChangeEvent("delete", Some(k), None, None, []);
    ApplyStreamPair(m, e1, e2);
  }

  /** `mirrorChangeToLocal(change, localCollection)`. */
  method MirrorChangeToLocal(change: ChangeEvent, local: Collection) returns (out: Outcome<MirrorError>)
    requires local.Valid()
    modifies local
    ensures local.Valid()
    ensures match ApplyChange(old(local.docs), change)
            case Ok(m) => out == Pass && local.docs == m
            case Err(e) => out == Fail(e) && local.docs == old(local.docs)
  {
    if change.documentKey.None? {
      return Fail(NoDocumentKey);
    }
    var docId := change.documentKey.value;
    if change.operationType == "insert" || change.operationType == "replace" {
      var res := local.ReplaceOne(docId, change.fullDocument);
      out := if res.Fail? then Fail(StoreFailed(res.error)) else Pass;
    } else if change.operationType == "update" {
      if change.updatedFields.None? {
        return Fail(NoUpdateDescription);
      }
      var update := [UpdateOp("$set", change.updatedFields.value)];
      var res := local.UpdateOne(Some([Field("_id", docId)]), Some(update));
      UpdateByIdFilter(old(local.docs), docId, update, local.docs, res);
      out := if res.Err? then Fail(StoreFailed(res.error)) else Pass;
    } else if change.operationType == "delete" {
      var _ := local.DeleteOne(docId);
      out := Pass;
    } else {
      out := Pass;
    }
  }

  /**
   * The `'change'` handler over a finite stretch of the stream, one event
   * at a time; an event that throws is logged and skipped.
   */
  method MirrorStream(events: seq<ChangeEvent>, local: Collection)
    requires local.Valid()
    modifies local
    ensures local.Valid()
    ensures local.docs == ApplyStream(old(local.docs), events)
  {
    for i := 0 to |events|
      invariant local.Valid()
      invariant local.docs == ApplyStream(old(local.docs), events[..i])
    {
      ApplyStreamSnoc(old(local.docs), events[..i], events[i]);
      assert events[..i + 1] == events[..i] + [events[i]];
      var _ := MirrorChangeToLocal(events[i], local);
    }
    assert events[..|events|] == events;
  }
}
