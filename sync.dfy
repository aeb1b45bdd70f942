/**
 * The mirror engine as a whole (`main` of sync.js): an initial
 * reconciliation, then the change stream folded into the mirror. The
 * engine's purpose is that the mirror keeps holding the primary's documents;
 * the events are read as the record of what happened to the primary, update
 * events with both the fields they set and the fields they removed.
 */
module Sync {
  import opened Wrappers
  import opened Documents
  import opened Store
  import opened ChangeStream
  import opened Reconciler

  /** Every document of the primary is in the mirror, as it is; the mirror may hold more. */
  predicate Agrees(primary: map<Value, Doc>, mirror: map<Value, Doc>) {
    forall k | k in primary :: k in mirror && mirror[k] == primary[k]
  }

  /** `$unset` of each removed field, as `updateOne` takes it: `{ f: "" }` for every name. */
  function UnsetArgument(removed: seq<string>): (r: Doc)
    ensures Names(r) == removed
  {
    var r := seq(|removed|, i requires 0 <= i < |removed| => Field(removed[i], Str("")));
    assert forall i | 0 <= i < |removed| :: Names(r)[i] == removed[i];
    r
  }

  /** `{ $set: fs, $unset: removed }`: the fields of `fs` written, then the removed ones dropped. */
  lemma ApplySetUnset(d: Doc, fs: Doc, removed: seq<string>)
    ensures ApplyUpdate(d, [UpdateOp("$set", fs), UpdateOp("$unset", UnsetArgument(removed))])
            == if ChangesId(d, fs) || "_id" in removed then Err(ImmutableId)
               else Ok(RemoveFields(SetFields(d, fs), removed))
  {
    var u := [UpdateOp("$set", fs), UpdateOp("$unset", UnsetArgument(removed))];
    assert u[0].op[0] == '$';
    assert Has(u[1].fields, "_id") <==> "_id" in removed;
    assert TouchesId(d, u[0]) == ChangesId(d, fs);
    if !ChangesId(d, fs) {
      var d1 := SetFields(d, fs);
      SetFieldsKeepsId(d, fs);
      assert TouchesId(d1, u[1]) == ("_id" in removed);
      assert u[1..] == [u[1]] && u[1..][1..] == [];
      assert ApplyOperators(d, u) == ApplyOperators(d1, [u[1]]);
      if "_id" !in removed {
        var d2 := RemoveFields(d1, removed);
        assert ApplyOperators(d1, [u[1]]) == ApplyOperators(d2, []);
      }
    }
  }

  /**
   * The change an event records: an update event sets its `updatedFields`
   * and removes its `removedFields`; every other event is as the handler
   * applies it. This is what the primary went through, and what a handler
   * that also applied `removedFields` would write to the mirror.
   */
  function StepWithUnset(m: map<Value, Doc>, c: ChangeEvent): map<Value, Doc> {
    if c.operationType == "update" && c.documentKey.Some? && c.updatedFields.Some? then
      var u := [UpdateOp("$set", c.updatedFields.value), UpdateOp("$unset", UnsetArgument(c.removedFields))];
      match UpdateById(m, c.documentKey.value, u)
      case Ok(m') => m'
      case Err(_) => m
    else Step(m, c)
  }

  /** A sequence of events, each taken with its `removedFields`. */
  function ApplyStreamWithUnset(m: map<Value, Doc>, cs: seq<ChangeEvent>): map<Value, Doc>
    decreases |cs|
  {
    if cs == [] then m else ApplyStreamWithUnset(StepWithUnset(m, cs[0]), cs[1..])
  }

  /** An event that removes no field. */
  predicate NoRemovals(c: ChangeEvent) {
    c.operationType == "update" ==> c.removedFields == []
  }

  /** When an event removes no field, the handler applies all of it. */
  lemma NoRemovalsStep(m: map<Value, Doc>, c: ChangeEvent)
    requires NoRemovals(c)
    ensures StepWithUnset(m, c) == Step(m, c)
  {
    if c.operationType == "update" && c.documentKey.Some? && c.updatedFields.Some? {
      var k := c.documentKey.value;
      var fs := c.updatedFields.value;
      if k in m {
        ApplySetUnset(m[k], fs, []);
        ApplySetOnly(m[k], fs);
      }
      assert HasAtomicOperators([UpdateOp("$set", fs)]) by {
        assert "$set"[0] == '$';
      }
    }
  }

  /** The same upsert on two agreeing collections succeeds on both or on neither, and keeps them agreeing. */
  lemma UpsertKeepsAgreement(primary: map<Value, Doc>, mirror: map<Value, Doc>, k: Value, full: Option<Doc>)
    requires Agrees(primary, mirror)
    ensures ReplaceOneUpsert(primary, k, full).Ok? == ReplaceOneUpsert(mirror, k, full).Ok?
    ensures ReplaceOneUpsert(primary, k, full).Ok? ==>
      Agrees(ReplaceOneUpsert(primary, k, full).value, ReplaceOneUpsert(mirror, k, full).value)
  {
    var rp := ReplaceOneUpsert(primary, k, full);
    var rm := ReplaceOneUpsert(mirror, k, full);
    if rp.Ok? {
      assert rp.value[k] == rm.value[k] by {
        var d := full.value;
        if IdOf(d) != k {
          assert rp.value[k] == [Field("_id", k)] + d == rm.value[k];
        }
      }
    }
  }

  /** The same update by `_id` on two agreeing collections keeps them agreeing, whichever of them it fails on. */
  lemma UpdateKeepsAgreement(primary: map<Value, Doc>, mirror: map<Value, Doc>, k: Value, u: Update)
    requires Agrees(primary, mirror)
    ensures Agrees(match UpdateById(primary, k, u) case Ok(p) => p case Err(_) => primary,
                   match UpdateById(mirror, k, u) case Ok(m) => m case Err(_) => mirror)
  {
    if k in primary {
      assert mirror[k] == primary[k];
    }
  }

  /** The handler's step applied to both sides keeps the mirror in agreement. */
  lemma HandlerStepKeepsAgreement(primary: map<Value, Doc>, mirror: map<Value, Doc>, c: ChangeEvent)
    requires Agrees(primary, mirror)
    ensures Agrees(Step(primary, c), Step(mirror, c))
  {
    if c.documentKey.Some? {
      var k := c.documentKey.value;
      if c.operationType == "insert" || c.operationType == "replace" {
        UpsertKeepsAgreement(primary, mirror, k, c.fullDocument);
      } else if c.operationType == "update" && c.updatedFields.Some? {
        UpdateKeepsAgreement(primary, mirror, k, [UpdateOp("$set", c.updatedFields.value)]);
      }
    }
  }

  /**
   * An event that removes no field, recorded on the primary and applied by
   * the handler to the mirror, keeps the mirror in agreement with the primary.
   */
  lemma StepKeepsAgreement(primary: map<Value, Doc>, mirror: map<Value, Doc>, c: ChangeEvent)
    requires Agrees(primary, mirror) && NoRemovals(c)
    ensures Agrees(StepWithUnset(primary, c), Step(mirror, c))
  {
    NoRemovalsStep(primary, c);
    HandlerStepKeepsAgreement(primary, mirror, c);
  }

  /** ... and so does every stream of events that removes no field. */
  lemma {:induction false} StreamKeepsAgreement(primary: map<Value, Doc>, mirror: map<Value, Doc>, cs: seq<ChangeEvent>)
    requires Agrees(primary, mirror) && forall i | 0 <= i < |cs| :: NoRemovals(cs[i])
    ensures Agrees(ApplyStreamWithUnset(primary, cs), ApplyStream(mirror, cs))
    decreases |cs|
  {
    if cs != [] {
      StepKeepsAgreement(primary, mirror, cs[0]);
      assert forall i | 0 <= i < |cs[1..]| :: cs[1..][i] == cs[i + 1];
      StreamKeepsAgreement(StepWithUnset(primary, cs[0]), Step(mirror, cs[0]), cs[1..]);
    }
  }

  /**
   * As written, an update that removes a field leaves that field in the
   * mirror: the handler sends only `$set` of `updatedFields`.
   */
  lemma RemovedFieldSurvives()
    ensures var k := Str("k");
            var m := map[k := [Field("_id", k), Field("f", Num(1))]];
            var c := ChangeEvent("update", Some(k), None, Some([]), ["f"]);
            Agrees(m, m) && !Agrees(StepWithUnset(m, c), Step(m, c))
  {
    var k := Str("k");
    var d := [Field("_id", k), Field("f", Num(1))];
    var m := map[k := d];
    var c := ChangeEvent("update", Some(k), None, Some([]), ["f"]);
    assert !ChangesId(d, []);
    assert "_id" !in ["f"];
    ApplySetUnset(d, [], ["f"]);
    ApplySetOnly(d, []);
    assert SetFields(d, []) == d;
    var d2 := RemoveFields(d, ["f"]);
    assert d[1].name == "f" && Has(d, "f") && !Has(d2, "f");
    assert StepWithUnset(m, c)[k] == d2;
    assert Step(m, c)[k] == d;
  }

  /** The corrected handler, which also applies `removedFields`, keeps the mirror in agreement after any event. */
  lemma CorrectedStepKeepsAgreement(primary: map<Value, Doc>, mirror: map<Value, Doc>, c: ChangeEvent)
    requires Agrees(primary, mirror)
    ensures Agrees(StepWithUnset(primary, c), StepWithUnset(mirror, c))
  {
    if c.operationType == "update" && c.documentKey.Some? && c.updatedFields.Some? {
      var u := [UpdateOp("$set", c.updatedFields.value), UpdateOp("$unset", UnsetArgument(c.removedFields))];
      UpdateKeepsAgreement(primary, mirror, c.documentKey.value, u);
    } else {
      HandlerStepKeepsAgreement(primary, mirror, c);
    }
  }

  /** ... and after any stream of events. */
  lemma {:induction false} CorrectedStreamKeepsAgreement(primary: map<Value, Doc>, mirror: map<Value, Doc>, cs: seq<ChangeEvent>)
    requires Agrees(primary, mirror)
    ensures Agrees(ApplyStreamWithUnset(primary, cs), ApplyStreamWithUnset(mirror, cs))
    decreases |cs|
  {
    if cs != [] {
      CorrectedStepKeepsAgreement(primary, mirror, cs[0]);
      CorrectedStreamKeepsAgreement(StepWithUnset(primary, cs[0]), StepWithUnset(mirror, cs[0]), cs[1..]);
    }
  }

  /** Where JSON text tells the documents apart, the initial sync leaves the mirror in agreement with the primary. */
  lemma InitialSyncAgrees(primary: map<Value, Doc>, mirror: map<Value, Doc>, atlasDocs: seq<Doc>, localDocs: seq<Doc>)
    requires IsSnapshot(atlasDocs, primary) && IsSnapshot(localDocs, mirror) && Separates(atlasDocs, localDocs)
    ensures Agrees(primary, Reconcile(mirror, atlasDocs, LocalMap(localDocs)))
  {
    ReconcileConverges(mirror, atlasDocs, localDocs);
    var r := Reconcile(mirror, atlasDocs, LocalMap(localDocs));
    forall k | k in primary ensures k in r && r[k] == primary[k] {
      var i :| 0 <= i < |atlasDocs| && IdOf(atlasDocs[i]) == k;
    }
  }

  /** With documents compared as values, the initial sync always leaves the mirror in agreement with the primary. */
  lemma InitialSyncByValueAgrees(primary: map<Value, Doc>, mirror: map<Value, Doc>, atlasDocs: seq<Doc>)
    requires IsSnapshot(atlasDocs, primary)
    ensures Agrees(primary, ReconcileByValue(mirror, atlasDocs))
  {
    var r := ReconcileByValue(mirror, atlasDocs);
    forall k | k in primary ensures k in r && r[k] == primary[k] {
      var i :| 0 <= i < |atlasDocs| && IdOf(atlasDocs[i]) == k;
      ReconcileByValueConverges(mirror, atlasDocs, k);
    }
  }

  /**
   * The engine's promise, as far as the code keeps it: after the initial
   * sync and any stream of events that followed it and removed no field,
   * the mirror holds every document of the primary.
   */
  lemma MirrorTracksPrimary(primary: map<Value, Doc>, mirror: map<Value, Doc>,
                            atlasDocs: seq<Doc>, localDocs: seq<Doc>, cs: seq<ChangeEvent>)
    requires IsSnapshot(atlasDocs, primary) && IsSnapshot(localDocs, mirror) && Separates(atlasDocs, localDocs)
    requires forall i | 0 <= i < |cs| :: NoRemovals(cs[i])
    ensures Agrees(ApplyStreamWithUnset(primary, cs), ApplyStream(Reconcile(mirror, atlasDocs, LocalMap(localDocs)), cs))
  {
    InitialSyncAgrees(primary, mirror, atlasDocs, localDocs);
    StreamKeepsAgreement(primary, Reconcile(mirror, atlasDocs, LocalMap(localDocs)), cs);
  }

  /**
   * The engine's promise with both corrections, documents compared as
   * values and `removedFields` applied: the mirror holds every document of
   * the primary after the initial sync and any stream of events.
   */
  lemma CorrectedMirrorTracksPrimary(primary: map<Value, Doc>, mirror: map<Value, Doc>,
                                     atlasDocs: seq<Doc>, cs: seq<ChangeEvent>)
    requires IsSnapshot(atlasDocs, primary)
    ensures Agrees(ApplyStreamWithUnset(primary, cs), ApplyStreamWithUnset(ReconcileByValue(mirror, atlasDocs), cs))
  {
    InitialSyncByValueAgrees(primary, mirror, atlasDocs);
    CorrectedStreamKeepsAgreement(primary, ReconcileByValue(mirror, atlasDocs), cs);
  }

  /**
   * `main`: the initial sync, then each event of the stream in order, each
   * inside its own `try`/`catch`.
   */
  method Run(atlas: Collection, local: Collection, events: seq<ChangeEvent>)
    returns (ghost atlasDocs: seq<Doc>, ghost localDocs: seq<Doc>)
    requires atlas.Valid() && local.Valid()
    modifies local
    ensures local.Valid()
    ensures IsSnapshot(atlasDocs, old(atlas.docs)) && IsSnapshot(localDocs, old(local.docs))
    ensures local.docs == ApplyStream(Reconcile(old(local.docs), atlasDocs, LocalMap(localDocs)), events)
  {
    var syncedCount;
    syncedCount, atlasDocs, localDocs := InitialSync(atlas, local);
    MirrorStream(events, local);
  }
}
