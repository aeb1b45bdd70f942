/**
 * The snapshot reconciler, `initialSync`: it reads every document of the
 * primary collection and of the local mirror, looks each primary document
 * up among the mirror's by `String(_id)`, and upserts it into the mirror
 * when it is missing there or its JSON text differs. It never deletes.
 */
module Reconciler {
  import opened Wrappers
  import opened Documents
  import opened Store

  /** `String(doc._id)`: the text the lookup is keyed by. */
  function KeyText(d: Doc): string {
    KeyString(IdOf(d))
  }

  /** No later document of `s` has the same key text as `s[i]`. */
  predicate LastWithKey(s: seq<Doc>, i: nat)
    requires i < |s|
  {
    forall j | i < j < |s| :: KeyText(s[j]) != KeyText(s[i])
  }

  /**
   * `new Map(localDocs.map(doc => [String(doc._id), doc]))`: every document
   * is entered under its key text, and a later document with the same key
   * text replaces an earlier one.
   */
  function LocalMap(s: seq<Doc>): map<string, Doc>
    decreases |s|
  {
    if s == [] then map[] else LocalMap(s[..|s| - 1])[KeyText(s[|s| - 1]) := s[|s| - 1]]
  }

  /** The lookup holds every document's key text, and each entry is one of the documents with that key text. */
  lemma {:induction false} LocalMapSpec(s: seq<Doc>)
    ensures forall i | 0 <= i < |s| :: KeyText(s[i]) in LocalMap(s)
    ensures forall key | key in LocalMap(s) ::
      exists i | 0 <= i < |s| :: KeyText(s[i]) == key && s[i] == LocalMap(s)[key]
    decreases |s|
  {
    if s != [] {
      var init := s[..|s| - 1];
      var last := s[|s| - 1];
      LocalMapSpec(init);
      var lm0 := LocalMap(init);
      var lm := LocalMap(s);
      assert lm == lm0[KeyText(last) := last];
      assert forall i | 0 <= i < |init| :: init[i] == s[i];
      forall key | key in lm
        ensures exists i | 0 <= i < |s| :: KeyText(s[i]) == key && s[i] == lm[key]
      {
        if key == KeyText(last) {
          assert s[|s| - 1] == lm[key];
        } else {
          var i :| 0 <= i < |init| && KeyText(init[i]) == key && init[i] == lm0[key];
          assert s[i] == lm[key];
        }
      }
    }
  }

  /** A later document with the same key text replaces an earlier one: the last one is what the lookup finds. */
  lemma {:induction false} LocalMapLast(s: seq<Doc>, i: nat)
    requires i < |s| && LastWithKey(s, i)
    ensures KeyText(s[i]) in LocalMap(s) && LocalMap(s)[KeyText(s[i])] == s[i]
    decreases |s|
  {
    var init := s[..|s| - 1];
    if i < |s| - 1 {
      assert init[i] == s[i];
      assert LastWithKey(init, i) by {
        forall j | i < j < |init| ensures KeyText(init[j]) != KeyText(init[i]) {
          assert init[j] == s[j];
        }
      }
      LocalMapLast(init, i);
      assert KeyText(s[|s| - 1]) != KeyText(s[i]);
    }
  }

  /** The test of `initialSync`: no mirror document under the key text, or different JSON text. */
  predicate Divergent(lm: map<string, Doc>, d: Doc) {
    var key := KeyText(d);
    key !in lm || Stringify(lm[key]) != Stringify(d)
  }

  /** The positions of the primary documents the loop upserts. */
  function DivergentIndices(s: seq<Doc>, lm: map<string, Doc>): set<nat> {
    set i: nat | i < |s| && Divergent(lm, s[i])
  }

  /** The mirror after the loop has upserted the divergent documents of `s`, first to last. */
  function Reconcile(m: map<Value, Doc>, s: seq<Doc>, lm: map<string, Doc>): map<Value, Doc>
    decreases |s|
  {
    if s == [] then m
    else
      var r := Reconcile(m, s[..|s| - 1], lm);
      var d := s[|s| - 1];
      if Divergent(lm, d) then r[IdOf(d) := d] else r
  }

  /** No two primary documents share an `_id`. */
  predicate DistinctIds(s: seq<Doc>) {
    forall i, j | 0 <= i < j < |s| :: IdOf(s[i]) != IdOf(s[j])
  }

  /** The JSON text tells each primary document apart from every other mirror document. */
  predicate Separates(s: seq<Doc>, localDocs: seq<Doc>) {
    forall i, j | 0 <= i < |s| && 0 <= j < |localDocs| :: Stringify(localDocs[j]) == Stringify(s[i]) ==> localDocs[j] == s[i]
  }

  /** `String(_id)` tells the mirror's documents apart. */
  predicate KeyTextsDistinct(localDocs: seq<Doc>) {
    forall i, j | 0 <= i < |localDocs| && 0 <= j < |localDocs| ::
      KeyText(localDocs[i]) == KeyText(localDocs[j]) ==> IdOf(localDocs[i]) == IdOf(localDocs[j])
  }

  lemma DivergentIndicesSnoc(s: seq<Doc>, d: Doc, lm: map<string, Doc>)
    ensures DivergentIndices(s + [d], lm) == DivergentIndices(s, lm) + if Divergent(lm, d) then {|s|} else {}
    ensures |s| !in DivergentIndices(s, lm)
  {
    var t := s + [d];
    assert forall i | 0 <= i < |s| :: t[i] == s[i];
    assert t[|s|] == d;
  }

  lemma {:induction false} IndicesBelow(S: set<nat>, n: nat)
    requires forall i | i in S :: i < n
    ensures |S| <= n
    decreases n
  {
    if n > 0 {
      IndicesBelow(S - {n - 1}, n - 1);
    } else {
      assert S == {};
    }
  }

  /** The count `initialSync` reports is at most the number of primary documents. */
  lemma SyncedCountBound(s: seq<Doc>, lm: map<string, Doc>)
    ensures 0 <= |DivergentIndices(s, lm)| <= |s|
  {
    IndicesBelow(DivergentIndices(s, lm), |s|);
  }

  /** A divergent primary document is in the mirror afterwards, as it is. */
  lemma {:induction false} ReconcileWrites(m: map<Value, Doc>, s: seq<Doc>, lm: map<string, Doc>, i: nat)
    requires DistinctIds(s) && i < |s| && Divergent(lm, s[i])
    ensures var r := Reconcile(m, s, lm); IdOf(s[i]) in r && r[IdOf(s[i])] == s[i]
    decreases |s|
  {
    var init := s[..|s| - 1];
    var d := s[|s| - 1];
    if i < |s| - 1 {
      assert init[i] == s[i];
      assert DistinctIds(init) by {
        assert forall a | 0 <= a < |init| :: init[a] == s[a];
      }
      ReconcileWrites(m, init, lm, i);
      assert IdOf(d) != IdOf(s[i]);
    }
  }

  /** An `_id` no divergent primary document carries keeps the mirror's document, or its absence. */
  lemma {:induction false} ReconcileKeeps(m: map<Value, Doc>, s: seq<Doc>, lm: map<string, Doc>, k: Value)
    requires forall i | 0 <= i < |s| && IdOf(s[i]) == k :: !Divergent(lm, s[i])
    ensures var r := Reconcile(m, s, lm); (k in r <==> k in m) && (k in m ==> r[k] == m[k])
    decreases |s|
  {
    if s != [] {
      var init := s[..|s| - 1];
      assert forall i | 0 <= i < |init| :: init[i] == s[i];
      ReconcileKeeps(m, init, lm, k);
    }
  }

  /**
   * What the loop writes: a divergent primary document is upserted as it
   * is; the mirror's document under any other `_id`, whether a primary `_id`
   * that was not divergent or a mirror-only one, is left untouched.
   */
  lemma ReconcileEffect(m: map<Value, Doc>, s: seq<Doc>, lm: map<string, Doc>, k: Value)
    requires DistinctIds(s)
    ensures var r := Reconcile(m, s, lm);
            if exists i | 0 <= i < |s| :: IdOf(s[i]) == k && Divergent(lm, s[i]) then
              k in r && forall i | 0 <= i < |s| && IdOf(s[i]) == k :: r[k] == s[i]
            else
              (k in r <==> k in m) && (k in m ==> r[k] == m[k])
  {
    if i :| 0 <= i < |s| && IdOf(s[i]) == k && Divergent(lm, s[i]) {
      ReconcileWrites(m, s, lm, i);
    } else {
      ReconcileKeeps(m, s, lm, k);
    }
  }

  /**
   * Convergence: when the JSON text tells the documents apart, every
   * primary `_id` ends up in the mirror with the primary's document.
   */
  lemma ReconcileConverges(m: map<Value, Doc>, s: seq<Doc>, localDocs: seq<Doc>)
    requires IsSnapshot(localDocs, m) && DistinctIds(s) && Separates(s, localDocs)
    ensures var r := Reconcile(m, s, LocalMap(localDocs));
            forall i | 0 <= i < |s| :: IdOf(s[i]) in r && r[IdOf(s[i])] == s[i]
  {
    var lm := LocalMap(localDocs);
    LocalMapSpec(localDocs);
    forall i | 0 <= i < |s| ensures IdOf(s[i]) in Reconcile(m, s, lm) && Reconcile(m, s, lm)[IdOf(s[i])] == s[i] {
      var k := IdOf(s[i]);
      ReconcileEffect(m, s, lm, k);
      if !Divergent(lm, s[i]) {
        var key := KeyText(s[i]);
        var j :| 0 <= j < |localDocs| && KeyText(localDocs[j]) == key && localDocs[j] == lm[key];
        assert localDocs[j] == s[i];
        assert m[k] == s[i];
        forall i' | 0 <= i' < |s| && IdOf(s[i']) == k ensures !Divergent(lm, s[i']) {
          assert i' == i;
        }
      }
    }
  }

  /** A primary `_id` that is no mirror-only key: the mirror's other documents stay as they were. */
  lemma ReconcileKeepsMirrorOnly(m: map<Value, Doc>, s: seq<Doc>, lm: map<string, Doc>, k: Value)
    requires DistinctIds(s)
    requires forall i | 0 <= i < |s| :: IdOf(s[i]) != k
    ensures var r := Reconcile(m, s, lm); (k in r <==> k in m) && (k in m ==> r[k] == m[k])
  {
    ReconcileEffect(m, s, lm, k);
  }

  /** A primary document that the mirror holds as it is, and that JSON text tells apart, is not divergent. */
  lemma SameIsNotDivergent(m: map<Value, Doc>, localDocs: seq<Doc>, d: Doc)
    requires IsSnapshot(localDocs, m) && KeyTextsDistinct(localDocs)
    requires IdOf(d) in m && m[IdOf(d)] == d
    ensures !Divergent(LocalMap(localDocs), d)
  {
    var lm := LocalMap(localDocs);
    LocalMapSpec(localDocs);
    var k := IdOf(d);
    var key := KeyText(d);
    var j :| 0 <= j < |localDocs| && IdOf(localDocs[j]) == k;
    assert localDocs[j] == d;
    var j' :| 0 <= j' < |localDocs| && KeyText(localDocs[j']) == key && localDocs[j'] == lm[key];
    assert KeyText(localDocs[j']) == KeyText(localDocs[j]);
    assert IdOf(localDocs[j']) == k;
    assert lm[key] == d;
  }

  /** A primary document that is not divergent, when JSON text tells it apart, is held by the mirror as it is. */
  lemma NotDivergentIsSame(m: map<Value, Doc>, localDocs: seq<Doc>, d: Doc)
    requires IsSnapshot(localDocs, m) && Separates([d], localDocs)
    requires !Divergent(LocalMap(localDocs), d)
    ensures IdOf(d) in m && m[IdOf(d)] == d
  {
    var lm := LocalMap(localDocs);
    LocalMapSpec(localDocs);
    var key := KeyText(d);
    var j :| 0 <= j < |localDocs| && KeyText(localDocs[j]) == key && localDocs[j] == lm[key];
    assert [d][0] == d;
    assert localDocs[j] == d;
  }

  /**
   * When key texts and JSON texts tell the documents apart, the loop's test
   * picks exactly the primary documents that the mirror lacks or holds
   * differently.
   */
  lemma DivergentMeansDifferent(m: map<Value, Doc>, localDocs: seq<Doc>, d: Doc)
    requires IsSnapshot(localDocs, m) && KeyTextsDistinct(localDocs) && Separates([d], localDocs)
    ensures Divergent(LocalMap(localDocs), d) <==> IdOf(d) !in m || m[IdOf(d)] != d
  {
    if IdOf(d) in m && m[IdOf(d)] == d {
      SameIsNotDivergent(m, localDocs, d);
    }
    if !Divergent(LocalMap(localDocs), d) {
      NotDivergentIsSame(m, localDocs, d);
    }
  }

  /** One more primary document: the fold takes one more step, and the count of divergent documents grows by one exactly when it is divergent. */
  lemma ReconcileSnoc(m: map<Value, Doc>, s: seq<Doc>, i: nat, lm: map<string, Doc>)
    requires i < |s|
    ensures Reconcile(m, s[..i + 1], lm)
      == if Divergent(lm, s[i]) then Reconcile(m, s[..i], lm)[IdOf(s[i]) := s[i]] else Reconcile(m, s[..i], lm)
    ensures |DivergentIndices(s[..i + 1], lm)|
      == |DivergentIndices(s[..i], lm)| + if Divergent(lm, s[i]) then 1 else 0
  {
    assert s[..i + 1] == s[..i] + [s[i]];
    assert s[..i + 1][..i] == s[..i];
    DivergentIndicesSnoc(s[..i], s[i], lm);
  }

  /** `initialSync(atlasCollection, localCollection)`. */
  method InitialSync(atlas: Collection, local: Collection)
    returns (syncedCount: nat, ghost atlasDocs: seq<Doc>, ghost localDocs: seq<Doc>)
    requires atlas.Valid() && local.Valid()
    modifies local
    ensures local.Valid()
    ensures IsSnapshot(atlasDocs, old(atlas.docs)) && IsSnapshot(localDocs, old(local.docs))
    ensures local.docs == Reconcile(old(local.docs), atlasDocs, LocalMap(localDocs))
    ensures syncedCount == |DivergentIndices(atlasDocs, LocalMap(localDocs))|
  {
    var fromAtlas := atlas.Find();
    var fromLocal := local.Find();
    atlasDocs, localDocs := fromAtlas, fromLocal;
    var localMap := LocalMap(fromLocal);
    syncedCount := 0;
    for i := 0 to |fromAtlas|
      invariant local.Valid()
      invariant local.docs == Reconcile(old(local.docs), fromAtlas[..i], localMap)
      invariant syncedCount == |DivergentIndices(fromAtlas[..i], localMap)|
    {
      var atlasDoc := fromAtlas[i];
      ReconcileSnoc(old(local.docs), fromAtlas, i, localMap);
      var key := KeyText(atlasDoc);
      if key !in localMap || Stringify(localMap[key]) != Stringify(atlasDoc) {
        var _ := local.ReplaceOne(IdOf(atlasDoc), Some(atlasDoc));
        syncedCount := syncedCount + 1;
      }
    }
    assert fromAtlas[..|fromAtlas|] == fromAtlas;
  }

  /**
   * As written, the test cannot tell an ObjectId from the string of its
   * hexadecimal digits: a mirror holding `{_id: "h"}` looks identical to a
   * primary `{_id: ObjectId("h")}`, so the primary document is never copied
   * and the mirror keeps lacking its `_id`, although no upsert is counted.
   */
  lemma StringIdMasksObjectId(h: string)
    ensures var mirrored := [Field("_id", Str(h))];
            var primary := [Field("_id", Oid(ObjectId(h)))];
            var m := map[Str(h) := mirrored];
            && IsSnapshot([mirrored], m)
            && !Divergent(LocalMap([mirrored]), primary)
            && Reconcile(m, [primary], LocalMap([mirrored])) == m
            && Oid(ObjectId(h)) !in Reconcile(m, [primary], LocalMap([mirrored]))
            && |DivergentIndices([primary], LocalMap([mirrored]))| == 0
  {
    var mirrored := [Field("_id", Str(h))];
    var primary := [Field("_id", Oid(ObjectId(h)))];
    var m := map[Str(h) := mirrored];
    assert IdOf(mirrored) == Str(h);
    assert IdOf(primary) == Oid(ObjectId(h));
    assert LocalMap([mirrored]) == map[] [h := mirrored];
    assert Stringify(mirrored) == [("_id", JStr(h))] == Stringify(primary);
    assert [primary][..0] == [];
    assert DivergentIndices([primary], LocalMap([mirrored])) == {};
  }

  /** The intended test: the mirror lacks the `_id`, or holds a document that is not the primary's. */
  predicate Differs(m: map<Value, Doc>, d: Doc) {
    IdOf(d) !in m || m[IdOf(d)] != d
  }

  /** The reconciler with documents compared as values, against the mirror as it was read. */
  function ReconcileByValue(m: map<Value, Doc>, s: seq<Doc>): map<Value, Doc>
    decreases |s|
  {
    if s == [] then m
    else
      var r := ReconcileByValue(m, s[..|s| - 1]);
      var d := s[|s| - 1];
      if Differs(m, d) then r[IdOf(d) := d] else r
  }

  /**
   * With documents compared as values, every primary `_id` ends up in the
   * mirror with the primary's document, whatever the `_id`s look like as
   * text, and a mirror-only `_id` is left as it was.
   */
  lemma {:induction false} ReconcileByValueConverges(m: map<Value, Doc>, s: seq<Doc>, k: Value)
    requires DistinctIds(s)
    ensures var r := ReconcileByValue(m, s);
            if exists i | 0 <= i < |s| :: IdOf(s[i]) == k then
              k in r && forall i | 0 <= i < |s| && IdOf(s[i]) == k :: r[k] == s[i]
            else
              (k in r <==> k in m) && (k in m ==> r[k] == m[k])
    decreases |s|
  {
    if s != [] {
      var init := s[..|s| - 1];
      var d := s[|s| - 1];
      assert forall i | 0 <= i < |init| :: init[i] == s[i];
      assert DistinctIds(init);
      ReconcileByValueConverges(m, init, k);
      if IdOf(d) == k {
        assert forall i | 0 <= i < |init| :: IdOf(init[i]) != k;
      }
    }
  }

  /**
   * Where the text of `_id`s and of documents tells the documents apart, the
   * reconciler as written and the one comparing values write the same mirror.
   */
  lemma {:induction false} ReconcileAgreesWhenSeparated(m: map<Value, Doc>, s: seq<Doc>, localDocs: seq<Doc>)
    requires IsSnapshot(localDocs, m) && KeyTextsDistinct(localDocs) && Separates(s, localDocs)
    ensures Reconcile(m, s, LocalMap(localDocs)) == ReconcileByValue(m, s)
    decreases |s|
  {
    if s != [] {
      var init := s[..|s| - 1];
      var d := s[|s| - 1];
      assert Separates(init, localDocs) by {
        forall i, j | 0 <= i < |init| && 0 <= j < |localDocs|
          ensures Stringify(localDocs[j]) == Stringify(init[i]) ==> localDocs[j] == init[i]
        {
          assert init[i] == s[i];
        }
      }
      assert Separates([d], localDocs) by {
        forall i, j | 0 <= i < 1 && 0 <= j < |localDocs|
          ensures Stringify(localDocs[j]) == Stringify([d][i]) ==> localDocs[j] == [d][i]
        {
          assert [d][i] == s[|s| - 1];
        }
      }
      ReconcileAgreesWhenSeparated(m, init, localDocs);
      DivergentMeansDifferent(m, localDocs, d);
    }
  }
}
