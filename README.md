# Atlas-to-local mirror engine and Data API request rewrites, in Dafny

This project models the core of `mongo-data-api`: the engine that keeps a
local MongoDB collection mirrored from a primary (Atlas) collection, and the
request rewrites of its Express "Data API" server.

The mirror engine has two parts.

- **Initial sync** (`initialSync`) reads both collections and looks each primary document up among the mirror's by `String(_id)`. A primary document that is missing there, or whose `JSON.stringify` text differs, is upserted with `replaceOne(..., { upsert: true })`, and those upserts are counted.
- **Change events** (`mirrorChangeToLocal`) then arrive one at a time. Each one becomes a single write to the mirror, chosen by its operation kind:
  - insert and replace upsert the full document;
  - update applies `$set` of the updated fields, with no upsert; the fields the update removed are not applied;
  - delete removes the document;
  - any other kind is only logged.

  An event whose handling throws is logged and skipped.

`data-api-server.js:13-50` holds the same two functions as `sync.js:17-55`,
character for character apart from one comment. The members below model both
copies, and the table cites `sync.js`.

The server rewrites requests before passing them to the driver:

- `normalizeIdInFilter` turns a filter's string `_id` into an ObjectId;
- `/insertOne` drops a truthy `_id` from the document;
- `/updateOne` and `/updateMany` drop a truthy `_id` from `$set`;
- `/updateMany` runs its updates in order and collects one result per update.

## How the model is built

- **Values and documents.** A document (`Documents.Doc`) is a sequence of named fields in property order, because `JSON.stringify` depends on that order. A field holds one of these scalar values: undefined, null, boolean, integer, string or ObjectId.
- **JavaScript behaviour.** `Documents.Get` is property lookup. `Documents.Truthy` is JavaScript truthiness. `Documents.KeyString` is `String(v)`. `Documents.Stringify` is `JSON.stringify`: an ObjectId serializes as its hexadecimal string, and undefined properties are dropped.
- **The store.** A collection is a map from `_id` to the stored document, which carries that `_id` as its own field (`Store.Keyed`). `Store.Collection` is a class over that map. Its methods `Find`, `ReplaceOne` (upsert), `InsertOne` and `DeleteOne` each state their effect through a function on the map or a predicate on the result (`Store.IsSnapshot`). `UpdateOne` states its effect through the relation `Store.UpdateOneStep`, because the store picks which matching document to update.
- **Nondeterminism.** `find` returns the documents in an order the store chooses. `updateOne` with a filter that matches several documents updates one of them chosen by the store; the relation `Store.UpdateOneStep` states what any such choice satisfies.
- **Imperative code stays imperative.** The change handler, the initial-sync loop, the event loop of `main` and the `/updateMany` loop are methods over a `Collection`. Each is proved against a function on the map (`ChangeStream.ApplyChange`, `ChangeStream.ApplyStream`, `Reconciler.Reconcile`, `Store.UpdateOneStep`). The properties are proved about those functions as lemmas.
- **Driver functions as parameters.** `ObjectId.isValid` and `new ObjectId(text)` are parameters (`isValid`, `toObjectId`). So is the ObjectId that `insertOne` generates (`generated`). None of them is interpreted.
- **The primary's history.** The change events are the record of what happened to the primary. An update event records both the fields it set and the fields it removed, so the primary moves by `Sync.StepWithUnset`, while the mirror moves by the handler's `ChangeStream.Step`.
- **Where the code differs from the system's design, the model follows the code:**
  - an update event for a key the mirror lacks changes nothing and raises no error, because `updateOne` succeeds with no match;
  - a failing upsert in the initial sync is not caught per document: it escapes `initialSync`;
  - nothing restarts the pipeline when the change stream ends: only a `'change'` listener is registered.

## Model

| member | source | states |
|---|---|---|
| Documents.Get | data-api-server.js:113 | property lookup: undefined when the name is absent, otherwise the value of a field with that name |
| Documents.GetUnique | data-api-server.js:113 | with distinct names, a lookup finds the field's own value |
| Documents.SetField | sync.js:24 | `$set` of one field: the field holds the new value, an existing field keeps its position, a new one is appended, every other field is unchanged |
| Documents.GetSetFields | sync.js:24 | after `$set` of an object, a field it names holds its value and a field it does not name keeps its old value |
| Documents.SetFieldsEstablishes | sync.js:24 | after `$set`, every field of the `$set` object holds its value |
| Documents.SetFieldsNoop | sync.js:24 | `$set` of values the document already holds changes nothing |
| Documents.SetFieldsIdempotent | sync.js:24 | applying the same `$set` twice is applying it once |
| Documents.RemoveField | data-api-server.js:151 | object rest without `_id`: the name is gone, every other name and its value is kept, and a document without the name is unchanged |
| Documents.RemoveFieldSplice | data-api-server.js:151 | with distinct names, removing a field is cutting it out of the sequence, so the other fields keep their order |
| Documents.RemoveFields | data-api-server.js:197 | `$unset` of a list of names: a name is present afterwards exactly when it was present and is not in the list, every other field keeps its value, and an empty list changes nothing |
| Documents.SetFields | sync.js:24 | `$set` of an object, field by field in the object's order; what it does is stated by `GetSetFields`, `SetFieldsEstablishes`, `SetFieldsNoop` and `SetFieldsIdempotent` |
| Documents.Truthy | data-api-server.js:149 | JavaScript truthiness of a scalar: false exactly for undefined, null, `false`, `0` and `""`; its consequences are stated by `DataApiServer.StripInsertId` and `DataApiServer.FalsyInsertIdIsKept` |
| Documents.KeyString | sync.js:42 | `String(v)`: a string is its own text and an ObjectId is its hexadecimal text, so the two collide; the collision is stated by `Reconciler.StringIdMasksObjectId` |
| Documents.ToJson | sync.js:47 | the JSON value of a scalar, with an ObjectId written as its hexadecimal string; `SameJson` states when two values serialize alike |
| Documents.Stringify | sync.js:47 | `JSON.stringify` of a document: at most one member per field; `StringifyEqual` states when two documents have the same text |
| Documents.SameJson | sync.js:47 | two defined values serialize alike exactly when they are equal, or one is an ObjectId and the other is the string of its hexadecimal text |
| Documents.StringifyEqual | sync.js:47 | two documents have the same JSON text exactly when they have the same names in the same order and pairwise identically serialized values |
| Store.ReplaceOneUpsert | sync.js:20 | `replaceOne({_id: k}, doc, {upsert: true})`: refused when the document is missing or names another `_id`; otherwise `k` maps to the document, with `_id` put first when the document has none, the key set grows by `k` only, the other keys are unchanged, and every stored document still carries its key |
| Store.Insert | data-api-server.js:154 | `insertOne`: a document with no `_id`, or a `null` one, is stored under the generated ObjectId, any other `_id` is kept, a taken `_id` is refused, and a missing document is refused; the stored document has `_id` first, then the document's other fields in their order; nothing else changes |
| Store.ApplyOperators | data-api-server.js:197 | the operators in order keep the document's `_id`; they are refused, with the immutable-field error, exactly when some `$set` would change `_id` or some `$unset` names it |
| Store.ApplyUpdate | data-api-server.js:197 | an update that is empty, or whose first property is not an operator, is refused as invalid; otherwise it keeps the document's `_id` and is refused, with the immutable-field error, exactly when some operator would change `_id` |
| Store.ApplySetOnly | sync.js:24 | `{$set: fs}` writes the fields of `fs` and nothing else, or is refused when it would change `_id` |
| Store.UpdateById | sync.js:24 | `updateOne({_id: k}, u)` without upsert: an update without operators is refused; otherwise an absent key leaves the collection as it was, and a present one is the only key that changes, with the key set kept |
| Store.Matches | data-api-server.js:197 | a flat filter: a document matches when each filter field equals the document's field of that name; `DataApiServer.NormalizedFilterMatches` and `Store.UpdateByIdFilter` state what it selects |
| Store.UpdateOneStep | data-api-server.js:197 | `updateOne(filter, update)`: a missing filter or update, or an update without operators, is an error and changes nothing; no match changes nothing and reports zero; otherwise the store updates one matching document of its choice |
| Store.UpdateByIdFilter | sync.js:24 | with the filter `{_id: k}`, whatever document the store may pick, the result is the update of the document at `k` |
| Store.ListedSnapshot | sync.js:38-41 | the documents at a covering list of distinct keys form a snapshot of the collection |
| Store.Collection.Find | sync.js:39-40 | `find({}).toArray()` returns every document exactly once, in some order |
| Store.Collection.ReplaceOne | sync.js:20 | the collection becomes what `ReplaceOneUpsert` gives, or stays as it was on an error |
| Store.Collection.UpdateOne | data-api-server.js:197 | the store moves as `UpdateOneStep` allows: a missing filter or update, or one without operators, is an error, no match changes nothing, otherwise one matching document is updated |
| Store.Collection.InsertOne | data-api-server.js:154 | the collection becomes what `Insert` gives, and the inserted `_id` is returned |
| Store.Collection.DeleteOne | sync.js:28 | `deleteOne({_id: k})`: `k` is gone, nothing else changes, and deleting a missing key is not an error |
| ChangeStream.ApplyChange | sync.js:17-34 | one event: without a document key it fails; otherwise at most the key `k` changes and every stored document still carries its key; insert or replace whose full document carries `k` leaves `k` mapped to exactly that document, present before or not; update of an absent key leaves the mirror unchanged (no upsert) and any update keeps the key set; after a delete `k` is absent, and deleting an absent key changes nothing; any other operation type changes nothing |
| ChangeStream.Step | sync.js:92-96 | the handler's `try`/`catch`: an event whose handling throws leaves the mirror as it was; `FaultIsolation` states what that means for a stream |
| ChangeStream.ApplyStream | sync.js:91-97 | the events of the stream applied one at a time in order; `ApplyStreamAppend` states the order |
| ChangeStream.UpdateEventEffect | sync.js:23-24 | update of a present key: every updated field has its new value and every other field of the document keeps its old one |
| ChangeStream.UpsertIdempotent | sync.js:20 | repeating an upsert that succeeded changes nothing |
| ChangeStream.UpdateIdempotent | sync.js:24 | repeating a `$set` by `_id` that succeeded changes nothing |
| ChangeStream.StepIdempotent | sync.js:19-32 | applying any event twice in a row leaves the same mirror as applying it once |
| ChangeStream.ApplyStreamAppend | sync.js:91-96 | events are applied in stream order: two stretches in a row are their concatenation |
| ChangeStream.FaultIsolation | sync.js:91-96 | an event that throws, or of a kind not handled, changes nothing, and later events are applied as if it had not been there |
| ChangeStream.LaterUpdateWins | sync.js:91-96 | of two updates of the same key, the later value of a field is the one left; on an absent key both change nothing |
| ChangeStream.InsertThenDelete | sync.js:91-96 | an insert then a delete of the same key leave the key absent and the rest as it was |
| ChangeStream.MirrorChangeToLocal | sync.js:17-34 | the handler writes exactly what `ApplyChange` gives, or leaves the mirror as it was and reports the error |
| ChangeStream.MirrorStream | sync.js:90-97 | the `'change'` handler leaves the mirror at `ApplyStream` of the events, in order |
| Reconciler.LocalMap | sync.js:42 | `new Map(localDocs.map(...))` keyed by `String(_id)`; what it holds is stated by `LocalMapSpec` and `LocalMapLast` |
| Reconciler.Divergent | sync.js:45-47 | a primary document with no mirror document under its key text, or one with different JSON text; `DivergentMeansDifferent` states when that is a real difference |
| Reconciler.Reconcile | sync.js:44-53 | the loop of `initialSync` as a fold over the primary snapshot; its effect is stated by `ReconcileEffect`, `ReconcileConverges` and `ReconcileKeepsMirrorOnly` |
| Reconciler.LocalMapSpec | sync.js:42 | the lookup holds every mirror document's key text, and each entry is a mirror document with that key text |
| Reconciler.LocalMapLast | sync.js:42 | of mirror documents with the same key text, the last one is the one looked up |
| Reconciler.SyncedCountBound | sync.js:43-50 | `0 <= syncedCount <= |atlasDocs|` |
| Reconciler.ReconcileSnoc | sync.js:44-52 | one more primary document: it is upserted, and counted, exactly when it is divergent |
| Reconciler.ReconcileWrites | sync.js:47-48 | a divergent primary document is in the mirror afterwards, exactly as it is |
| Reconciler.ReconcileKeeps | sync.js:44-53 | an `_id` that no divergent primary document carries keeps the mirror's document, or stays absent |
| Reconciler.ReconcileEffect | sync.js:44-53 | a divergent primary document is written as it is; every other `_id`, primary or mirror-only, is left untouched: there is no deletion pass |
| Reconciler.ReconcileConverges | sync.js:42-53 | when JSON text tells the documents apart, every primary `_id` ends up in the mirror with the primary's document |
| Reconciler.ReconcileKeepsMirrorOnly | sync.js:42-53 | a key that only the mirror holds is neither removed nor changed |
| Reconciler.DivergentMeansDifferent | sync.js:45-47 | when key texts and JSON texts tell the documents apart, a primary document is divergent exactly when the mirror lacks its `_id` or holds a different document there |
| Reconciler.InitialSync | sync.js:36-55 | the mirror ends as `Reconcile` of the two snapshots, and `syncedCount` is the number of divergent primary documents |
| Reconciler.StringIdMasksObjectId | sync.js:45-47 | as written: a mirror holding `{_id: "h"}` hides a primary `{_id: ObjectId("h")}`, which is then neither copied nor counted |
| Reconciler.ReconcileByValue | sync.js:44-53 | corrected: the same loop comparing documents as values, under their own `_id`; its effect is stated by `ReconcileByValueConverges` |
| Reconciler.ReconcileByValueConverges | sync.js:42-53 | corrected: comparing documents as values, every primary `_id` gets the primary's document and mirror-only keys are untouched, whatever the ids look like as text |
| Reconciler.ReconcileAgreesWhenSeparated | sync.js:45-47 | where the texts tell the documents apart, the sync as written and the corrected one write the same mirror |
| Sync.UnsetArgument | sync.js:24 | the `$unset` argument for a list of removed names names exactly those names, in order |
| Sync.ApplySetUnset | sync.js:24 | `{$set: fs, $unset: removed}` writes `fs` and then drops the removed names, or is refused when it would change or remove `_id` |
| Sync.StepWithUnset | sync.js:23-24 | an update event as it happened to the primary: both its updated fields and its removed fields; every other event as the handler applies it |
| Sync.ApplyStreamWithUnset | sync.js:90-97 | the primary's history: the events applied one at a time in order, each with its removed fields |
| Sync.NoRemovalsStep | sync.js:23-24 | an event that removes no field is applied by the handler in full |
| Sync.UpsertKeepsAgreement | sync.js:20 | the same upsert on two agreeing collections succeeds on both or on neither, and they still agree |
| Sync.UpdateKeepsAgreement | sync.js:24 | the same update by `_id` on two agreeing collections keeps them agreeing, whichever of them it fails on |
| Sync.HandlerStepKeepsAgreement | sync.js:91-96 | two collections that agree still agree after the handler applies the same event to both |
| Sync.StepKeepsAgreement | sync.js:91-96 | if the mirror holds every primary document, it still does after an event that removes no field happens to the primary and is applied to the mirror |
| Sync.StreamKeepsAgreement | sync.js:90-97 | ... and after any stream of such events |
| Sync.RemovedFieldSurvives | sync.js:23-24 | as written: an update that removes field `f` leaves `f` in the mirror, so the mirror no longer holds the primary's document |
| Sync.CorrectedStepKeepsAgreement | sync.js:23-24 | corrected: a handler that also applies the removed fields keeps the mirror in agreement after any event |
| Sync.CorrectedStreamKeepsAgreement | sync.js:90-97 | ... and after any stream of events |
| Sync.InitialSyncAgrees | sync.js:86 | where JSON text tells the documents apart, the initial sync leaves every primary document in the mirror |
| Sync.InitialSyncByValueAgrees | sync.js:86 | with documents compared as values, this holds without that condition |
| Sync.MirrorTracksPrimary | sync.js:85-97 | where JSON text tells the documents apart, after the initial sync and any later stream of events that remove no field, the mirror holds every document of the primary |
| Sync.CorrectedMirrorTracksPrimary | sync.js:85-97 | corrected: comparing documents as values and applying removed fields, the mirror holds every document of the primary after the initial sync and any later stream |
| Sync.Run | sync.js:85-97 | `main` leaves the mirror at the stream applied to the reconciled snapshot |
| DataApiServer.NormalizeIdInFilter | data-api-server.js:110-121 | a missing filter is returned missing; a filter whose `_id` is a valid ObjectId string becomes one with the same names in the same order, `_id` holding the ObjectId, and every other field as it was; any other filter is returned as it is |
| DataApiServer.NormalizeIdempotent | data-api-server.js:110-121 | normalizing a normalized filter changes nothing |
| DataApiServer.StringIdMissesObjectIds | data-api-server.js:112-118 | why the rewrite exists: a filter with a string `_id` never matches a document whose `_id` is an ObjectId |
| DataApiServer.NormalizedFilterMatches | data-api-server.js:112-118 | the normalized filter matches exactly the documents whose `_id` is the converted ObjectId and that agree with its other fields |
| DataApiServer.UpdateByObjectIdText | data-api-server.js:189-197 | `updateOne({_id: text})` with a valid ObjectId text updates the document stored under that ObjectId |
| DataApiServer.StripInsertId | data-api-server.js:148-153 | a document with a truthy `_id` loses it and keeps every other field; a missing document, or one whose `_id` is falsy, is passed on unchanged |
| DataApiServer.StripInsertIdKeepsOrder | data-api-server.js:151-152 | the other fields keep their order |
| DataApiServer.InsertWithTruthyIdGenerates | data-api-server.js:148-154 | a document sent with a truthy `_id` is stored under the generated ObjectId |
| DataApiServer.FalsyInsertIdIsKept | data-api-server.js:149 | as written: a document with `_id: ""` keeps it, is stored under `""`, and a second such document is refused as a duplicate |
| DataApiServer.StripInsertIdAlways | data-api-server.js:148-153 | corrected: any `_id` is removed from a present document, every other field is kept, and a document without `_id` is passed on unchanged |
| DataApiServer.InsertAlwaysGenerates | data-api-server.js:148-154 | corrected: removing any `_id`, every inserted document gets the generated ObjectId and keeps its other fields |
| DataApiServer.InsertOneRoute | data-api-server.js:148-156 | `/insertOne` stores what `Insert` gives for the stripped document and returns the inserted `_id` |
| DataApiServer.SetArgument | data-api-server.js:192 | `update.$set` is the argument of a `$set` operator, present exactly when the update has one |
| DataApiServer.StripSetId | data-api-server.js:192-196 | when `update.$set._id` is truthy, `$set` loses `_id` and keeps its other fields, and every other operator is kept; otherwise the update is unchanged |
| DataApiServer.NoSetIdKeepsId | data-api-server.js:192-197 | an update with no `_id` in any `$set` is accepted exactly when it has operators and no `$unset` names `_id` |
| DataApiServer.StrippedUpdateKeepsId | data-api-server.js:192-196 | after stripping, the update is never refused for its `$set`: it is accepted exactly when it has operators and no `$unset` names `_id` |
| DataApiServer.FalsySetIdIsRefused | data-api-server.js:192 | as written: `$set: {_id: ""}` is passed on, and the store refuses it for changing the document's `_id` |
| DataApiServer.StripSetIdAlways | data-api-server.js:192-196 | corrected: every `$set` loses `_id` and keeps its other fields, every other operator is kept, and an update with no `_id` in `$set` is passed on unchanged |
| DataApiServer.StrippedAlwaysKeepsId | data-api-server.js:192-196 | corrected: removing any `_id` from `$set`, no update is refused for its `$set`: it is accepted exactly when it has operators and no `$unset` names `_id` |
| DataApiServer.UpdateOneRoute | data-api-server.js:189-197 | `/updateOne` moves the store as `UpdateOneStep` allows for the normalized filter and the stripped update |
| DataApiServer.UpdateMany | data-api-server.js:214-229 | the updates run in input order, each rewritten as in `/updateOne`; all succeed with one result per update, in order, or the first failure is the answer and the updates before it stay applied |

## Left out

- The connection and environment plumbing (`MongoClient`, URIs and database names from the environment, the lazily connected global client): this is configuration and I/O.
- `showAllDocs` and every log line, with their timestamps: they only observe.
- Express routing, CORS, JSON bodies, status codes, `getCollection` by name, `/ensureCollection`, `/find`, and `/deleteOne` beyond its filter rewrite: this is HTTP plumbing. `/find` and `/deleteOne` apply the same `NormalizeIdInFilter`.
- Concurrency:
  - the two snapshot reads of `Promise.all` are two reads in sequence;
  - the change handler is not awaited between events, so real runs may interleave writes; the model applies events one at a time, in order;
  - the change stream is opened only after the initial sync, so changes made during the sync are not seen by the engine; the model's stream starts after the sync.
- Store I/O errors (unreachable server, timeouts): the model's store fails only for the reasons it names. So a failing upsert during the initial sync, which would end `main` (or be caught by `startAtlasSync` in the server copy), is not modelled.
- Nested values, arrays, dotted paths in `$set`, update operators other than `$set` and `$unset` (the store skips them, where MongoDB refuses an unknown one), and MongoDB's matching of arbitrary filters: filters are flat field equality, and a `null` filter value does not match a missing field.
- Store.ApplyOperators: does not refuse a `$set` and an `$unset` of the same field in one update, which MongoDB refuses as a conflict; it applies them in order.
- SetFields: appends the new fields of a `$set` in the order of the `$set` object, as MongoDB did before version 5.0; from 5.0 on, the server adds them in order of their names. This only changes where new fields sit, and so the `JSON.stringify` text of the document. Sorting field names is not modelled.
- Floating-point numbers and the ordering JavaScript gives integer-like property names: numbers are integers, and properties keep the order of the sequence.
- `updateDescription.truncatedArrays` of update events: arrays are not modelled. The handler does not read `removedFields` either; the model records them in `ChangeEvent.removedFields` and takes them into the primary's history (see Findings).
- `Store.ReplaceOneUpsert`: keeps the replacement's field order when it carries its `_id`, whereas the server moves `_id` to the front.
- An `/updateMany` element that is not an object, or an `updates` value that is not an array: only a missing `updates` is modelled, as an error.
- `google-apps-script.js` is not part of this model; it is spreadsheet UI and HTTP calls. It is used only to show that blank `_id` cells reach the server (see Findings).

## Findings

| source | as written | input that shows it | evidently intended | confidence | as-written member | corrected member |
|---|---|---|---|---|---|---|
| sync.js:45-47 | documents are compared by `String(_id)` and `JSON.stringify`, and both write an ObjectId as its hexadecimal string | mirror `{_id: "h"}`, primary `{_id: ObjectId("h")}` | to copy every primary document the mirror does not hold | low, not executed | Reconciler.StringIdMasksObjectId | Reconciler.ReconcileByValueConverges |
| sync.js:23-24 | an update event is mirrored as `$set` of `updatedFields` only; `updateDescription.removedFields` is never read | a primary `{_id: k, f: 1}` on which `$unset: {f: ""}` runs: the event has `updatedFields: {}` and `removedFields: ["f"]`, and the mirror keeps `f` | to keep the mirror holding the primary's documents | medium, not executed | Sync.RemovedFieldSurvives | Sync.CorrectedMirrorTracksPrimary |
| data-api-server.js:149 | `_id` is removed only when it is truthy | `{_id: "", name: "x"}`, as sent for a blank `_id` cell by google-apps-script.js:40-52 | the comment says MongoDB should generate the `_id` | medium, not executed | DataApiServer.FalsyInsertIdIsKept | DataApiServer.InsertAlwaysGenerates |
| data-api-server.js:192 | `_id` is removed from `$set` only when it is truthy, here and again at data-api-server.js:219 | `$set: {_id: "", name: "x"}` on a document whose `_id` is an ObjectId | the comment says to avoid the immutable-field error | medium, not executed | DataApiServer.FalsySetIdIsRefused | DataApiServer.StrippedAlwaysKeepsId |

The routes and the handler model the code as written. The corrected sync is `Reconciler.ReconcileByValue`, and `Sync.InitialSyncByValueAgrees` states what it guarantees. The corrected handler applies events by `Sync.StepWithUnset`, and `Sync.CorrectedMirrorTracksPrimary` states what both corrections give together. The corrected rewrites are `DataApiServer.StripInsertIdAlways` and `DataApiServer.StripSetIdAlways`.
