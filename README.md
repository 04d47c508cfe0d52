# Denormalized views, modelled in Dafny

This is a model of the Meteor package `denormalized-views`. An application
registers a *view*: a `sourceCollection`, a `viewCollection` and a `sync`
object of functions. The package keeps the view collection a processed copy
of the source collection by hooking the source's inserts, updates and removes.

Processing a document runs every `sync` function and then every `postSync`
function on it. What each function returns is stored under the property's
name. A result that is falsy and not `0` deletes the property, and the view
document gets a `$unset` for it. `pick` then restricts the document to the
listed keys.

A spec can also name *related* collections (`refreshByCollection`). A write
to one of those asks `refreshIds` which view documents to recompute.
`refreshManually` and `refreshAll` recompute on demand.

## Modules

The modules follow the source:

- `Values` (values.dfy) holds JavaScript values, truthiness and `typeof`.
- `Tools` (tools.dfy) holds `extend` from tools.js. `Tools.Extend` is the
  in-place method, over the `Tools.JsObject` class. It is proved equal to
  the function `ExtendAll`, and the lemmas are about that function.
- `Storage` (storage.dfy) is the database. Each collection is a map from
  `_id` to a document. The writes the package issues are map operations.
- `Registry` (registry.dfy) has the spec, binding and error datatypes, the
  validations of `addView` and `refreshByCollection`, and the lookup
  `_getExistingSyncronisation`.
- `Processing` (processing.dfy) gives `_processDoc` as the function
  `Process`, plus the filter check and the `refreshIds` check.
- `Propagation` (propagation.dfy) gives every hook and refresh path as a
  function from the state before to the state after. These functions also
  cover the `postHook` calls and how collection-hooks dispatches one write
  to the hooks registered on its collection.
- `Engine` (denormalized_views.dfy) has the class `DenormalizedViews`. Its
  fields are the global `SyncronisationStore`, the registered hooks, the
  database and the `postHook` calls.
  - Each source procedure is a method with its own loops.
  - Each method is proved to end in exactly the state the `Propagation` or
    `Processing` function gives.
  - The properties are proved as lemmas about those functions.

## Where the code and its documentation differ

The model follows the code, not the comments or the README's prose:

- `extend` overwrites. Its comment says "without overwriting", but a later
  argument's non-object value replaces the earlier one
  (`Tools.ExtendLastWins`).
- On insert, a document that fails the filter is removed from the view.
  Neither the insert hook nor the update hook calls `postHook` for such a
  document.
- The `$unset` writes of `_processDoc` are issued while it runs. A later
  error leaves them in place.
- `pick` drops `_id` unless `_id` is listed in it (`Processing.PickDropsId`).
- The tests call `addSyncronisation`, which the source does not define.
  `Engine.DenormalizedViews.AddView` is that operation.

## Model

| member | source | states |
|---|---|---|
| Values.Truthy | denormalized-views.js:335 | a value is truthy exactly when it is not `undefined`, `null`, `false`, `0` or `""`; every array and object is truthy |
| Values.IsObjectType | tools.js:22 | `typeof v === 'object'` holds exactly for `null`, arrays and objects, not for `undefined`, booleans, numbers or strings |
| Values.IsStringArray | denormalized-views.js:477 | `Match.test(v, [String])` holds exactly for an array all of whose elements are strings |
| Tools.Merge | tools.js:21-29 | one pass of the outer loop deletes no property of `target`; an argument that is neither an object nor an array (a primitive, `undefined` or `null`) changes nothing |
| Tools.ExtendAll | tools.js:19-32 | `extend` deletes no property of `target`; when no argument is an object or an array, the target is unchanged |
| Tools.Extend | tools.js:19-32 | `extend(target, args...)` returns `target` itself, whose properties become `ExtendAll(old properties, args)` |
| Tools.MergeInto | tools.js:21-29 | one argument whose `typeof` is 'object': every own property is assigned, giving `Merge(old, from)` |
| Tools.AssignProperty | tools.js:25-27 | `target[j]` becomes the value itself, or a fresh `extend({}, target[j], value)` for an object-typed value; no other property changes |
| Tools.NestedExtend | tools.js:25-27 | the value assigned for an object-typed `from[j]` is exactly the result of the nested call `extend({}, target[j], from[j])` |
| Tools.MergeIntoFreshIsCopy | tools.js:26 | merging a value into a fresh `{}` copies its own properties, recursively |
| Tools.ExtendSkipsNonObjects | tools.js:22 | an argument that is not of type 'object' has no effect, wherever it stands |
| Tools.ExtendKeepsUntouched | tools.js:20-30 | a property that no argument has keeps its value |
| Tools.ExtendKeys | tools.js:20-30 | the result has a property exactly when the target or some argument has it (both directions) |
| Tools.ExtendLastWins | tools.js:23-28 | the last argument with a property decides it: a non-object value overwrites; an object-typed one becomes `extend({}, previous, value)` |
| Tools.MergeBounded | tools.js:23-29 | merging an argument into `target` nests no deeper than the target and the argument, so every later recursive call stays within the bound |
| Tools.ValueIsBounded | tools.js:26 | every value has finite nesting depth, so the recursion terminates and `Extend`'s depth bound can always be met |
| Storage.FindOne | denormalized-views.js:258 | `findOne(id)` finds a document exactly when the collection holds `id`; it is the stored document: it carries `_id == id` and every other field exactly as stored |
| Storage.FreshId | denormalized-views.js:83 | the id given to a document inserted without `_id` is held by no document of the collection |
| Storage.Insert | denormalized-views.js:83 | an insert fails exactly when the document's own id is taken; otherwise the document is stored under its id, or under a fresh one when it has none, the collection grows by one and nothing else changes |
| Storage.Upsert | denormalized-views.js:103-107 | the collection's ids become the old ones plus the selected id; an `undefined` selector adds a fresh id, so the collection grows by one; other collections are unchanged |
| Storage.SetFields | denormalized-views.js:431 | the collection keeps its ids; an `undefined` selector, or one that selects no document, changes nothing; other collections are unchanged |
| Storage.Unset | denormalized-views.js:503 | the selected document loses the property and keeps every other field; other documents and collections are unchanged |
| Storage.Remove | denormalized-views.js:120 | the selected id is gone; every other document and every other collection is unchanged |
| Storage.Clear | denormalized-views.js:251 | `remove({})` empties the collection; other collections are unchanged |
| Storage.Apply | denormalized-views.js:515-535 | a command fails exactly when it is an insert whose document's own id is taken, and it then reports that id |
| Storage.UpsertHoldsFields | denormalized-views.js:103-107 | after an upsert the document exists even if it did not before; it holds every field set, keeps its other fields, and other documents are unchanged |
| Storage.SetFieldsCreatesNothing | denormalized-views.js:431 | a `$set` without upsert creates no document, changes only the selected one, and sets every given field there |
| Storage.ApplyTouchesOneCollection | denormalized-views.js:515-535 | every database command the engine issues changes only its own collection |
| Registry.GetExistingSyncronisation | denormalized-views.js:441-449 | a spec is found exactly when one has the identifier; the spec found has it, and it is the first one in the store |
| Registry.CheckNewView | denormalized-views.js:48-63 | `addView` accepts exactly a new identifier, different collections, non-empty `sync` and a new (source, view) pair; each error is raised exactly when its check is the first to fail |
| Registry.CheckBinding | denormalized-views.js:144-154 | an unregistered identifier is rejected first; otherwise a related collection equal to the spec's source or view is rejected; nothing else is |
| Registry.AddViewKeepsRegistryValid | denormalized-views.js:48-66 | pushing an accepted spec keeps identifiers unique, collections distinct, `sync` non-empty and (source, view) pairs unique; the new identifier then finds that spec |
| Registry.LookupIsUnique | denormalized-views.js:441-449 | in a valid store, looking up any spec's identifier finds that very spec |
| Processing.ValidateRefreshIds | denormalized-views.js:474-481 | `refreshIds` may return an array of strings or `undefined` and nothing else; the value is passed on unchanged; any other value is the error |
| Processing.Keeps | denormalized-views.js:335 | a computed value is stored exactly when it is not `undefined`, `null`, `false` or `""`; `0` and every array are kept |
| Processing.Step | denormalized-views.js:325-344 | after an error nothing changes; an iteration without error met a function; only the view is written and it keeps its ids |
| Processing.Run | denormalized-views.js:325-369 | a run that ends without error started without one; only the view is written, and no view document is created or removed |
| Processing.Process | denormalized-views.js:309-381 | the result is part of the processed document, with the same values; only the view is written, and no view document is created or removed; `pick` without `postSync` always throws |
| Processing.IsDocValidToBeProcessed | denormalized-views.js:277-290 | without a filter every document passes; a filter result of exactly `false` filters it out; a truthy result and the other falsy results `undefined`, `null`, `0` and `""` let it through |
| Processing.FailureSticks | denormalized-views.js:327-329 | once a property throws, no later property of either loop runs |
| Processing.ErrorEndsRun | denormalized-views.js:351-353 | an error at one property is the outcome of the whole loop run |
| Processing.RunAppend | denormalized-views.js:323-369 | running `sync` and then `postSync` is one run over both, in that order |
| Processing.RunUntouched | denormalized-views.js:325-369 | a property that neither loop names keeps its presence and value |
| Processing.RunKeepsExactly | denormalized-views.js:333-343 | for the last slot carrying a name, the property ends up in the document exactly when the value computed there is kept, and then holds that value |
| Processing.RunUnsetsOnly | denormalized-views.js:337-343 | the loops' writes touch only the view document with the doc's id, and only by removing properties: those no slot names stay, those dropped from the document are gone, and with distinct names the kept ones stay; no other collection changes |
| Processing.StepUnsetsDropped | denormalized-views.js:337-343 | one iteration keeps that description of the view, with its own property added to the names |
| Processing.LaterSlotsSeeKeptValues | denormalized-views.js:357 | every later function, up to the next slot of the same name, is called on a document that holds the value a slot kept, and lacks it when the slot dropped it |
| Processing.RunWellFormedSucceeds | denormalized-views.js:325-369 | when all properties are functions and none is `_id`, none of the engine's own checks in the loops throws and the document keeps its id |
| Processing.ProcessSucceeds | denormalized-views.js:309-381 | a well-formed spec processes every document that has an id without any of `_processDoc`'s own errors |
| Processing.PickBound | denormalized-views.js:372-380 | without `pick` the result is the processed document; with it, exactly its keys in `pick ∪ keys(sync) ∪ keys(postSync)`, with their values |
| Processing.ProcessKeepsId | denormalized-views.js:372-378 | with no `pick`, or one listing `_id`, the result keeps the document's id |
| Processing.PickDropsId | denormalized-views.js:372-378 | a `pick` that does not list `_id` drops the id from the result |
| Processing.ProcessUnsetsOnly | denormalized-views.js:338-343 | `_processDoc`'s writes only remove properties from the view document with the doc's id: the dropped ones go, unnamed ones stay, and with distinct names the kept ones stay; nothing else in the database changes |
| Processing.ProcessTouchesOnlyItsId | denormalized-views.js:338-343 | processing a document changes no other view document, and changes nothing when the view lacks its id |
| Processing.RunIgnoresView | denormalized-views.js:333 | functions that do not read the view compute the same run whatever the view holds |
| Processing.ProcessIgnoresView | denormalized-views.js:309-381 | when the spec's functions do not read the view, processing succeeds or fails, and produces the same documents, whatever the view holds |
| Propagation.CallPostHookIfExists | denormalized-views.js:295-300 | the database is untouched; exactly one call (identifier, document, user) is appended when the spec has a `postHook`, and none otherwise |
| Propagation.RemoveDocFromViewCollectionIfExists | denormalized-views.js:386-394 | the view no longer holds the document's id; a document without id removes nothing; other collections are unchanged |
| Propagation.AfterSourceInsert | denormalized-views.js:70-90 | only the view is written; `postHook` calls are only appended, and none when the hook throws |
| Propagation.AfterSourceUpdate | denormalized-views.js:92-114 | only the view is written; `postHook` calls are only appended, and none when the hook throws |
| Propagation.AfterSourceRemove | denormalized-views.js:116-123 | raises no error of the engine's own; only the view is written; `postHook` calls are only appended |
| Propagation.FilteredOutLeavesNoViewDoc | denormalized-views.js:86-89 | a document whose filter returns `false` is removed from the view on insert and on update, succeeds, changes no other document and calls no `postHook` |
| Propagation.InsertedDocIsInView | denormalized-views.js:70-85 | an accepted insert fails exactly on a duplicate id; otherwise the view holds the processed document under the id, nothing else changes, and `postHook` gets the mutated document |
| Propagation.UpdatedDocHoldsProcessedFields | denormalized-views.js:92-109 | an accepted update upserts: the view document exists afterwards, holds every processed field, loses the dropped properties, keeps its other fields; `postHook` is called |
| Propagation.RemovedDocLeavesView | denormalized-views.js:116-123 | a remove deletes the id from the view, leaves other view documents and collections alone, and calls `postHook` with the removed document |
| Propagation.RelatedHookValidatesIds | denormalized-views.js:158-206 | a related hook throws without writing on an invalid `refreshIds` result; does nothing for `undefined` or `[]`; otherwise refreshes exactly those ids |
| Propagation.RefreshEach | denormalized-views.js:417-433 | once an id throws, the remaining ids change nothing; a loop without error started without one |
| Propagation.RefreshStep | denormalized-views.js:418-432 | an earlier error sticks; the iteration succeeds only when the source holds the id; the view keeps its ids and other collections are unchanged |
| Propagation.UpdateIds | denormalized-views.js:405-434 | calls no `postHook`; an unregistered identifier throws and writes nothing |
| Propagation.RefreshManually | denormalized-views.js:218-233 | calls no `postHook`; no ids do nothing; otherwise it is exactly `_updateIds` |
| Propagation.AfterRelatedChange | denormalized-views.js:158-206 | calls no `postHook`; the state changes only when `refreshIds` returned a non-empty array of strings |
| Propagation.UpdateIdsTouchesOnlyListedIds | denormalized-views.js:414-433 | `_updateIds` throws exactly at the first id the source lacks; it creates and removes no view document, changes only listed ones and no other collection, and calls no `postHook` |
| Propagation.RefreshEachInvariant | denormalized-views.js:417-433 | the invariant of `_updateIds`'s loop: view keys unchanged, unlisted documents unchanged, an error exactly when an id is missing |
| Propagation.RefreshStepKeepsInvariant | denormalized-views.js:417-433 | one more iteration keeps the loop invariant |
| Propagation.RefreshCurrent | denormalized-views.js:424-431 | the iteration for an id held by source and view refreshes that view document: it holds every field of the processed result, lacks the dropped properties, keeps its other fields and gains no others |
| Propagation.RefreshStepRefreshes | denormalized-views.js:417-433 | a successful iteration refreshes its id and leaves the documents refreshed earlier as they were |
| Propagation.RefreshEachRefreshes | denormalized-views.js:417-433 | after a loop that does not throw, every listed view document is refreshed from its processed source document |
| Propagation.UpdateIdsRefreshesListedIds | denormalized-views.js:405-434 | when `_updateIds` does not throw, the view keeps its ids, every listed view document is refreshed from its processed source document, and the others are unchanged |
| Propagation.RefreshManuallyNeedsIds | denormalized-views.js:227-232 | `refreshManually` with no ids does nothing, even for an unknown identifier; with ids an unknown identifier throws |
| Propagation.UnknownIdentifierWritesNothing | denormalized-views.js:247-248 | `_updateIds` and `refreshAll` with an unregistered identifier throw before any write |
| Propagation.RebuildEach | denormalized-views.js:257-266 | once an id throws, the remaining ids change nothing; a loop without error started without one |
| Propagation.RebuildStep | denormalized-views.js:257-266 | an earlier error sticks; the iteration succeeds only when the source holds the id, and then the view gains ids; other collections are unchanged |
| Propagation.RefreshAll | denormalized-views.js:244-268 | calls no `postHook`; an unregistered identifier throws and writes nothing |
| Propagation.RebuildStepRebuilds | denormalized-views.js:257-266 | inserting one more source id the view lacks keeps the view exactly the processed source documents of the ids inserted so far |
| Propagation.RebuildEachRebuilds | denormalized-views.js:257-266 | after inserting distinct source ids into the emptied view, it holds exactly those ids, each with its processed source document |
| Propagation.RefreshAllRebuildsView | denormalized-views.js:244-268 | after `refreshAll` the view holds exactly the source's ids, each the processed source document, whatever the filter says; nothing else changes; no `postHook` runs |
| Propagation.RefreshStopsAtError | denormalized-views.js:419-423 | once `_updateIds` throws, the remaining ids are not refreshed |
| Propagation.RebuildStopsAtError | denormalized-views.js:257-266 | once `refreshAll`'s loop throws, the remaining ids are not inserted |
| Propagation.RunHook | denormalized-views.js:68-206 | a hook only appends `postHook` calls |
| Propagation.Dispatch | denormalized-views.js:68-123 | dispatching a write only appends `postHook` calls |
| Propagation.DispatchIgnoresOtherCollections | denormalized-views.js:70 | a write to a collection runs none of the hooks registered on other collections |
| Propagation.DispatchStopsAtError | denormalized-views.js:68-123 | once a hook throws, the hooks registered after it do not run for that write |
| Engine.DenormalizedViews.constructor | denormalized-views.js:23-24 | the store starts empty, with no hooks and no `postHook` calls |
| Engine.DenormalizedViews.AddView | denormalized-views.js:33-124 | the error is the first failing check; on success the spec is pushed, its three source hooks are registered and `getView` finds it; otherwise nothing changes; the store stays valid |
| Engine.DenormalizedViews.GetView | denormalized-views.js:130-133 | a spec is found exactly when the identifier is registered, and it has that identifier |
| Engine.DenormalizedViews.RefreshByCollection | denormalized-views.js:135-207 | the error is the first failing check; on success the related hooks are registered, otherwise nothing changes |
| Engine.DenormalizedViews.RefreshManually | denormalized-views.js:218-233 | the new state and error are those of `Propagation.RefreshManually` |
| Engine.DenormalizedViews.RefreshAll | denormalized-views.js:244-268 | it visits every source id once, in the order it fetched them; the new state and error are those of `Propagation.RefreshAll` on that order |
| Engine.DenormalizedViews.SourceIds | denormalized-views.js:254-255 | the fetched ids are distinct and are exactly the source collection's ids |
| Engine.DenormalizedViews.RebuildIds | denormalized-views.js:257-266 | the loop ends in the database and error of `RebuildEach` |
| Engine.DenormalizedViews.AfterWrite | denormalized-views.js:68-123 | running the hooks of a collection in registration order ends in the state and error of `Dispatch` |
| Engine.DenormalizedViews.RunHook | denormalized-views.js:68-206 | each registered hook does what its `Propagation` function says, for each kind of write |
| Engine.DenormalizedViews.AfterSourceInsert | denormalized-views.js:70-90 | ends in the state and error of `Propagation.AfterSourceInsert` |
| Engine.DenormalizedViews.AfterSourceUpdate | denormalized-views.js:92-114 | ends in the state and error of `Propagation.AfterSourceUpdate` |
| Engine.DenormalizedViews.AfterSourceRemove | denormalized-views.js:116-123 | ends in the state and error of `Propagation.AfterSourceRemove` |
| Engine.DenormalizedViews.AfterRelatedChange | denormalized-views.js:158-206 | ends in the state and error of `Propagation.AfterRelatedChange` |
| Engine.DenormalizedViews.CallPostHookIfExists | denormalized-views.js:295-300 | records one `postHook` call exactly when the spec has a `postHook` |
| Engine.DenormalizedViews.RemoveDocFromViewCollectionIfExists | denormalized-views.js:386-394 | removes the doc's id from the view |
| Engine.DenormalizedViews.ExecuteDatabaseComand | denormalized-views.js:515-535 | runs the command at once; an insert on a taken id changes nothing and reports the id |
| Engine.DenormalizedViews.UnsetProperty | denormalized-views.js:493-505 | a missing or non-string `_id` is rejected without writing; otherwise the property is unset on that view document |
| Engine.DenormalizedViews.ApplyProperties | denormalized-views.js:325-344 | one property loop, with its immediate unsets, ends in the document, database and error of `Run` |
| Engine.DenormalizedViews.ProcessDoc | denormalized-views.js:309-381 | the result and the database are exactly `Process` on the old database |
| Engine.DenormalizedViews.UpdateIds | denormalized-views.js:405-434 | ends in the state and error of `Propagation.UpdateIds` |
| Engine.DenormalizedViews.RefreshId | denormalized-views.js:418-432 | one iteration of `_updateIds`'s loop ends in the database and error of `Propagation.RefreshStep` |

## Left out

- Meteor's `defer` and `isServer` are left out. Database commands run at
  once, on the server (`DeferWriteAccess` is false).
- SimpleSchema validation and `check` are left out. Their type demands are
  the Dafny types. The one check that can fail on well-typed input is
  `_unsetProperty`'s demand for a string `_id`; it is modelled as the error
  `InvalidUnsetId`.
- Document ids are strings only. A non-string `_id` counts as `undefined`.
- Mongo selector semantics are reduced to what the package uses:
  - an `undefined` selector matches nothing for remove and `$set`;
  - an insert or upsert with an `undefined` id gets a generated id.
- Storage.FreshId: a generated id is the first of `#`, `##`, … that the
  collection does not hold, not Meteor's random id. Only its freshness is
  modelled.
- A Mongo rejection of a `$set` that changes `_id` is left out, as are the
  write errors of updates in general. Only insert reports a duplicate key.
- The collection-hooks package is left out except how it dispatches one write
  to the hooks of its collection, in registration order:
  - The previous document of an update is passed in explicitly.
  - The view writes the engine makes do not re-trigger hooks.
  - The model passes every hook the original document. In the source,
    `_processDoc` mutates the hook's own `doc` argument in place, and that
    sharing with later hooks is not captured.
- The application's `sync`, `postSync`, `filter` and `refreshIds` functions
  and `postHook` are total in the model: none of them throws. In the source
  such a throw ends the hook at that call, as `NotAFunction` does here: the
  `$unset`s issued before it stay, the view write and `postHook` are skipped,
  and the later hooks for that write do not run. So the success that
  Processing.RunWellFormedSucceeds, Processing.ProcessSucceeds and
  Propagation.AfterSourceRemove promise is the absence of the engine's own
  errors.
- What `postHook` does is the application's concern. Only its calls are
  recorded.
- Engine.DenormalizedViews.RefreshAll: the order in which `find` lists the
  source ids is not modelled. The method names the order it used, and its
  contract holds for that order.
- Numbers are integers. NaN, fractions and `-0` are left out, and so is the
  order of keys in an object.
- Tools.Extend: cyclic objects and aliasing between the arguments are not
  modelled. Each argument is a value, and a depth bound stands in for
  termination.
- Some lemmas rest on hypotheses. `Sound` means every property is a
  function, none is named `_id`, and a `pick`, when set, lists `_id` and
  comes with `postSync`. `WellFormed` is the same without the demand on
  `_id` in `pick`. The error paths without it are modelled in the functions.
- Propagation.InsertedDocIsInView: only for a `Sound` spec.
- Propagation.UpdatedDocHoldsProcessedFields: only for a `Sound` spec.
- Propagation.UpdateIdsTouchesOnlyListedIds: only for a `Sound` spec.
- Propagation.RefreshEachInvariant: only for a `Sound` spec.
- Propagation.UpdateIdsRefreshesListedIds: only for a `Sound` spec whose
  functions do not read the view collection.
- Propagation.RefreshEachRefreshes: only for a `Sound` spec whose functions
  do not read the view collection.
- Propagation.RefreshAllRebuildsView: only for a `Sound` spec whose functions
  do not read the view collection, which `refreshAll` empties and refills.
- Propagation.RebuildEachRebuilds: only for a `Sound` spec whose functions do
  not read the view collection, and for distinct source ids.
- Propagation.RefreshStepKeepsInvariant: only for a `Sound` spec.
- Propagation.RefreshCurrent: only for a `Sound` spec whose functions do not
  read the view collection.
- Propagation.RefreshStepRefreshes: only for a `Sound` spec whose functions
  do not read the view collection.
- Propagation.RebuildStepRebuilds: only for a `Sound` spec whose functions do
  not read the view collection, and for an id the view does not hold yet.
- Processing.StepUnsetsDropped: only for a slot not named `_id`, as
  `RunUnsetsOnly`.
- Processing.RunKeepsExactly: stated for the last slot carrying a name. A
  name in both `sync` and `postSync` ends up as its `postSync` slot leaves it.
- Processing.LaterSlotsSeeKeptValues: stated up to the next slot carrying the
  same name.
- Processing.RunUnsetsOnly: only for slots none of which is named `_id`.
  Also, with a name in both `sync` and `postSync`, it does
  not say whether a view property that `sync` unset and `postSync` kept again
  is present. It is absent, because the `$unset` was already issued.
- Processing.ProcessUnsetsOnly: only for a `WellFormed` spec, and the same as
  `RunUnsetsOnly` for a name in both `sync` and `postSync`.
- Processing.ProcessTouchesOnlyItsId: only for a `WellFormed` spec.
- The `debug` logging of tools.js and the `Debug` flag are left out.
  package.js is packaging only.
