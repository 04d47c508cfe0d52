/** What the hooks registered by `addView` and `refreshByCollection` do, and
    the refresh paths `_updateIds`, `refreshManually` and `refreshAll`, as
    functions from the state before to the state after
    (denormalized-views.js:70-123, 158-206, 218-268, 295-300, 386-434). */
module Propagation {
  import opened Values
  import opened Storage
  import opened Registry
  import opened Processing

  /** A call of a spec's `postHook`. What the hook does is the application's. */
  datatype PostHookCall = PostHookCall(identifier: string, doc: Doc, userId: Option<UserId>)

  /** The database and the `postHook` calls made so far. */
  datatype World = World(db: Db, postHookCalls: seq<PostHookCall>)

  /** The state after an operation and the error it threw, if any. Writes made
      before an error stay in place. */
  datatype Outcome = Outcome(world: World, error: Option<Error>)

  /** `_callPostHookIfExists`: one call is recorded, after the earlier ones,
      exactly when the spec has a `postHook`; the database is untouched. */
  function CallPostHookIfExists(w: World, spec: SyncSpec, doc: Doc, user: Option<UserId>): (r: World)
    ensures r.db == w.db
    ensures w.postHookCalls <= r.postHookCalls
    ensures |r.postHookCalls| == |w.postHookCalls| + (if spec.hasPostHook then 1 else 0)
    ensures spec.hasPostHook ==> r.postHookCalls[|w.postHookCalls|] == PostHookCall(spec.identifier, doc, user)
  {
    if spec.hasPostHook then w.(postHookCalls := w.postHookCalls + [PostHookCall(spec.identifier, doc, user)]) else w
  }

  /** `_removeDocFromViewCollectionIfExists`: the view no longer holds the
      document's id; nothing else changes. */
  function RemoveDocFromViewCollectionIfExists(db: Db, view: CollectionId, doc: Doc): (r: Db)
    ensures IdOf(doc).Some? ==> IdOf(doc).value !in Docs(r, view)
    ensures IdOf(doc).None? ==> r == db
    ensures forall c :: c != view ==> Docs(r, c) == Docs(db, c)
  {
    Remove(db, view, IdOf(doc))
  }

  /** The source collection's `after.insert` hook (70-90). The `postHook`
      receives the caller's document, which `_processDoc` has mutated. */
  function AfterSourceInsert(w: World, spec: SyncSpec, doc: Doc, user: Option<UserId>): (o: Outcome)
    ensures forall c :: c != spec.viewCollection ==> Docs(o.world.db, c) == Docs(w.db, c)
    ensures w.postHookCalls <= o.world.postHookCalls
    ensures o.error.Some? ==> o.world.postHookCalls == w.postHookCalls
  {
    if IsDocValidToBeProcessed(w.db, spec, doc, user) then
      match Process(w.db, spec, doc, user)
      case ProcessFailed(db, e) => Outcome(w.(db := db), Some(e))
      case Processed(working, out, db) =>
        match Insert(db, spec.viewCollection, out)
        case Failure(id) => Outcome(w.(db := db), Some(DuplicateKey(id)))
        case Success(db') => Outcome(CallPostHookIfExists(w.(db := db'), spec, working, user), None)
    else Outcome(w.(db := RemoveDocFromViewCollectionIfExists(w.db, spec.viewCollection, doc)), None)
  }

  /** The source collection's `after.update` hook (92-114): `$set` with upsert. */
  function AfterSourceUpdate(w: World, spec: SyncSpec, doc: Doc, user: Option<UserId>): (o: Outcome)
    ensures forall c :: c != spec.viewCollection ==> Docs(o.world.db, c) == Docs(w.db, c)
    ensures w.postHookCalls <= o.world.postHookCalls
    ensures o.error.Some? ==> o.world.postHookCalls == w.postHookCalls
  {
    if IsDocValidToBeProcessed(w.db, spec, doc, user) then
      match Process(w.db, spec, doc, user)
      case ProcessFailed(db, e) => Outcome(w.(db := db), Some(e))
      case Processed(working, out, db) =>
        Outcome(CallPostHookIfExists(w.(db := Upsert(db, spec.viewCollection, IdOf(out), out)), spec, working, user), None)
    else Outcome(w.(db := RemoveDocFromViewCollectionIfExists(w.db, spec.viewCollection, doc)), None)
  }

  /** The source collection's `after.remove` hook (116-123). */
  function AfterSourceRemove(w: World, spec: SyncSpec, doc: Doc, user: Option<UserId>): (o: Outcome)
    ensures o.error.None?
    ensures forall c :: c != spec.viewCollection ==> Docs(o.world.db, c) == Docs(w.db, c)
    ensures w.postHookCalls <= o.world.postHookCalls
  {
    Outcome(CallPostHookIfExists(w.(db := Remove(w.db, spec.viewCollection, IdOf(doc))), spec, doc, user), None)
  }

  /** The database, and the error that stopped a loop over ids, if any. */
  datatype Written = Written(db: Db, error: Option<Error>)

  /** One iteration of `_updateIds`'s loop (418-432): no filter, no user id,
      `$set` without upsert, no `postHook`. */
  function RefreshStep(r: Written, spec: SyncSpec, id: Id): (r': Written)
    ensures r.error.Some? ==> r' == r
    ensures r'.error.None? ==> r.error.None? && id in Docs(r.db, spec.sourceCollection)
    ensures Docs(r'.db, spec.viewCollection).Keys == Docs(r.db, spec.viewCollection).Keys
    ensures forall c :: c != spec.viewCollection ==> Docs(r'.db, c) == Docs(r.db, c)
  {
    if r.error.Some? then r
    else match FindOne(r.db, spec.sourceCollection, id)
      case None => r.(error := Some(MissingSourceDoc(id)))
      case Some(doc) =>
        match Process(r.db, spec, doc, None)
        case ProcessFailed(db, e) => Written(db, Some(e))
        case Processed(_, out, db) => Written(SetFields(db, spec.viewCollection, IdOf(out), out), None)
  }

  /** The loop of `_updateIds`: once an id throws, the later ones do nothing. */
  function RefreshEach(r: Written, spec: SyncSpec, ids: seq<Id>): (r': Written)
    ensures r.error.Some? ==> r' == r
    ensures r'.error.None? ==> r.error.None?
  {
    if ids == [] then r else RefreshStep(RefreshEach(r, spec, ids[..|ids| - 1]), spec, ids[|ids| - 1])
  }

  /** The loop of `_updateIds` over one more id. */
  lemma RefreshEachNext(r: Written, spec: SyncSpec, ids: seq<Id>, i: nat)
    requires i < |ids|
    ensures RefreshEach(r, spec, ids[..i + 1]) == RefreshStep(RefreshEach(r, spec, ids[..i]), spec, ids[i])
  {
    assert ids[..i + 1][..i] == ids[..i];
  }

  /** `_updateIds` (405-434). An unknown identifier fails when line 415 reads a
      property of `undefined`, before anything is written. */
  function UpdateIds(w: World, store: seq<SyncSpec>, identifier: string, ids: seq<Id>): (o: Outcome)
    ensures o.world.postHookCalls == w.postHookCalls
    ensures !Registered(store, identifier) ==> o == Outcome(w, Some(UndefinedSyncronisation))
  {
    match GetExistingSyncronisation(store, identifier)
    case None => Outcome(w, Some(UndefinedSyncronisation))
    case Some(spec) =>
      var r := RefreshEach(Written(w.db, None), spec, ids);
      Outcome(w.(db := r.db), r.error)
  }

  /** `_updateIds` on a registered spec is its loop over the ids. */
  lemma UpdateIdsLoop(w: World, store: seq<SyncSpec>, spec: SyncSpec, ids: seq<Id>)
    requires GetExistingSyncronisation(store, spec.identifier) == Some(spec)
    ensures var r := RefreshEach(Written(w.db, None), spec, ids);
      UpdateIds(w, store, spec.identifier, ids) == Outcome(w.(db := r.db), r.error)
  {
  }

  /** `refreshManually` (218-233). */
  function RefreshManually(w: World, store: seq<SyncSpec>, identifier: string, ids: seq<Id>): (o: Outcome)
    ensures o.world.postHookCalls == w.postHookCalls
    ensures |ids| == 0 ==> o == Outcome(w, None)
    ensures |ids| > 0 ==> o == UpdateIds(w, store, identifier, ids)
  {
    if |ids| > 0 then UpdateIds(w, store, identifier, ids) else Outcome(w, None)
  }

  /** A hook of `refreshByCollection` on the related collection (158-206):
      validate what `refreshIds` returns, and refresh those ids when there are
      any. `previous` is the document before an update. */
  function AfterRelatedChange(w: World, store: seq<SyncSpec>, b: Binding, doc: Doc, previous: Option<Doc>, user: Option<UserId>): (o: Outcome)
    ensures o.world.postHookCalls == w.postHookCalls
    ensures var v := b.refreshIds(w.db, doc, previous, user);
      o.world != w ==> IsStringArray(v) && |v.items| > 0
  {
    match ValidateRefreshIds(b.refreshIds(w.db, doc, previous, user))
    case Failure(e) => Outcome(w, Some(e))
    case Success(ids) =>
      if ids.Arr? && |ids.items| > 0 then UpdateIds(w, store, b.identifier, Strings(ids))
      else Outcome(w, None)
  }

  /** One iteration of `refreshAll`'s loop (257-266): no filter, no user id,
      and a plain insert. */
  function RebuildStep(r: Written, spec: SyncSpec, id: Id): (r': Written)
    ensures r.error.Some? ==> r' == r
    ensures r'.error.None? ==> r.error.None? && id in Docs(r.db, spec.sourceCollection)
    ensures r'.error.None? ==> Docs(r.db, spec.viewCollection).Keys < Docs(r'.db, spec.viewCollection).Keys
    ensures forall c :: c != spec.viewCollection ==> Docs(r'.db, c) == Docs(r.db, c)
  {
    if r.error.Some? then r
    else match FindOne(r.db, spec.sourceCollection, id)
      case None => r.(error := Some(DocNotAnObject))
      case Some(doc) =>
        match Process(r.db, spec, doc, None)
        case ProcessFailed(db, e) => Written(db, Some(e))
        case Processed(_, out, db) =>
          match Insert(db, spec.viewCollection, out)
          case Failure(dup) => Written(db, Some(DuplicateKey(dup)))
          case Success(db') => Written(db', None)
  }

  /** The loop of `refreshAll`: once an id throws, the later ones do nothing. */
  function RebuildEach(r: Written, spec: SyncSpec, ids: seq<Id>): (r': Written)
    ensures r.error.Some? ==> r' == r
    ensures r'.error.None? ==> r.error.None?
  {
    if ids == [] then r else RebuildStep(RebuildEach(r, spec, ids[..|ids| - 1]), spec, ids[|ids| - 1])
  }

  /** `refreshAll` (244-268): clear the view, then insert every source document
      processed, in the order `order` that the source's `find` lists them. */
  function RefreshAll(w: World, store: seq<SyncSpec>, identifier: string, order: seq<Id>): (o: Outcome)
    ensures o.world.postHookCalls == w.postHookCalls
    ensures !Registered(store, identifier) ==> o == Outcome(w, Some(UndefinedSyncronisation))
  {
    match GetExistingSyncronisation(store, identifier)
    case None => Outcome(w, Some(UndefinedSyncronisation))
    case Some(spec) =>
      var r := RebuildEach(Written(Clear(w.db, spec.viewCollection), None), spec, order);
      Outcome(w.(db := r.db), r.error)
  }

  // ---------------------------------------------------------------------
  // Hook dispatch

  /** The hooks registered on a collection, in registration order. */
  datatype Hook = SourceHooks(spec: SyncSpec) | RelatedHooks(binding: Binding)

  function HookCollection(h: Hook): CollectionId
  {
    match h
    case SourceHooks(spec) => spec.sourceCollection
    case RelatedHooks(b) => b.relatedCollection
  }

  /** A write the application made to a collection; `previous` is the document
      before an update. */
  datatype Event = Inserted(doc: Doc) | Updated(doc: Doc, previous: Doc) | Removed(doc: Doc)

  function RunHook(w: World, store: seq<SyncSpec>, h: Hook, ev: Event, user: Option<UserId>): (o: Outcome)
    ensures w.postHookCalls <= o.world.postHookCalls
  {
    match h
    case SourceHooks(spec) =>
      (match ev
       case Inserted(d) => AfterSourceInsert(w, spec, d, user)
       case Updated(d, _) => AfterSourceUpdate(w, spec, d, user)
       case Removed(d) => AfterSourceRemove(w, spec, d, user))
    case RelatedHooks(b) =>
      (match ev
       case Inserted(d) => AfterRelatedChange(w, store, b, d, None, user)
       case Updated(d, prev) => AfterRelatedChange(w, store, b, d, Some(prev), user)
       case Removed(d) => AfterRelatedChange(w, store, b, d, None, user))
  }

  /** All hooks on collection `c`, in registration order; an error stops the rest. */
  function Dispatch(w: World, store: seq<SyncSpec>, hooks: seq<Hook>, c: CollectionId, ev: Event, user: Option<UserId>): (o: Outcome)
    ensures w.postHookCalls <= o.world.postHookCalls
  {
    if hooks == [] then Outcome(w, None)
    else
      var o := Dispatch(w, store, hooks[..|hooks| - 1], c, ev, user);
      if o.error.Some? || HookCollection(hooks[|hooks| - 1]) != c then o
      else RunHook(o.world, store, hooks[|hooks| - 1], ev, user)
  }

  // ---------------------------------------------------------------------
  // The source hooks

  /** The view documents other than `id` are as they were. */
  ghost predicate OthersUnchanged(before: Collection, after: Collection, id: Option<Id>)
  {
    forall j :: Some(j) != id ==> (j in after <==> j in before) && (j in before ==> after[j] == before[j])
  }

  /** A document whose filter returns exactly `false` is removed from the view
      on insert and on update, nothing else changes, and no `postHook` runs
      (86-89, 110-113, 282-288). */
  lemma FilteredOutLeavesNoViewDoc(w: World, spec: SyncSpec, doc: Doc, user: Option<UserId>)
    requires spec.filter.Some? && spec.filter.value(w.db, doc, user) == Bool(false)
    ensures forall o :: o == AfterSourceInsert(w, spec, doc, user) || o == AfterSourceUpdate(w, spec, doc, user) ==>
      o.error == None
      && o.world.postHookCalls == w.postHookCalls
      && (IdOf(doc).Some? ==> IdOf(doc).value !in Docs(o.world.db, spec.viewCollection))
      && OthersUnchanged(Docs(w.db, spec.viewCollection), Docs(o.world.db, spec.viewCollection), IdOf(doc))
      && (forall c :: c != spec.viewCollection ==> Docs(o.world.db, c) == Docs(w.db, c))
  {
  }

  /** The conditions under which a source hook cannot fail while processing
      and the result carries the document's id: see `WellFormed` and `KeepsId`. */
  ghost predicate Sound(spec: SyncSpec)
  {
    WellFormed(spec) && KeepsId(spec)
  }

  /** The insert hook on a document that passes the filter: it fails exactly
      when the view already holds that id; otherwise the view document is the
      processed one, and the `postHook` gets the processed document
      (70-85, 335-343). */
  lemma InsertedDocIsInView(w: World, spec: SyncSpec, doc: Doc, user: Option<UserId>, id: Id)
    requires Sound(spec) && IdOf(doc) == Some(id)
    requires IsDocValidToBeProcessed(w.db, spec, doc, user)
    ensures Process(w.db, spec, doc, user).Processed?
    ensures var o := AfterSourceInsert(w, spec, doc, user);
      var r := Process(w.db, spec, doc, user);
      (o.error == None <==> id !in Docs(w.db, spec.viewCollection))
      && (o.error.Some? ==> o.error == Some(DuplicateKey(id)) && o.world.postHookCalls == w.postHookCalls)
      && (o.error == None ==>
            Docs(o.world.db, spec.viewCollection) == Docs(w.db, spec.viewCollection)[id := r.result]
            && (forall c :: c != spec.viewCollection ==> Docs(o.world.db, c) == Docs(w.db, c))
            && o.world.postHookCalls == w.postHookCalls + (if spec.hasPostHook then [PostHookCall(spec.identifier, r.working, user)] else []))
  {
    ProcessUnsetsOnly(w.db, spec, doc, user, id);
    ProcessKeepsId(w.db, spec, doc, user);
  }

  /** The update hook on a document that passes the filter: the view document
      `id` exists afterwards, even when it did not before, and holds every
      field of the processed document; it keeps its other fields except the
      properties whose values were dropped; nothing else changes
      (92-109, 338-343). */
  lemma UpdatedDocHoldsProcessedFields(w: World, spec: SyncSpec, doc: Doc, user: Option<UserId>, id: Id)
    requires Sound(spec) && IdOf(doc) == Some(id)
    requires IsDocValidToBeProcessed(w.db, spec, doc, user)
    ensures Process(w.db, spec, doc, user).Processed?
    ensures var o := AfterSourceUpdate(w, spec, doc, user);
      var r := Process(w.db, spec, doc, user);
      var before := Docs(w.db, spec.viewCollection);
      var after := Docs(o.world.db, spec.viewCollection);
      o.error == None
      && id in after
      && (forall k :: k in r.result ==> k in after[id] && after[id][k] == r.result[k])
      && (forall k :: k in SlotNames(Plan(spec)) && k !in r.working ==> k !in after[id])
      && (forall k :: id in before && k in before[id] && k !in SlotNames(Plan(spec)) && k !in r.result ==>
            k in after[id] && after[id][k] == before[id][k])
      && (forall k :: k in after[id] ==> k in r.result || (id in before && k in before[id]))
      && OthersUnchanged(before, after, Some(id))
      && (forall c :: c != spec.viewCollection ==> Docs(o.world.db, c) == Docs(w.db, c))
      && o.world.postHookCalls == w.postHookCalls + (if spec.hasPostHook then [PostHookCall(spec.identifier, r.working, user)] else [])
  {
    ProcessUnsetsOnly(w.db, spec, doc, user, id);
    ProcessKeepsId(w.db, spec, doc, user);
    var r := Process(w.db, spec, doc, user);
    UpsertHoldsFields(r.db, spec.viewCollection, id, r.result);
    PickBound(w.db, spec, doc, user);
  }

  /** The remove hook: the view no longer holds the id, every other view
      document is unchanged, and the `postHook` is called (116-123). */
  lemma RemovedDocLeavesView(w: World, spec: SyncSpec, doc: Doc, user: Option<UserId>)
    ensures var o := AfterSourceRemove(w, spec, doc, user);
      o.error == None
      && (IdOf(doc).Some? ==> IdOf(doc).value !in Docs(o.world.db, spec.viewCollection))
      && OthersUnchanged(Docs(w.db, spec.viewCollection), Docs(o.world.db, spec.viewCollection), IdOf(doc))
      && (forall c :: c != spec.viewCollection ==> Docs(o.world.db, c) == Docs(w.db, c))
      && o.world.postHookCalls == w.postHookCalls + (if spec.hasPostHook then [PostHookCall(spec.identifier, doc, user)] else [])
  {
  }

  // ---------------------------------------------------------------------
  // The related hooks

  /** A related hook throws, changing nothing, when `refreshIds` returns
      anything but an array of strings or `undefined`; refreshes nothing for
      `undefined` or an empty array; and otherwise runs `_updateIds` on the
      ids (161-169, 476-479). */
  lemma RelatedHookValidatesIds(w: World, store: seq<SyncSpec>, b: Binding, doc: Doc, previous: Option<Doc>, user: Option<UserId>)
    ensures var v := b.refreshIds(w.db, doc, previous, user);
      var o := AfterRelatedChange(w, store, b, doc, previous, user);
      (!(IsStringArray(v) || v == Undefined) ==> o == Outcome(w, Some(InvalidRefreshIds(v))))
      && (v == Undefined || v == Arr([]) ==> o == Outcome(w, None))
      && (IsStringArray(v) && |v.items| > 0 ==> o == UpdateIds(w, store, b.identifier, Strings(v)))
  {
  }

  // ---------------------------------------------------------------------
  // _updateIds

  /** The first index of `ids` that the collection does not hold. */
  ghost predicate FirstMissing(ids: seq<Id>, docs: Collection, i: int)
  {
    0 <= i < |ids| && ids[i] !in docs && forall j :: 0 <= j < i ==> ids[j] in docs
  }

  ghost predicate RefreshInvariant(r: Written, db: Db, spec: SyncSpec, ids: seq<Id>)
  {
    var view := spec.viewCollection;
    (forall c :: c != view ==> Docs(r.db, c) == Docs(db, c))
    && Docs(r.db, view).Keys == Docs(db, view).Keys
    && (forall j :: j in Docs(db, view) && j !in ids ==> Docs(r.db, view)[j] == Docs(db, view)[j])
    && (r.error.None? <==> forall j :: 0 <= j < |ids| ==> ids[j] in Docs(db, spec.sourceCollection))
    && (r.error.Some? ==> exists i :: FirstMissing(ids, Docs(db, spec.sourceCollection), i) && r.error == Some(MissingSourceDoc(ids[i])))
  }

  /** One more iteration of `_updateIds`'s loop keeps its invariant. */
  lemma RefreshStepKeepsInvariant(r: Written, db: Db, spec: SyncSpec, ids: seq<Id>, id: Id)
    requires Sound(spec) && spec.sourceCollection != spec.viewCollection
    requires RefreshInvariant(r, db, spec, ids)
    ensures RefreshInvariant(RefreshStep(r, spec, id), db, spec, ids + [id])
  {
    var source := Docs(db, spec.sourceCollection);
    var view := spec.viewCollection;
    var all := ids + [id];
    assert forall j :: 0 <= j < |ids| ==> all[j] == ids[j];
    if r.error.Some? {
      var i :| FirstMissing(ids, source, i) && r.error == Some(MissingSourceDoc(ids[i]));
      assert FirstMissing(all, source, i);
    } else if id !in source {
      assert FirstMissing(all, source, |ids|);
    } else {
      var doc := FindOne(r.db, spec.sourceCollection, id).value;
      ProcessTouchesOnlyItsId(r.db, spec, doc, None, id);
      ProcessKeepsId(r.db, spec, doc, None);
      var p := Process(r.db, spec, doc, None);
      SetFieldsCreatesNothing(p.db, view, id, p.result);
    }
  }

  lemma {:induction false} RefreshEachInvariant(db: Db, spec: SyncSpec, ids: seq<Id>)
    requires Sound(spec) && spec.sourceCollection != spec.viewCollection
    ensures RefreshInvariant(RefreshEach(Written(db, None), spec, ids), db, spec, ids)
  {
    if ids != [] {
      var init := ids[..|ids| - 1];
      RefreshEachInvariant(db, spec, init);
      RefreshStepKeepsInvariant(RefreshEach(Written(db, None), spec, init), db, spec, init, ids[|ids| - 1]);
      assert init + [ids[|ids| - 1]] == ids;
    }
  }

  /** `_updateIds` on a registered spec: it throws on the first id that the
      source does not hold and on no other; in every case it creates and
      removes no view document, changes only view documents whose ids were
      listed, leaves every other collection alone and calls no `postHook`
      (417-433). */
  lemma UpdateIdsTouchesOnlyListedIds(w: World, store: seq<SyncSpec>, spec: SyncSpec, ids: seq<Id>)
    requires GetExistingSyncronisation(store, spec.identifier) == Some(spec)
    requires Sound(spec) && spec.sourceCollection != spec.viewCollection
    ensures var o := UpdateIds(w, store, spec.identifier, ids);
      var view := spec.viewCollection;
      var source := Docs(w.db, spec.sourceCollection);
      o.world.postHookCalls == w.postHookCalls
      && (forall c :: c != view ==> Docs(o.world.db, c) == Docs(w.db, c))
      && Docs(o.world.db, view).Keys == Docs(w.db, view).Keys
      && (forall j :: j in Docs(w.db, view) && j !in ids ==> Docs(o.world.db, view)[j] == Docs(w.db, view)[j])
      && (o.error.None? <==> forall j :: 0 <= j < |ids| ==> ids[j] in source)
      && (o.error.Some? ==> exists i :: FirstMissing(ids, source, i) && o.error == Some(MissingSourceDoc(ids[i])))
  {
    RefreshEachInvariant(w.db, spec, ids);
  }

  /** Document `now` keeps every field of `prior` that no slot names and that
      the processed `result` does not set, and has no field beyond those of
      `prior` and `result`. */
  ghost predicate Settled(prior: Doc, now: Doc, result: Doc, names: seq<string>)
  {
    (forall k :: k in prior && k !in names && k !in result ==> k in now && now[k] == prior[k])
    && (forall k :: k in now ==> k in result || k in prior)
  }

  /** Document `now` is `prior` refreshed from the processed document `working`
      and its result `result`: every field of `result` is set, the slots'
      properties that processing dropped are gone, and the rest is `Settled`. */
  ghost predicate RefreshedDoc(prior: Doc, now: Doc, working: Doc, result: Doc, names: seq<string>)
  {
    (forall k :: k in result ==> k in now && now[k] == result[k])
    && (forall k :: k in names && k !in working ==> k !in now)
    && Settled(prior, now, result, names)
  }

  /** View document `id` after a refresh, compared with the view `before`:
      it is `before[id]` refreshed from the processed source document. */
  ghost predicate Refreshed(before: Collection, after: Collection, db: Db, spec: SyncSpec, id: Id)
  {
    id in Docs(db, spec.sourceCollection) && id in before && id in after
    && var p := Process(db, spec, FindOne(db, spec.sourceCollection, id).value, None);
    p.Processed? && RefreshedDoc(before[id], after[id], p.working, p.result, SlotNames(Plan(spec)))
  }

  /** The document-level step: `$unset` of the dropped properties, then `$set`
      of the result, on a document that is `Settled`. */
  lemma RefreshDocStep(prior: Doc, mid: Doc, unset: Doc, working: Doc, result: Doc, names: seq<string>, id: Id, now: Doc)
    requires Settled(prior, mid, result, names)
    requires forall k :: k in unset ==> k in mid && unset[k] == mid[k]
    requires forall k :: k !in names ==> (k in unset <==> k in mid)
    requires forall k :: k in names && k !in working ==> k !in unset
    requires forall k :: k in result ==> k in working
    requires "_id" in result && result["_id"] == Str(id)
    requires now == (unset + result)["_id" := Str(id)]
    ensures RefreshedDoc(prior, now, working, result, names)
  {
  }

  /** The iteration of `_updateIds`'s loop for `id` refreshes view document `id`. */
  lemma RefreshCurrent(r: Written, db: Db, spec: SyncSpec, id: Id)
    requires Sound(spec) && spec.sourceCollection != spec.viewCollection
    requires IgnoresCollection(Plan(spec), spec.viewCollection)
    requires r.error.None? && AgreeOutside(r.db, db, spec.viewCollection)
    requires id in Docs(db, spec.sourceCollection) && id in Docs(db, spec.viewCollection) && id in Docs(r.db, spec.viewCollection)
    requires var p := Process(db, spec, FindOne(db, spec.sourceCollection, id).value, None);
      p.Processed? && Settled(Docs(db, spec.viewCollection)[id], Docs(r.db, spec.viewCollection)[id], p.result, SlotNames(Plan(spec)))
    ensures RefreshStep(r, spec, id).error.None?
    ensures Refreshed(Docs(db, spec.viewCollection), Docs(RefreshStep(r, spec, id).db, spec.viewCollection), db, spec, id)
  {
    var view := spec.viewCollection;
    var source := spec.sourceCollection;
    var doc := FindOne(db, source, id).value;
    assert Docs(r.db, source) == Docs(db, source);
    assert FindOne(r.db, source, id) == Some(doc);
    ProcessUnsetsOnly(r.db, spec, doc, None, id);
    ProcessKeepsId(r.db, spec, doc, None);
    ProcessIgnoresView(r.db, db, spec, doc, None);
    var q := Process(r.db, spec, doc, None);
    var next := RefreshStep(r, spec, id);
    assert next.db == SetFields(q.db, view, Some(id), q.result);
    assert "_id" in q.working;
    RefreshDocStep(Docs(db, view)[id], Docs(r.db, view)[id], Docs(q.db, view)[id], q.working, q.result,
      SlotNames(Plan(spec)), id, Docs(next.db, view)[id]);
  }

  /** One successful iteration of `_updateIds`'s loop refreshes its id and
      leaves the view documents refreshed earlier as they were. */
  lemma RefreshStepRefreshes(r: Written, db: Db, spec: SyncSpec, ids: seq<Id>, id: Id)
    requires Sound(spec) && spec.sourceCollection != spec.viewCollection
    requires IgnoresCollection(Plan(spec), spec.viewCollection)
    requires RefreshInvariant(r, db, spec, ids) && r.error.None? && id in Docs(db, spec.sourceCollection)
    requires forall j :: j in ids && j in Docs(db, spec.viewCollection) ==>
      Refreshed(Docs(db, spec.viewCollection), Docs(r.db, spec.viewCollection), db, spec, j)
    ensures RefreshStep(r, spec, id).error.None?
    ensures forall j :: j in ids + [id] && j in Docs(db, spec.viewCollection) ==>
      Refreshed(Docs(db, spec.viewCollection), Docs(RefreshStep(r, spec, id).db, spec.viewCollection), db, spec, j)
  {
    var view := spec.viewCollection;
    var source := spec.sourceCollection;
    var before := Docs(db, view);
    var mid := Docs(r.db, view);
    var doc := FindOne(r.db, source, id).value;
    ProcessTouchesOnlyItsId(r.db, spec, doc, None, id);
    ProcessKeepsId(r.db, spec, doc, None);
    var q := Process(r.db, spec, doc, None);
    var next := RefreshStep(r, spec, id);
    assert next.db == SetFields(q.db, view, Some(id), q.result);
    SetFieldsCreatesNothing(q.db, view, id, q.result);
    var after := Docs(next.db, view);
    if id in before {
      ProcessSucceeds(db, spec, FindOne(db, source, id).value, None);
      RefreshCurrent(r, db, spec, id);
    }
    forall j | j in ids + [id] && j in before && j != id
      ensures Refreshed(before, after, db, spec, j)
    {
      assert j in ids;
      assert after[j] == mid[j];
    }
  }

  /** A successful `_updateIds` loop leaves every listed view document
      refreshed from its source document, when the spec's functions do not
      read the view (417-433). */
  lemma {:induction false} RefreshEachRefreshes(db: Db, spec: SyncSpec, ids: seq<Id>)
    requires Sound(spec) && spec.sourceCollection != spec.viewCollection
    requires IgnoresCollection(Plan(spec), spec.viewCollection)
    ensures var r := RefreshEach(Written(db, None), spec, ids);
      r.error.None? ==> forall j :: j in ids && j in Docs(db, spec.viewCollection) ==>
        Refreshed(Docs(db, spec.viewCollection), Docs(r.db, spec.viewCollection), db, spec, j)
  {
    if ids != [] {
      var init := ids[..|ids| - 1];
      var id := ids[|ids| - 1];
      assert init + [id] == ids;
      var r := RefreshEach(Written(db, None), spec, init);
      if RefreshStep(r, spec, id).error.None? {
        RefreshEachInvariant(db, spec, init);
        RefreshEachRefreshes(db, spec, init);
        RefreshStepRefreshes(r, db, spec, init, id);
      }
    }
  }

  /** What `_updateIds` writes into the view: when it does not throw, every
      listed id the view holds is refreshed from the processed source document
      (it holds each field of the result, lacks the properties processing
      dropped, keeps its other fields and gains no others), and the view's
      other documents are as before; the spec's functions must not read the
      view (417-433). */
  lemma UpdateIdsRefreshesListedIds(w: World, store: seq<SyncSpec>, spec: SyncSpec, ids: seq<Id>)
    requires GetExistingSyncronisation(store, spec.identifier) == Some(spec)
    requires Sound(spec) && spec.sourceCollection != spec.viewCollection
    requires IgnoresCollection(Plan(spec), spec.viewCollection)
    ensures var o := UpdateIds(w, store, spec.identifier, ids);
      var before := Docs(w.db, spec.viewCollection);
      var after := Docs(o.world.db, spec.viewCollection);
      o.error.None? ==>
        after.Keys == before.Keys
        && (forall j :: j in ids && j in before ==> Refreshed(before, after, w.db, spec, j))
        && (forall j :: j in before && j !in ids ==> after[j] == before[j])
  {
    UpdateIdsLoop(w, store, spec, ids);
    RefreshEachInvariant(w.db, spec, ids);
    RefreshEachRefreshes(w.db, spec, ids);
  }

  /** `refreshManually` with no ids does nothing, even for an identifier that
      is not registered; with ids it is `_updateIds` (227-232). */
  lemma RefreshManuallyNeedsIds(w: World, store: seq<SyncSpec>, identifier: string, ids: seq<Id>)
    ensures ids == [] ==> RefreshManually(w, store, identifier, ids) == Outcome(w, None)
    ensures ids != [] && !Registered(store, identifier) ==>
      RefreshManually(w, store, identifier, ids) == Outcome(w, Some(UndefinedSyncronisation))
  {
  }

  /** An identifier that is not registered makes `_updateIds` and `refreshAll`
      throw when they read a property of the missing spec, before any write
      (415, 248). */
  lemma UnknownIdentifierWritesNothing(w: World, store: seq<SyncSpec>, identifier: string, ids: seq<Id>, order: seq<Id>)
    requires !Registered(store, identifier)
    ensures UpdateIds(w, store, identifier, ids) == Outcome(w, Some(UndefinedSyncronisation))
    ensures RefreshAll(w, store, identifier, order) == Outcome(w, Some(UndefinedSyncronisation))
  {
  }

  // ---------------------------------------------------------------------
  // refreshAll

  ghost predicate Distinct(ids: seq<Id>)
  {
    forall i, j :: 0 <= i < j < |ids| ==> ids[i] != ids[j]
  }

  /** The view after rebuilding `ids`: each holds the processed source document. */
  ghost predicate Rebuilt(r: Written, db: Db, spec: SyncSpec, ids: seq<Id>)
  {
    var view := spec.viewCollection;
    var source := spec.sourceCollection;
    r.error.None?
    && AgreeOutside(r.db, db, view)
    && (forall id :: id in Docs(r.db, view) <==> id in ids)
    && (forall id :: id in ids ==> (id in Docs(db, source)
          && Process(db, spec, FindOne(db, source, id).value, None).Processed?
          && Docs(r.db, view)[id] == Process(db, spec, FindOne(db, source, id).value, None).result))
  }

  /** Inserting one more source id that the view does not hold yet. */
  lemma RebuildStepRebuilds(r: Written, db: Db, spec: SyncSpec, ids: seq<Id>, id: Id)
    requires Sound(spec) && spec.sourceCollection != spec.viewCollection
    requires IgnoresCollection(Plan(spec), spec.viewCollection)
    requires Rebuilt(r, db, spec, ids) && id !in ids && id in Docs(db, spec.sourceCollection)
    ensures Rebuilt(RebuildStep(r, spec, id), db, spec, ids + [id])
  {
    var view := spec.viewCollection;
    var source := spec.sourceCollection;
    assert id !in Docs(r.db, view);
    assert Docs(r.db, source) == Docs(db, source);
    var doc := FindOne(db, source, id).value;
    assert FindOne(r.db, source, id) == Some(doc);
    ProcessTouchesOnlyItsId(r.db, spec, doc, None, id);
    ProcessKeepsId(r.db, spec, doc, None);
    ProcessIgnoresView(r.db, db, spec, doc, None);
    ProcessSucceeds(db, spec, doc, None);
    var p := Process(r.db, spec, doc, None);
    assert p.db == r.db;
    var next := RebuildStep(r, spec, id);
    assert next.db == Insert(r.db, view, p.result).value;
    assert Docs(next.db, view) == Docs(r.db, view)[id := p.result];
  }

  lemma {:induction false} RebuildEachRebuilds(db: Db, spec: SyncSpec, ids: seq<Id>)
    requires Sound(spec) && spec.sourceCollection != spec.viewCollection
    requires IgnoresCollection(Plan(spec), spec.viewCollection)
    requires Distinct(ids) && forall i :: 0 <= i < |ids| ==> ids[i] in Docs(db, spec.sourceCollection)
    ensures Rebuilt(RebuildEach(Written(Clear(db, spec.viewCollection), None), spec, ids), db, spec, ids)
  {
    var start := Written(Clear(db, spec.viewCollection), None);
    if ids == [] {
      assert Docs(start.db, spec.viewCollection) == map[];
    } else {
      var init := ids[..|ids| - 1];
      var id := ids[|ids| - 1];
      assert init + [id] == ids;
      assert forall j :: 0 <= j < |init| ==> init[j] == ids[j];
      RebuildEachRebuilds(db, spec, init);
      var r := RebuildEach(start, spec, init);
      assert id !in init;
      RebuildStepRebuilds(r, db, spec, init, id);
    }
  }

  /** After `refreshAll` the view holds exactly the source's ids, each with the
      processed source document, whatever the filter says; no other collection
      changes and no `postHook` runs. The spec's functions must not read the
      view, which `refreshAll` empties and refills (250-266). */
  lemma RefreshAllRebuildsView(w: World, store: seq<SyncSpec>, spec: SyncSpec, order: seq<Id>)
    requires GetExistingSyncronisation(store, spec.identifier) == Some(spec)
    requires Sound(spec) && spec.sourceCollection != spec.viewCollection
    requires IgnoresCollection(Plan(spec), spec.viewCollection)
    requires Distinct(order) && forall id :: id in order <==> id in Docs(w.db, spec.sourceCollection)
    ensures var o := RefreshAll(w, store, spec.identifier, order);
      var view := spec.viewCollection;
      var source := spec.sourceCollection;
      o.error == None
      && o.world.postHookCalls == w.postHookCalls
      && Docs(o.world.db, view).Keys == Docs(w.db, source).Keys
      && (forall id :: id in Docs(w.db, source) ==>
            Process(w.db, spec, FindOne(w.db, source, id).value, None).Processed?
            && Docs(o.world.db, view)[id] == Process(w.db, spec, FindOne(w.db, source, id).value, None).result)
      && (forall c :: c != view ==> Docs(o.world.db, c) == Docs(w.db, c))
  {
    RebuildEachRebuilds(w.db, spec, order);
    var r := RebuildEach(Written(Clear(w.db, spec.viewCollection), None), spec, order);
    RebuiltFromSource(r, w.db, spec, order);
    assert RefreshAll(w, store, spec.identifier, order).world.db == r.db;
  }

  /** A view rebuilt from every source id holds exactly the source's ids. */
  lemma RebuiltFromSource(r: Written, db: Db, spec: SyncSpec, order: seq<Id>)
    requires Rebuilt(r, db, spec, order)
    requires forall id :: id in order <==> id in Docs(db, spec.sourceCollection)
    ensures Docs(r.db, spec.viewCollection).Keys == Docs(db, spec.sourceCollection).Keys
    ensures forall id :: id in Docs(db, spec.sourceCollection) ==>
      Process(db, spec, FindOne(db, spec.sourceCollection, id).value, None).Processed?
      && Docs(r.db, spec.viewCollection)[id] == Process(db, spec, FindOne(db, spec.sourceCollection, id).value, None).result
  {
  }

  // ---------------------------------------------------------------------
  // Errors end the loops

  /** Once `_updateIds` throws, the remaining ids are not refreshed. */
  lemma {:induction false} RefreshStopsAtError(r: Written, spec: SyncSpec, ids: seq<Id>, k: nat)
    requires k <= |ids| && RefreshEach(r, spec, ids[..k]).error.Some?
    ensures RefreshEach(r, spec, ids) == RefreshEach(r, spec, ids[..k])
    decreases |ids|
  {
    if k < |ids| {
      var init := ids[..|ids| - 1];
      assert init[..k] == ids[..k];
      RefreshStopsAtError(r, spec, init, k);
    } else {
      assert ids[..k] == ids;
    }
  }

  /** Once `refreshAll` throws, the remaining ids are not inserted. */
  lemma {:induction false} RebuildStopsAtError(r: Written, spec: SyncSpec, ids: seq<Id>, k: nat)
    requires k <= |ids| && RebuildEach(r, spec, ids[..k]).error.Some?
    ensures RebuildEach(r, spec, ids) == RebuildEach(r, spec, ids[..k])
    decreases |ids|
  {
    if k < |ids| {
      var init := ids[..|ids| - 1];
      assert init[..k] == ids[..k];
      RebuildStopsAtError(r, spec, init, k);
    } else {
      assert ids[..k] == ids;
    }
  }

  // ---------------------------------------------------------------------
  // Dispatch

  /** Hooks on other collections do not run. */
  lemma {:induction false} DispatchIgnoresOtherCollections(w: World, store: seq<SyncSpec>, hooks: seq<Hook>, c: CollectionId, ev: Event, user: Option<UserId>)
    requires forall i :: 0 <= i < |hooks| ==> HookCollection(hooks[i]) != c
    ensures Dispatch(w, store, hooks, c, ev, user) == Outcome(w, None)
  {
    if hooks != [] {
      var init := hooks[..|hooks| - 1];
      assert forall i :: 0 <= i < |init| ==> init[i] == hooks[i];
      DispatchIgnoresOtherCollections(w, store, init, c, ev, user);
    }
  }

  /** Dispatch over one more hook: it runs when it is registered on `c` and no
      earlier hook threw. */
  lemma DispatchNext(w: World, store: seq<SyncSpec>, hooks: seq<Hook>, i: nat, c: CollectionId, ev: Event, user: Option<UserId>)
    requires i < |hooks|
    ensures var o := Dispatch(w, store, hooks[..i], c, ev, user);
      Dispatch(w, store, hooks[..i + 1], c, ev, user) ==
        if o.error.Some? || HookCollection(hooks[i]) != c then o else RunHook(o.world, store, hooks[i], ev, user)
  {
    assert hooks[..i + 1][..i] == hooks[..i];
  }

  /** Once a hook throws, the hooks registered after it do not run. */
  lemma {:induction false} DispatchStopsAtError(w: World, store: seq<SyncSpec>, hooks: seq<Hook>, k: nat, c: CollectionId, ev: Event, user: Option<UserId>)
    requires k <= |hooks| && Dispatch(w, store, hooks[..k], c, ev, user).error.Some?
    ensures Dispatch(w, store, hooks, c, ev, user) == Dispatch(w, store, hooks[..k], c, ev, user)
    decreases |hooks|
  {
    if k < |hooks| {
      var init := hooks[..|hooks| - 1];
      assert init[..k] == hooks[..k];
      DispatchStopsAtError(w, store, init, k, c, ev, user);
    } else {
      assert hooks[..k] == hooks;
    }
  }
}
