/** The `DenormalizedViews` class of denormalized-views.js: the global
    `SyncronisationStore`, the hooks it registers with collection-hooks, and the
    database its hooks and refresh paths write to. Every method is the
    source's step-by-step procedure, proved to end in the state that the
    functions of `Propagation` and `Processing` describe. */
module Engine {
  import opened Values
  import opened Storage
  import opened Registry
  import opened Processing
  import opened Propagation

  class DenormalizedViews {
    /** `SyncronisationStore`, in push order. */
    var store: seq<SyncSpec>
    /** The after-hooks registered with collection-hooks, in registration order. */
    var hooks: seq<Hook>
    /** Every collection the engine reads or writes. */
    var db: Db
    /** The `postHook` calls made so far. */
    var postHookCalls: seq<PostHookCall>

    ghost predicate Valid()
      reads this
    {
      RegistryValid(store)
    }

    function State(): World
      reads this
    {
      World(db, postHookCalls)
    }

    constructor (db0: Db)
      ensures Valid()
      ensures store == [] && hooks == [] && db == db0 && postHookCalls == []
    {
      store := [];
      hooks := [];
      db := db0;
      postHookCalls := [];
    }

    // -------------------------------------------------------------------
    // Public API

    /** `addView` (33-124): validate, push the spec and register its three
        source hooks; on an error nothing changes. The tests call the same
        operation `addSyncronisation`. */
    method AddView(spec: SyncSpec) returns (err: Option<Error>)
      requires Valid()
      modifies this`store, this`hooks
      ensures Valid()
      ensures err == CheckNewView(old(store), spec)
      ensures store == if err.None? then old(store) + [spec] else old(store)
      ensures hooks == if err.None? then old(hooks) + [SourceHooks(spec)] else old(hooks)
      ensures err.None? ==> GetView(spec.identifier) == Some(spec)
    {
      err := CheckNewView(store, spec);
      if err.None? {
        AddViewKeepsRegistryValid(store, spec);
        store := store + [spec];
        hooks := hooks + [SourceHooks(spec)];
      }
    }

    /** `getView` / `_getExistingSyncronisation` (130-133, 441-449). */
    function GetView(identifier: string): (r: Option<SyncSpec>)
      reads this
      ensures r.Some? <==> Registered(store, identifier)
      ensures r.Some? ==> r.value.identifier == identifier
    {
      GetExistingSyncronisation(store, identifier)
    }

    /** `refreshByCollection` (135-207): validate and register the three
        related hooks. */
    method RefreshByCollection(b: Binding) returns (err: Option<Error>)
      modifies this`hooks
      ensures err == CheckBinding(store, b)
      ensures hooks == if err.None? then old(hooks) + [RelatedHooks(b)] else old(hooks)
    {
      err := CheckBinding(store, b);
      if err.None? {
        hooks := hooks + [RelatedHooks(b)];
      }
    }

    /** `refreshManually` (218-233). */
    method RefreshManually(identifier: string, ids: seq<Id>) returns (err: Option<Error>)
      modifies this`db
      ensures Outcome(State(), err) == Propagation.RefreshManually(old(State()), store, identifier, ids)
    {
      if |ids| > 0 {
        err := UpdateIds(identifier, ids);
      } else {
        err := None;
      }
    }

    /** `refreshAll` (244-268). `order` is the order in which the source's
        `find` lists its ids. */
    method RefreshAll(identifier: string) returns (err: Option<Error>, ghost order: seq<Id>)
      modifies this`db
      ensures GetView(identifier).Some? ==>
        var spec := GetView(identifier).value;
        Distinct(order)
        && forall id :: id in order <==> id in Docs(Clear(old(db), spec.viewCollection), spec.sourceCollection)
      ensures Outcome(State(), err) == Propagation.RefreshAll(old(State()), store, identifier, order)
    {
      var existing := GetExistingSyncronisation(store, identifier);
      if existing.None? {
        return Some(UndefinedSyncronisation), [];
      }
      var spec := existing.value;
      var _ := ExecuteDatabaseComand(ClearAll(spec.viewCollection));
      assert db == Clear(old(db), spec.viewCollection);
      var ids := SourceIds(spec.sourceCollection);
      order := ids;
      err := RebuildIds(spec, ids);
      assert Written(db, err) == RebuildEach(Written(Clear(old(db), spec.viewCollection), None), spec, order);
    }

    /** `find({}).fetch()` on `c`, plucked to ids: every id once, in the
        storage's order. */
    method SourceIds(c: CollectionId) returns (ids: seq<Id>)
      ensures Distinct(ids)
      ensures forall id :: id in ids <==> id in Docs(db, c)
    {
      var remaining := Docs(db, c).Keys;
      ids := [];
      while remaining != {}
        invariant Distinct(ids)
        invariant forall id :: id in ids ==> id !in remaining
        invariant forall id :: id in ids || id in remaining <==> id in Docs(db, c)
        decreases remaining
      {
        var id :| id in remaining;
        ids := ids + [id];
        remaining := remaining - {id};
      }
    }

    /** The loop of `refreshAll` (255-267): each id is fetched, processed
        without a user and inserted into the view. */
    method RebuildIds(spec: SyncSpec, ids: seq<Id>) returns (err: Option<Error>)
      modifies this`db
      ensures Written(db, err) == RebuildEach(Written(old(db), None), spec, ids)
    {
      ghost var start := Written(db, None);
      var i := 0;
      while i < |ids|
        invariant 0 <= i <= |ids|
        invariant RebuildEach(start, spec, ids[..i]) == Written(db, None)
      {
        assert ids[..i + 1][..i] == ids[..i];
        var doc := FindOne(db, spec.sourceCollection, ids[i]);
        if doc.None? {
          err := Some(DocNotAnObject);
          RebuildStopsAtError(start, spec, ids, i + 1);
          return;
        }
        var r := ProcessDoc(spec, doc.value, None);
        if r.ProcessFailed? {
          err := Some(r.error);
          RebuildStopsAtError(start, spec, ids, i + 1);
          return;
        }
        var dup := ExecuteDatabaseComand(InsertDoc(spec.viewCollection, r.result));
        if dup.Some? {
          err := Some(DuplicateKey(dup.value));
          RebuildStopsAtError(start, spec, ids, i + 1);
          return;
        }
        i := i + 1;
      }
      assert ids[..|ids|] == ids;
      err := None;
    }

    /** Collection-hooks running every after-hook registered on `c`, in
        registration order, for a write the application made to `c`; the first
        hook that throws ends the dispatch. */
    method AfterWrite(c: CollectionId, ev: Event, user: Option<UserId>) returns (err: Option<Error>)
      modifies this`db, this`postHookCalls
      ensures Outcome(State(), err) == Dispatch(old(State()), store, hooks, c, ev, user)
    {
      var i := 0;
      while i < |hooks|
        invariant 0 <= i <= |hooks|
        invariant Dispatch(old(State()), store, hooks[..i], c, ev, user) == Outcome(State(), None)
      {
        DispatchNext(old(State()), store, hooks, i, c, ev, user);
        if HookCollection(hooks[i]) == c {
          err := RunHook(hooks[i], ev, user);
          if err.Some? {
            DispatchStopsAtError(old(State()), store, hooks, i + 1, c, ev, user);
            return;
          }
        }
        i := i + 1;
      }
      assert hooks[..|hooks|] == hooks;
      err := None;
    }

    // -------------------------------------------------------------------
    // The hooks

    method RunHook(h: Hook, ev: Event, user: Option<UserId>) returns (err: Option<Error>)
      modifies this`db, this`postHookCalls
      ensures Outcome(State(), err) == Propagation.RunHook(old(State()), store, h, ev, user)
    {
      match h
      case SourceHooks(spec) =>
        match ev {
          case Inserted(d) => err := AfterSourceInsert(spec, d, user);
          case Updated(d, _) => err := AfterSourceUpdate(spec, d, user);
          case Removed(d) => err := AfterSourceRemove(spec, d, user);
        }
      case RelatedHooks(b) =>
        match ev {
          case Inserted(d) => err := AfterRelatedChange(b, d, None, user);
          case Updated(d, prev) => err := AfterRelatedChange(b, d, Some(prev), user);
          case Removed(d) => err := AfterRelatedChange(b, d, None, user);
        }
    }

    /** `sourceCollection.after.insert` (70-90). */
    method AfterSourceInsert(spec: SyncSpec, doc: Doc, user: Option<UserId>) returns (err: Option<Error>)
      modifies this`db, this`postHookCalls
      ensures Outcome(State(), err) == Propagation.AfterSourceInsert(old(State()), spec, doc, user)
    {
      if IsDocValidToBeProcessed(db, spec, doc, user) {
        var r := ProcessDoc(spec, doc, user);
        if r.ProcessFailed? {
          return Some(r.error);
        }
        var dup := ExecuteDatabaseComand(InsertDoc(spec.viewCollection, r.result));
        if dup.Some? {
          return Some(DuplicateKey(dup.value));
        }
        CallPostHookIfExists(spec, r.working, user);
      } else {
        RemoveDocFromViewCollectionIfExists(spec.viewCollection, doc);
      }
      err := None;
    }

    /** `sourceCollection.after.update` (92-114). */
    method AfterSourceUpdate(spec: SyncSpec, doc: Doc, user: Option<UserId>) returns (err: Option<Error>)
      modifies this`db, this`postHookCalls
      ensures Outcome(State(), err) == Propagation.AfterSourceUpdate(old(State()), spec, doc, user)
    {
      if IsDocValidToBeProcessed(db, spec, doc, user) {
        var r := ProcessDoc(spec, doc, user);
        if r.ProcessFailed? {
          return Some(r.error);
        }
        var _ := ExecuteDatabaseComand(UpsertDoc(spec.viewCollection, IdOf(r.result), r.result));
        CallPostHookIfExists(spec, r.working, user);
      } else {
        RemoveDocFromViewCollectionIfExists(spec.viewCollection, doc);
      }
      err := None;
    }

    /** `sourceCollection.after.remove` (116-123). */
    method AfterSourceRemove(spec: SyncSpec, doc: Doc, user: Option<UserId>) returns (err: Option<Error>)
      modifies this`db, this`postHookCalls
      ensures Outcome(State(), err) == Propagation.AfterSourceRemove(old(State()), spec, doc, user)
    {
      var _ := ExecuteDatabaseComand(RemoveDoc(spec.viewCollection, IdOf(doc)));
      CallPostHookIfExists(spec, doc, user);
      err := None;
    }

    /** The three hooks `refreshByCollection` puts on the related collection
        (158-206), with `_validateAndCallRefreshIds` (460-482). */
    method AfterRelatedChange(b: Binding, doc: Doc, previous: Option<Doc>, user: Option<UserId>) returns (err: Option<Error>)
      modifies this`db
      ensures Outcome(State(), err) == Propagation.AfterRelatedChange(old(State()), store, b, doc, previous, user)
    {
      var ids := b.refreshIds(db, doc, previous, user);
      var validated := ValidateRefreshIds(ids);
      if validated.Failure? {
        return Some(validated.error);
      }
      if ids.Arr? && |ids.items| > 0 {
        err := UpdateIds(b.identifier, Strings(ids));
      } else {
        err := None;
      }
    }

    // -------------------------------------------------------------------
    // Internals

    /** `_callPostHookIfExists` (295-300). */
    method CallPostHookIfExists(spec: SyncSpec, doc: Doc, user: Option<UserId>)
      modifies this`postHookCalls
      ensures State() == Propagation.CallPostHookIfExists(old(State()), spec, doc, user)
    {
      if spec.hasPostHook {
        postHookCalls := postHookCalls + [PostHookCall(spec.identifier, doc, user)];
      }
    }

    /** `_removeDocFromViewCollectionIfExists` (386-394). */
    method RemoveDocFromViewCollectionIfExists(view: CollectionId, doc: Doc)
      modifies this`db
      ensures db == Propagation.RemoveDocFromViewCollectionIfExists(old(db), view, doc)
    {
      var _ := ExecuteDatabaseComand(RemoveDoc(view, IdOf(doc)));
    }

    /** `_executeDatabaseComand` (515-535), on the server and without
        deferral: the command runs at once. An insert may report the id it
        found already taken. */
    method ExecuteDatabaseComand(cmd: Command) returns (duplicate: Option<Id>)
      modifies this`db
      ensures Apply(old(db), cmd).Success? ==> db == Apply(old(db), cmd).value && duplicate == None
      ensures Apply(old(db), cmd).Failure? ==> db == old(db) && duplicate == Some(Apply(old(db), cmd).error)
    {
      match Apply(db, cmd)
      case Success(next) =>
        db := next;
        duplicate := None;
      case Failure(id) =>
        duplicate := Some(id);
    }

    /** `_unsetProperty` (493-505): the id must be a string. */
    method UnsetProperty(view: CollectionId, id: Option<Id>, property: string) returns (err: Option<Error>)
      modifies this`db
      ensures id.None? ==> err == Some(InvalidUnsetId) && db == old(db)
      ensures id.Some? ==> err == None && db == Unset(old(db), view, id.value, property)
    {
      if id.None? {
        return Some(InvalidUnsetId);
      }
      var _ := ExecuteDatabaseComand(UnsetField(view, id.value, property));
      err := None;
    }

    /** One loop of `_processDoc` over the properties of `sync` or `postSync`
        (325-344, 349-368): the document is mutated in place and each dropped
        property is unset in the view at once. */
    method ApplyProperties(doc: Doc, props: seq<Property>, stage: Stage, view: CollectionId, user: Option<UserId>)
      returns (d: Doc, err: Option<Error>)
      modifies this`db
      ensures Progress(d, db, err) == Run(Progress(doc, old(db), None), Slots(props, stage), view, user)
    {
      ghost var p0 := Progress(doc, db, None);
      ghost var plan := Slots(props, stage);
      d := doc;
      var i := 0;
      while i < |props|
        invariant 0 <= i <= |props|
        invariant Progress(d, db, None) == Run(p0, plan[..i], view, user)
      {
        assert plan[..i + 1][..i] == plan[..i];
        var property := props[i];
        match property.fn {
          case None =>
            err := Some(NotAFunction(stage, property.name));
            ErrorEndsRun(p0, plan, i, view, user);
            return;
          case Some(f) =>
            var result := f(db, d, user);
            if Keeps(result) {
              d := d[property.name := result];
            } else {
              d := d - {property.name};
              err := UnsetProperty(view, IdOf(d), property.name);
              if err.Some? {
                ErrorEndsRun(p0, plan, i, view, user);
                return;
              }
            }
        }
        i := i + 1;
      }
      assert plan[..|props|] == plan;
      err := None;
    }

    /** `_processDoc` (309-381). */
    method ProcessDoc(spec: SyncSpec, doc: Doc, user: Option<UserId>) returns (r: Processed)
      modifies this`db
      ensures r == Process(old(db), spec, doc, user)
      ensures db == r.db
    {
      ghost var p0 := Progress(doc, db, None);
      ghost var first := Slots(spec.sync, SyncStage);
      ghost var second := if spec.postSync.Some? then Slots(spec.postSync.value, PostSyncStage) else [];
      var d, err := ApplyProperties(doc, spec.sync, SyncStage, spec.viewCollection, user);
      ghost var mid := Progress(d, db, err);
      if spec.postSync.Some? && err.None? {
        d, err := ApplyProperties(d, spec.postSync.value, PostSyncStage, spec.viewCollection, user);
      }
      RunAppend(p0, first, second, spec.viewCollection, user);
      if mid.error.Some? {
        FailureSticks(mid, second, spec.viewCollection, user);
      }
      assert Progress(d, db, err) == Run(p0, Plan(spec), spec.viewCollection, user);
      if err.Some? {
        return ProcessFailed(db, err.value);
      }
      if spec.pick.None? {
        return Processed(d, d, db);
      }
      if spec.postSync.None? {
        return ProcessFailed(db, PostSyncUndefined);
      }
      r := Processed(d, Pick(d, PickKeys(spec)), db);
    }

    /** `_updateIds` (405-434). */
    method UpdateIds(identifier: string, ids: seq<Id>) returns (err: Option<Error>)
      modifies this`db
      ensures Outcome(State(), err) == Propagation.UpdateIds(old(State()), store, identifier, ids)
    {
      var existing := GetExistingSyncronisation(store, identifier);
      if existing.None? {
        return Some(UndefinedSyncronisation);
      }
      var spec := existing.value;
      ghost var start := Written(db, None);
      var i := 0;
      err := None;
      while i < |ids| && err.None?
        invariant 0 <= i <= |ids|
        invariant RefreshEach(start, spec, ids[..i]) == Written(db, err)
      {
        RefreshEachNext(start, spec, ids, i);
        err := RefreshId(spec, ids[i]);
        i := i + 1;
      }
      if err.Some? {
        RefreshStopsAtError(start, spec, ids, i);
      } else {
        assert ids[..i] == ids;
      }
      UpdateIdsLoop(old(State()), store, spec, ids);
    }

    /** One iteration of `_updateIds`'s loop (419-432): fetch the source
        document, process it without a user, `$set` the result into the view. */
    method RefreshId(spec: SyncSpec, id: Id) returns (err: Option<Error>)
      modifies this`db
      ensures Written(db, err) == RefreshStep(Written(old(db), None), spec, id)
    {
      var doc := FindOne(db, spec.sourceCollection, id);
      if doc.None? {
        return Some(MissingSourceDoc(id));
      }
      var r := ProcessDoc(spec, doc.value, None);
      if r.ProcessFailed? {
        return Some(r.error);
      }
      var _ := ExecuteDatabaseComand(SetDoc(spec.viewCollection, IdOf(r.result), r.result));
      err := None;
    }
  }
}
