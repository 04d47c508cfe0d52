/** What `addView` and `refreshByCollection` register, the errors the engine
    raises, and the checks and lookups on the global `SyncronisationStore`
    (denormalized-views.js:16-24, 33-66, 130-154, 441-449). */
module Registry {
  import opened Values
  import opened Storage

  type UserId = string

  /** A `sync`/`postSync` function `(doc, userId) => value`. It may read any
      collection, so it receives the database as it stands when it is called. */
  type Compute = (Db, Doc, Option<UserId>) -> Value

  /** One own property of a `sync` or `postSync` object, in declaration order;
      `fn` is `None` when the property's value is not a function. */
  datatype Property = Property(name: string, fn: Option<Compute>)

  /** A `refreshIds` function `(doc, docPrevious, userId) => ids`. */
  type RefreshIds = (Db, Doc, Option<Doc>, Option<UserId>) -> Value

  /** The options object that `addView` validates and pushes onto the store. */
  datatype SyncSpec = SyncSpec(
    identifier: string,
    sourceCollection: CollectionId,
    viewCollection: CollectionId,
    sync: seq<Property>,
    postSync: Option<seq<Property>>,
    pick: Option<seq<string>>,
    filter: Option<Compute>,
    hasPostHook: bool)

  /** The options of `refreshByCollection`. */
  datatype Binding = Binding(identifier: string, relatedCollection: CollectionId, refreshIds: RefreshIds)

  /** Which loop of `_processDoc` a property belongs to. */
  datatype Stage = SyncStage | PostSyncStage

  /** The errors the engine throws. */
  datatype Error =
    | IdentifierExists(identifier: string)      // ERROR_IDENTIFIERT_EXISTS
    | SourceAndViewSame                         // ERROR_SOURCE_AND_TARGET_COLLECTIONS_NEED_TO_BE_DIFFERENT
    | SyncEmpty                                 // ERROR_SYNC_NEEDS_TO_HAVE_CONTENT
    | SyncAlreadyExists                         // ERROR_SYNC_ALREADY_EXISTS_FOR_SOURCE_TARGET_COLLECTIONS
    | RelatedIsSourceOrView                     // ERROR_REFRESH_BY_COLLECTION_CAN_NOT_BE_SET_TO_SOURCE_COLLECTION
    | IdentifierNotRegistered                   // ERROR_REFRESH_BY_COLLECTION_NEEDS_TO_BE_ASSIGNED_TO_AN_EXISTING_ID
    | NotAFunction(stage: Stage, property: string) // `sync.<p>` / `postSync.<p>` needs to be a function
    | DocNotAnObject                            // options.doc needs to be an Object
    | PostSyncUndefined                         // getOwnPropertyNames(undefined) when `pick` is set without `postSync`
    | InvalidUnsetId                            // `_unsetProperty` given a doc without a string `_id`
    | InvalidRefreshIds(ids: Value)             // refreshIds returned something other than [String] or undefined
    | MissingSourceDoc(id: Id)                  // trying to refresh an id that the source does not hold
    | UndefinedSyncronisation                   // reading a property of the `undefined` a failed lookup returned
    | DuplicateKey(id: Id)                      // the view already holds a document with that `_id`

  function Names(props: seq<Property>): (r: seq<string>)
    ensures |r| == |props|
    ensures forall i :: 0 <= i < |props| ==> r[i] == props[i].name
  {
    if props == [] then [] else Names(props[..|props| - 1]) + [props[|props| - 1].name]
  }

  /** There is a spec with this identifier in the store. */
  predicate Registered(store: seq<SyncSpec>, identifier: string)
  {
    exists i :: 0 <= i < |store| && store[i].identifier == identifier
  }

  /** `_getExistingSyncronisation`: `_.find` returns the FIRST spec with the
      identifier, or `undefined`. */
  function GetExistingSyncronisation(store: seq<SyncSpec>, identifier: string): (r: Option<SyncSpec>)
    ensures r.Some? <==> Registered(store, identifier)
    ensures r.Some? ==> r.value.identifier == identifier
    ensures r.Some? ==> exists i :: 0 <= i < |store| && store[i] == r.value && (forall j :: 0 <= j < i ==> store[j].identifier != identifier)
  {
    if store == [] then None
    else if store[0].identifier == identifier then Some(store[0])
    else
      var r := GetExistingSyncronisation(store[1..], identifier);
      assert forall i :: 0 < i < |store| ==> store[i] == store[1..][i - 1];
      assert r.Some? ==> Registered(store, identifier);
      assert Registered(store, identifier) ==> r.Some? by {
        if Registered(store, identifier) {
          var i :| 0 <= i < |store| && store[i].identifier == identifier;
          assert store[1..][i - 1].identifier == identifier;
        }
      }
      r
  }

  predicate PairRegistered(store: seq<SyncSpec>, source: CollectionId, view: CollectionId)
  {
    exists i :: 0 <= i < |store| && store[i].sourceCollection == source && store[i].viewCollection == view
  }

  /** The four validations of `addView`, in the order the source makes them;
      `None` means the spec may be pushed. */
  function CheckNewView(store: seq<SyncSpec>, spec: SyncSpec): (r: Option<Error>)
    ensures r == None <==> (!Registered(store, spec.identifier) && spec.sourceCollection != spec.viewCollection
      && spec.sync != [] && !PairRegistered(store, spec.sourceCollection, spec.viewCollection))
    ensures r == Some(IdentifierExists(spec.identifier)) <==> Registered(store, spec.identifier)
    ensures r == Some(SourceAndViewSame) <==> !Registered(store, spec.identifier) && spec.sourceCollection == spec.viewCollection
    ensures r == Some(SyncEmpty) <==> (!Registered(store, spec.identifier) && spec.sourceCollection != spec.viewCollection
      && spec.sync == [])
    ensures r == Some(SyncAlreadyExists) <==> (!Registered(store, spec.identifier) && spec.sourceCollection != spec.viewCollection
      && spec.sync != [] && PairRegistered(store, spec.sourceCollection, spec.viewCollection))
  {
    if Registered(store, spec.identifier) then Some(IdentifierExists(spec.identifier))
    else if spec.sourceCollection == spec.viewCollection then Some(SourceAndViewSame)
    else if |spec.sync| == 0 then Some(SyncEmpty)
    else if PairRegistered(store, spec.sourceCollection, spec.viewCollection) then Some(SyncAlreadyExists)
    else None
  }

  /** The two validations of `refreshByCollection`, in the source's order. */
  function CheckBinding(store: seq<SyncSpec>, b: Binding): (r: Option<Error>)
    ensures r == Some(IdentifierNotRegistered) <==> !Registered(store, b.identifier)
    ensures r == Some(RelatedIsSourceOrView) <==> (Registered(store, b.identifier)
      && (b.relatedCollection == GetExistingSyncronisation(store, b.identifier).value.sourceCollection
       || b.relatedCollection == GetExistingSyncronisation(store, b.identifier).value.viewCollection))
    ensures r.Some? ==> r == Some(IdentifierNotRegistered) || r == Some(RelatedIsSourceOrView)
  {
    match GetExistingSyncronisation(store, b.identifier)
    case None => Some(IdentifierNotRegistered)
    case Some(spec) =>
      if spec.sourceCollection == b.relatedCollection || spec.viewCollection == b.relatedCollection
      then Some(RelatedIsSourceOrView)
      else None
  }

  /** What every store built by `addView` satisfies: identifiers unique, source
      and view different, `sync` non-empty, at most one spec per (source, view). */
  ghost predicate RegistryValid(store: seq<SyncSpec>)
  {
    (forall i, j :: 0 <= i < j < |store| ==> store[i].identifier != store[j].identifier)
    && (forall i :: 0 <= i < |store| ==> store[i].sourceCollection != store[i].viewCollection && store[i].sync != [])
    && (forall i, j :: 0 <= i < j < |store| ==>
          store[i].sourceCollection != store[j].sourceCollection || store[i].viewCollection != store[j].viewCollection)
  }

  /** `addView` keeps the store valid, and afterwards `getView` finds exactly
      the spec just added. */
  lemma {:induction false} AddViewKeepsRegistryValid(store: seq<SyncSpec>, spec: SyncSpec)
    requires RegistryValid(store) && CheckNewView(store, spec) == None
    ensures RegistryValid(store + [spec])
    ensures GetExistingSyncronisation(store + [spec], spec.identifier) == Some(spec)
  {
    var s := store + [spec];
    assert forall i :: 0 <= i < |store| ==> s[i] == store[i];
    assert s[|store|] == spec;
    var r := GetExistingSyncronisation(s, spec.identifier);
    var i :| 0 <= i < |s| && s[i] == r.value;
  }

  /** In a valid store the spec found for an identifier is the only one with it. */
  lemma {:induction false} LookupIsUnique(store: seq<SyncSpec>, i: nat)
    requires RegistryValid(store) && i < |store|
    ensures GetExistingSyncronisation(store, store[i].identifier) == Some(store[i])
  {
    var r := GetExistingSyncronisation(store, store[i].identifier);
    assert Registered(store, store[i].identifier);
    var j :| 0 <= j < |store| && store[j] == r.value && (forall k :: 0 <= k < j ==> store[k].identifier != store[i].identifier);
  }
}
