/** `_processDoc` (denormalized-views.js:309-381) as a function of the database
    and the document, and the filter and `refreshIds` checks that gate it
    (277-290, 460-482). */
module Processing {
  import opened Values
  import opened Storage
  import opened Registry

  /** `result || result===[] || result===0`: a computed value is stored when it
      is truthy or the number 0. The comparison with a fresh array literal is
      never true, so it contributes nothing. */
  predicate Keeps(v: Value)
    ensures Keeps(v) <==> v !in {Undefined, Null, Bool(false), Str("")}
  {
    Truthy(v) || v == Num(0)
  }

  /** A property together with the loop (`sync` or `postSync`) it belongs to. */
  datatype Slot = Slot(stage: Stage, prop: Property)

  function Slots(props: seq<Property>, stage: Stage): (r: seq<Slot>)
    ensures |r| == |props|
    ensures forall i :: 0 <= i < |props| ==> r[i] == Slot(stage, props[i])
  {
    if props == [] then [] else Slots(props[..|props| - 1], stage) + [Slot(stage, props[|props| - 1])]
  }

  /** The properties `_processDoc` visits, in order: those of `sync`, then those
      of `postSync` when it is set. */
  function Plan(spec: SyncSpec): seq<Slot>
  {
    Slots(spec.sync, SyncStage) + (if spec.postSync.Some? then Slots(spec.postSync.value, PostSyncStage) else [])
  }

  /** The names of the slots' properties, in order. */
  function SlotNames(plan: seq<Slot>): (r: seq<string>)
    ensures |r| == |plan|
    ensures forall i :: 0 <= i < |plan| ==> r[i] == plan[i].prop.name
  {
    if plan == [] then [] else SlotNames(plan[..|plan| - 1]) + [plan[|plan| - 1].prop.name]
  }

  predicate DistinctNames(plan: seq<Slot>)
  {
    forall i, j :: 0 <= i < j < |plan| ==> plan[i].prop.name != plan[j].prop.name
  }

  /** The document being processed (mutated in place by the source), the
      database after the `$unset` writes issued so far, and the error thrown, if any. */
  datatype Progress = Progress(doc: Doc, db: Db, error: Option<Error>)

  /** One iteration of either loop of `_processDoc` (325-344, 349-368): after
      an error nothing happens; a slot that is not a function throws; only
      collection `view` is written, and no document there is created or
      removed. */
  function Step(p: Progress, s: Slot, view: CollectionId, user: Option<UserId>): (r: Progress)
    ensures p.error.Some? ==> r == p
    ensures r.error.None? ==> p.error.None? && s.prop.fn.Some?
    ensures forall c :: c != view ==> Docs(r.db, c) == Docs(p.db, c)
    ensures Docs(r.db, view).Keys == Docs(p.db, view).Keys
  {
    if p.error.Some? then p
    else match s.prop.fn
      case None => p.(error := Some(NotAFunction(s.stage, s.prop.name)))
      case Some(f) =>
        var v := f(p.db, p.doc, user);
        if Keeps(v) then p.(doc := p.doc[s.prop.name := v])
        else
          var d := p.doc - {s.prop.name};
          match IdOf(d)
          case None => Progress(d, p.db, Some(InvalidUnsetId))
          case Some(id) => Progress(d, Unset(p.db, view, id, s.prop.name), None)
  }

  /** The loops of `_processDoc` over the slots `plan`, stopping at the first
      error; they write to collection `view` only, and create and remove no
      document there. */
  function Run(p: Progress, plan: seq<Slot>, view: CollectionId, user: Option<UserId>): (r: Progress)
    ensures r.error.None? ==> p.error.None?
    ensures forall c :: c != view ==> Docs(r.db, c) == Docs(p.db, c)
    ensures Docs(r.db, view).Keys == Docs(p.db, view).Keys
  {
    if plan == [] then p else Step(Run(p, plan[..|plan| - 1], view, user), plan[|plan| - 1], view, user)
  }

  /** What `_processDoc` hands back: the document it mutated (`working`, which
      the caller's `doc` now is), the document it returns (`result`, the same
      one unless `pick` is set) and the database after its `$unset` writes; or
      the error it threw and the writes made until then. */
  datatype Processed =
    | Processed(working: Doc, result: Doc, db: Db)
    | ProcessFailed(db: Db, error: Error)

  /** `_.pick(d, keys)`. */
  function Pick(d: Doc, keys: seq<string>): Doc
  {
    map k | k in d && k in keys :: d[k]
  }

  /** The keys `pick` restricts the document to: `pick ∪ keys(sync) ∪ keys(postSync)`. */
  function PickKeys(spec: SyncSpec): seq<string>
    requires spec.pick.Some? && spec.postSync.Some?
  {
    spec.pick.value + Names(spec.sync) + Names(spec.postSync.value)
  }

  /** `_processDoc`: the result is part of the processed document; only the
      view collection is written, and no view document is created or removed;
      `pick` without `postSync` always throws. */
  function Process(db: Db, spec: SyncSpec, doc: Doc, user: Option<UserId>): (r: Processed)
    ensures r.Processed? ==> forall k :: k in r.result ==> k in r.working && r.result[k] == r.working[k]
    ensures forall c :: c != spec.viewCollection ==> Docs(r.db, c) == Docs(db, c)
    ensures Docs(r.db, spec.viewCollection).Keys == Docs(db, spec.viewCollection).Keys
    ensures spec.pick.Some? && spec.postSync.None? ==> r.ProcessFailed?
  {
    var s := Run(Progress(doc, db, None), Plan(spec), spec.viewCollection, user);
    if s.error.Some? then ProcessFailed(s.db, s.error.value)
    else if spec.pick.None? then Processed(s.doc, s.doc, s.db)
    else if spec.postSync.None? then ProcessFailed(s.db, PostSyncUndefined)
    else Processed(s.doc, Pick(s.doc, PickKeys(spec)), s.db)
  }

  /** `_isDocValidToBeProcessed`: without a filter every document is processed;
      a filter result of exactly `false` excludes it; a truthy result and the
      other falsy results `undefined`, `null`, `0` and `""` let it through. */
  predicate IsDocValidToBeProcessed(db: Db, spec: SyncSpec, doc: Doc, user: Option<UserId>)
    ensures spec.filter.None? ==> IsDocValidToBeProcessed(db, spec, doc, user)
    ensures spec.filter.Some? && spec.filter.value(db, doc, user) == Bool(false) ==>
      !IsDocValidToBeProcessed(db, spec, doc, user)
    ensures spec.filter.Some? ==> var v := spec.filter.value(db, doc, user);
      (Truthy(v) || v in {Undefined, Null, Num(0), Str("")}) ==> IsDocValidToBeProcessed(db, spec, doc, user)
  {
    spec.filter.None? || spec.filter.value(db, doc, user) != Bool(false)
  }

  /** `_validateAndCallRefreshIds` after the call: accepts an array of strings
      or `undefined`. (Comparing with a fresh `[]` is never true.) */
  function ValidateRefreshIds(ids: Value): (r: Result<Value, Error>)
    ensures r.Success? <==> IsStringArray(ids) || ids == Undefined
    ensures r.Success? ==> r.value == ids
    ensures r.Failure? ==> r.error == InvalidRefreshIds(ids)
  {
    if IsStringArray(ids) || ids.Undefined? then Success(ids) else Failure(InvalidRefreshIds(ids))
  }

  /** The strings of an array of strings. */
  function Strings(v: Value): (r: seq<string>)
    requires IsStringArray(v)
    ensures |r| == |v.items|
    ensures forall i :: 0 <= i < |r| ==> Str(r[i]) == v.items[i]
  {
    seq(|v.items|, i requires 0 <= i < |v.items| => v.items[i].s)
  }

  // ---------------------------------------------------------------------
  // Conditions under which processing cannot fail, and the id it works on

  /** Every property is a function, `pick` comes with `postSync`, and no
      property is named `_id` (so the document keeps its id throughout). */
  ghost predicate WellFormed(spec: SyncSpec)
  {
    (forall i :: 0 <= i < |Plan(spec)| ==> Plan(spec)[i].prop.fn.Some? && Plan(spec)[i].prop.name != "_id")
    && (spec.pick.Some? ==> spec.postSync.Some?)
  }

  /** The result carries the document's `_id`: no `pick`, or one listing `_id`. */
  predicate KeepsId(spec: SyncSpec)
  {
    spec.pick.None? || "_id" in spec.pick.value
  }

  // ---------------------------------------------------------------------
  // Lemmas about the run

  lemma {:induction false} FailureSticks(p: Progress, plan: seq<Slot>, view: CollectionId, user: Option<UserId>)
    requires p.error.Some?
    ensures Run(p, plan, view, user) == p
  {
    if plan != [] {
      FailureSticks(p, plan[..|plan| - 1], view, user);
    }
  }

  lemma {:induction false} RunAppend(p: Progress, xs: seq<Slot>, ys: seq<Slot>, view: CollectionId, user: Option<UserId>)
    ensures Run(p, xs + ys, view, user) == Run(Run(p, xs, view, user), ys, view, user)
    decreases |ys|
  {
    if ys == [] {
      assert xs + ys == xs;
    } else {
      assert (xs + ys)[..|xs + ys| - 1] == xs + ys[..|ys| - 1];
      RunAppend(p, xs, ys[..|ys| - 1], view, user);
    }
  }

  /** A run that ends without error got through every prefix without error. */
  lemma {:induction false} PrefixSucceeds(p: Progress, plan: seq<Slot>, k: nat, view: CollectionId, user: Option<UserId>)
    requires k <= |plan| && Run(p, plan, view, user).error.None?
    ensures Run(p, plan[..k], view, user).error.None?
  {
    RunAppend(p, plan[..k], plan[k..], view, user);
    assert plan[..k] + plan[k..] == plan;
    if Run(p, plan[..k], view, user).error.Some? {
      FailureSticks(Run(p, plan[..k], view, user), plan[k..], view, user);
    }
  }

  /** An error at slot `i` is the outcome of the whole run. */
  lemma {:induction false} ErrorEndsRun(p: Progress, plan: seq<Slot>, i: nat, view: CollectionId, user: Option<UserId>)
    requires i < |plan| && Run(p, plan[..i + 1], view, user).error.Some?
    ensures Run(p, plan, view, user) == Run(p, plan[..i + 1], view, user)
  {
    RunAppend(p, plan[..i + 1], plan[i + 1..], view, user);
    assert plan[..i + 1] + plan[i + 1..] == plan;
    FailureSticks(Run(p, plan[..i + 1], view, user), plan[i + 1..], view, user);
  }

  /** A property no slot names keeps its value through a successful run. */
  lemma {:induction false} RunUntouched(p: Progress, plan: seq<Slot>, k: string, view: CollectionId, user: Option<UserId>)
    requires forall i :: 0 <= i < |plan| ==> plan[i].prop.name != k
    requires Run(p, plan, view, user).error.None?
    ensures k in Run(p, plan, view, user).doc <==> k in p.doc
    ensures k in p.doc ==> Run(p, plan, view, user).doc[k] == p.doc[k]
  {
    if plan != [] {
      var init := plan[..|plan| - 1];
      PrefixSucceeds(p, plan, |plan| - 1, view, user);
      RunUntouched(p, init, k, view, user);
    }
  }

  /** The step of slot `i` keeps its property exactly when the value computed
      there is truthy or 0, and stores that value, provided no later slot has
      the same name: a property listed in both `sync` and `postSync` ends up as
      its `postSync` slot leaves it (denormalized-views.js:333-343, 357-367). */
  lemma {:induction false} RunKeepsExactly(p: Progress, plan: seq<Slot>, i: nat, view: CollectionId, user: Option<UserId>)
    requires i < |plan| && forall j :: i < j < |plan| ==> plan[j].prop.name != plan[i].prop.name
    requires Run(p, plan, view, user).error.None?
    ensures plan[i].prop.fn.Some?
    ensures var q := Run(p, plan[..i], view, user);
      var v := plan[i].prop.fn.value(q.db, q.doc, user);
      (plan[i].prop.name in Run(p, plan, view, user).doc <==> Keeps(v))
      && (Keeps(v) ==> Run(p, plan, view, user).doc[plan[i].prop.name] == v)
  {
    var q := Run(p, plan[..i], view, user);
    var name := plan[i].prop.name;
    assert plan[..i + 1][..i] == plan[..i];
    var q' := Run(p, plan[..i + 1], view, user);
    assert q' == Step(q, plan[i], view, user);
    PrefixSucceeds(p, plan, i + 1, view, user);
    RunAppend(p, plan[..i + 1], plan[i + 1..], view, user);
    assert plan[..i + 1] + plan[i + 1..] == plan;
    var rest := plan[i + 1..];
    forall j | 0 <= j < |rest|
      ensures rest[j].prop.name != name
    {
      assert rest[j] == plan[i + 1 + j];
    }
    RunUntouched(q', rest, name, view, user);
  }

  /** The view `after` is `before` with only document `id` changed, and that
      only by losing properties: those not in `names` stay, and those in
      `names` that `doc` lacks are gone. When `distinct` holds, those in
      `names` that `doc` holds stay too. */
  ghost predicate UnsetsDropped(before: Collection, after: Collection, id: Id, doc: Doc, names: seq<string>, distinct: bool)
  {
    after.Keys == before.Keys
    && (forall j :: j in before && j != id ==> after[j] == before[j])
    && (id in before ==> forall k ::
          (k in after[id] ==> k in before[id] && after[id][k] == before[id][k])
          && (k !in names ==> (k in after[id] <==> k in before[id]))
          && (k in names && k !in doc ==> k !in after[id])
          && (distinct && k in names && k in doc && k in before[id] ==> k in after[id]))
  }

  /** The database effect of a successful run on a document with id `id`: only
      the view document `id` changes, and only by losing properties: those no
      slot names stay, and those the run dropped from the document are gone.
      When no two slots share a name, a slot's property that the document still
      holds stays too. A document absent from the view leaves the database as
      it was. */
  lemma {:induction false} RunUnsetsOnly(p: Progress, plan: seq<Slot>, id: Id, view: CollectionId, user: Option<UserId>)
    requires forall i :: 0 <= i < |plan| ==> plan[i].prop.name != "_id"
    requires IdOf(p.doc) == Some(id)
    requires Run(p, plan, view, user).error.None?
    ensures var r := Run(p, plan, view, user);
      IdOf(r.doc) == Some(id)
      && (id !in Docs(p.db, view) ==> r.db == p.db)
      && (forall c :: c != view ==> Docs(r.db, c) == Docs(p.db, c))
      && UnsetsDropped(Docs(p.db, view), Docs(r.db, view), id, r.doc, SlotNames(plan), DistinctNames(plan))
  {
    if plan != [] {
      var init := plan[..|plan| - 1];
      var s := plan[|plan| - 1];
      PrefixSucceeds(p, plan, |plan| - 1, view, user);
      RunUnsetsOnly(p, init, id, view, user);
      var q := Run(p, init, view, user);
      assert SlotNames(plan) == SlotNames(init) + [s.prop.name];
      var unique := DistinctNames(init) && s.prop.name !in SlotNames(init);
      StepUnsetsDropped(Docs(p.db, view), q, s, id, view, user, SlotNames(init), DistinctNames(init));
      if DistinctNames(plan) {
        assert DistinctNames(init) by {
          forall a, b | 0 <= a < b < |init|
            ensures init[a].prop.name != init[b].prop.name
          {
            assert init[a] == plan[a] && init[b] == plan[b];
          }
        }
        assert s.prop.name !in SlotNames(init) by {
          forall j | 0 <= j < |init|
            ensures SlotNames(init)[j] != s.prop.name
          {
            assert init[j] == plan[j];
          }
        }
        assert unique == DistinctNames(plan);
      } else {
        UnsetsDroppedWeaken(Docs(p.db, view), Docs(Run(p, plan, view, user).db, view), id, Run(p, plan, view, user).doc, SlotNames(plan), unique);
      }
    }
  }

  /** One step of the loops keeps `UnsetsDropped` with the step's name added;
      the `distinct` part survives when the name is new. */
  lemma StepUnsetsDropped(before: Collection, q: Progress, s: Slot, id: Id, view: CollectionId, user: Option<UserId>, names: seq<string>, distinct: bool)
    requires q.error.None? && IdOf(q.doc) == Some(id) && s.prop.name != "_id"
    requires Step(q, s, view, user).error.None?
    requires UnsetsDropped(before, Docs(q.db, view), id, q.doc, names, distinct)
    ensures var t := Step(q, s, view, user);
      IdOf(t.doc) == Some(id)
      && (id !in Docs(q.db, view) ==> t.db == q.db)
      && UnsetsDropped(before, Docs(t.db, view), id, t.doc, names + [s.prop.name], distinct && s.prop.name !in names)
  {
    var v := s.prop.fn.value(q.db, q.doc, user);
    if !Keeps(v) {
      assert (q.doc - {s.prop.name})["_id"] == q.doc["_id"];
    }
  }

  lemma UnsetsDroppedWeaken(before: Collection, after: Collection, id: Id, doc: Doc, names: seq<string>, distinct: bool)
    requires UnsetsDropped(before, after, id, doc, names, distinct)
    ensures UnsetsDropped(before, after, id, doc, names, false)
  {
  }

  /** `postSync` functions see the values `sync` just stored: when slot `i`
      kept its value, every later slot's function up to the next slot of the
      same name is called on a document holding that value
      (denormalized-views.js:336, 357). */
  lemma {:induction false} LaterSlotsSeeKeptValues(p: Progress, plan: seq<Slot>, i: nat, j: nat, view: CollectionId, user: Option<UserId>)
    requires i < j <= |plan| && forall m :: i < m < j ==> plan[m].prop.name != plan[i].prop.name
    requires Run(p, plan, view, user).error.None?
    ensures plan[i].prop.fn.Some?
    ensures var q := Run(p, plan[..i], view, user);
      var v := plan[i].prop.fn.value(q.db, q.doc, user);
      var before := Run(p, plan[..j], view, user).doc;
      (plan[i].prop.name in before <==> Keeps(v)) && (Keeps(v) ==> before[plan[i].prop.name] == v)
  {
    var pre := plan[..j];
    PrefixSucceeds(p, plan, j, view, user);
    assert pre[..i] == plan[..i];
    assert pre[i] == plan[i];
    assert forall m :: i < m < |pre| ==> pre[m] == plan[m];
    RunKeepsExactly(p, pre, i, view, user);
  }

  // ---------------------------------------------------------------------
  // Lemmas about `_processDoc` as a whole

  lemma {:induction false} RunWellFormedSucceeds(p: Progress, plan: seq<Slot>, view: CollectionId, user: Option<UserId>)
    requires p.error.None? && IdOf(p.doc).Some?
    requires forall i :: 0 <= i < |plan| ==> plan[i].prop.fn.Some? && plan[i].prop.name != "_id"
    ensures Run(p, plan, view, user).error.None?
    ensures IdOf(Run(p, plan, view, user).doc) == IdOf(p.doc)
  {
    if plan != [] {
      var init := plan[..|plan| - 1];
      RunWellFormedSucceeds(p, init, view, user);
      var q := Run(p, init, view, user);
      var s := plan[|plan| - 1];
      var v := s.prop.fn.value(q.db, q.doc, user);
      if !Keeps(v) {
        assert (q.doc - {s.prop.name})["_id"] == q.doc["_id"];
      }
    }
  }

  /** A well-formed spec processes every document that has an id without error. */
  lemma ProcessSucceeds(db: Db, spec: SyncSpec, doc: Doc, user: Option<UserId>)
    requires WellFormed(spec) && IdOf(doc).Some?
    ensures Process(db, spec, doc, user).Processed?
  {
    RunWellFormedSucceeds(Progress(doc, db, None), Plan(spec), spec.viewCollection, user);
  }

  /** With `pick`, the result holds exactly the keys of the processed document
      that lie in `pick ∪ keys(sync) ∪ keys(postSync)`, with their values; without
      it, the result is the processed document (denormalized-views.js:372-380). */
  lemma PickBound(db: Db, spec: SyncSpec, doc: Doc, user: Option<UserId>)
    requires Process(db, spec, doc, user).Processed?
    ensures var r := Process(db, spec, doc, user);
      (spec.pick.None? ==> r.result == r.working)
      && (spec.pick.Some? ==> spec.postSync.Some? && forall k ::
            (k in r.result <==> k in r.working && k in PickKeys(spec))
            && (k in r.result ==> r.result[k] == r.working[k]))
  {
  }

  /** Without `pick`, or with one that lists `_id`, the result keeps the
      document's id through a well-formed spec. */
  lemma ProcessKeepsId(db: Db, spec: SyncSpec, doc: Doc, user: Option<UserId>)
    requires WellFormed(spec) && KeepsId(spec) && IdOf(doc).Some?
    ensures Process(db, spec, doc, user).Processed?
    ensures IdOf(Process(db, spec, doc, user).result) == IdOf(doc)
  {
    RunWellFormedSucceeds(Progress(doc, db, None), Plan(spec), spec.viewCollection, user);
  }

  /** `pick` without `_id` drops the document's id from the result. */
  lemma PickDropsId(db: Db, spec: SyncSpec, doc: Doc, user: Option<UserId>)
    requires Process(db, spec, doc, user).Processed?
    requires spec.pick.Some? && "_id" !in PickKeys(spec)
    ensures "_id" !in Process(db, spec, doc, user).result
  {
  }

  /** `_processDoc`'s writes on a document with id `id`: the view document `id`
      loses the properties dropped from the processed document, keeps those no
      slot names and, when no two slots share a name, those the processed
      document holds; nothing else in the database changes (340-342, 364-366). */
  lemma ProcessUnsetsOnly(db: Db, spec: SyncSpec, doc: Doc, user: Option<UserId>, id: Id)
    requires WellFormed(spec) && IdOf(doc) == Some(id)
    ensures Process(db, spec, doc, user).Processed?
    ensures var r := Process(db, spec, doc, user);
      var before := Docs(db, spec.viewCollection);
      var after := Docs(r.db, spec.viewCollection);
      IdOf(r.working) == Some(id)
      && (id !in before ==> r.db == db)
      && (forall c :: c != spec.viewCollection ==> Docs(r.db, c) == Docs(db, c))
      && UnsetsDropped(before, after, id, r.working, SlotNames(Plan(spec)), DistinctNames(Plan(spec)))
  {
    var p := Progress(doc, db, None);
    RunWellFormedSucceeds(p, Plan(spec), spec.viewCollection, user);
    RunUnsetsOnly(p, Plan(spec), id, spec.viewCollection, user);
  }

  /** The frame of `_processDoc`'s writes: on a document with id `id`, no view
      document other than `id` changes, and none at all when the view does not
      hold `id`. */
  lemma ProcessTouchesOnlyItsId(db: Db, spec: SyncSpec, doc: Doc, user: Option<UserId>, id: Id)
    requires WellFormed(spec) && IdOf(doc) == Some(id)
    ensures Process(db, spec, doc, user).Processed?
    ensures var r := Process(db, spec, doc, user);
      IdOf(r.working) == Some(id)
      && (id !in Docs(db, spec.viewCollection) ==> r.db == db)
      && (forall j :: j in Docs(db, spec.viewCollection) && j != id ==>
            Docs(r.db, spec.viewCollection)[j] == Docs(db, spec.viewCollection)[j])
  {
    ProcessUnsetsOnly(db, spec, doc, user, id);
  }

  // ---------------------------------------------------------------------
  // Functions that do not read the view

  /** The databases hold the same documents in every collection but `c`. */
  ghost predicate AgreeOutside(db1: Db, db2: Db, c: CollectionId)
  {
    forall c' :: c' != c ==> Docs(db1, c') == Docs(db2, c')
  }

  /** Every function of the slots gives the same value on databases that
      differ only in collection `c`. */
  ghost predicate IgnoresCollection(plan: seq<Slot>, c: CollectionId)
  {
    forall i, db1: Db, db2: Db, d: Doc, u: Option<UserId> ::
      0 <= i < |plan| && plan[i].prop.fn.Some? && AgreeOutside(db1, db2, c) ==>
        plan[i].prop.fn.value(db1, d, u) == plan[i].prop.fn.value(db2, d, u)
  }

  lemma IgnoresPrefix(plan: seq<Slot>, k: nat, c: CollectionId)
    requires k <= |plan| && IgnoresCollection(plan, c)
    ensures IgnoresCollection(plan[..k], c)
  {
    forall i, db1: Db, db2: Db, d: Doc, u: Option<UserId> |
      0 <= i < k && plan[..k][i].prop.fn.Some? && AgreeOutside(db1, db2, c)
      ensures plan[..k][i].prop.fn.value(db1, d, u) == plan[..k][i].prop.fn.value(db2, d, u)
    {
      assert plan[..k][i] == plan[i];
    }
  }

  lemma {:induction false} RunIgnoresView(p1: Progress, p2: Progress, plan: seq<Slot>, view: CollectionId, user: Option<UserId>)
    requires IgnoresCollection(plan, view)
    requires p1.doc == p2.doc && p1.error == p2.error && AgreeOutside(p1.db, p2.db, view)
    ensures Run(p1, plan, view, user).doc == Run(p2, plan, view, user).doc
    ensures Run(p1, plan, view, user).error == Run(p2, plan, view, user).error
    ensures AgreeOutside(Run(p1, plan, view, user).db, Run(p2, plan, view, user).db, view)
  {
    if plan != [] {
      var init := plan[..|plan| - 1];
      IgnoresPrefix(plan, |plan| - 1, view);
      RunIgnoresView(p1, p2, init, view, user);
      StepIgnoresView(Run(p1, init, view, user), Run(p2, init, view, user), plan, view, user);
    }
  }

  lemma StepIgnoresView(q1: Progress, q2: Progress, plan: seq<Slot>, view: CollectionId, user: Option<UserId>)
    requires plan != [] && IgnoresCollection(plan, view)
    requires q1.doc == q2.doc && q1.error == q2.error && AgreeOutside(q1.db, q2.db, view)
    ensures Step(q1, plan[|plan| - 1], view, user).doc == Step(q2, plan[|plan| - 1], view, user).doc
    ensures Step(q1, plan[|plan| - 1], view, user).error == Step(q2, plan[|plan| - 1], view, user).error
    ensures AgreeOutside(Step(q1, plan[|plan| - 1], view, user).db, Step(q2, plan[|plan| - 1], view, user).db, view)
  {
    var s := plan[|plan| - 1];
    if q1.error.None? && s.prop.fn.Some? {
      assert s.prop.fn.value(q1.db, q1.doc, user) == s.prop.fn.value(q2.db, q1.doc, user);
    }
  }

  /** When the spec's functions do not read the view, processing gives the same
      documents whatever the view holds. */
  lemma ProcessIgnoresView(db1: Db, db2: Db, spec: SyncSpec, doc: Doc, user: Option<UserId>)
    requires IgnoresCollection(Plan(spec), spec.viewCollection) && AgreeOutside(db1, db2, spec.viewCollection)
    ensures Process(db1, spec, doc, user).Processed? <==> Process(db2, spec, doc, user).Processed?
    ensures Process(db1, spec, doc, user).Processed? ==>
      Process(db1, spec, doc, user).working == Process(db2, spec, doc, user).working
      && Process(db1, spec, doc, user).result == Process(db2, spec, doc, user).result
  {
    RunIgnoresView(Progress(doc, db1, None), Progress(doc, db2, None), Plan(spec), spec.viewCollection, user);
  }
}
