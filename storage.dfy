/** The database the engine reads and writes: every collection is a map from
    `_id` to the stored document, and the writes the engine issues (insert,
    `$set` with and without upsert, `$unset`, remove by id, `remove({})`) are
    map operations. */
module Storage {
  import opened Values

  type Id = string

  /** A collection handle; two handles are `===` exactly when they are equal. */
  type CollectionId = string

  type Collection = map<Id, Doc>

  /** All collections. */
  datatype Db = Db(collections: map<CollectionId, Collection>)

  /** The documents of collection `c` (a collection never written to is empty). */
  function Docs(db: Db, c: CollectionId): Collection
  {
    if c in db.collections then db.collections[c] else map[]
  }

  function WithDocs(db: Db, c: CollectionId, docs: Collection): (r: Db)
    ensures Docs(r, c) == docs
    ensures forall c' :: c' != c ==> Docs(r, c') == Docs(db, c')
  {
    db.(collections := db.collections[c := docs])
  }

  /** `doc._id` when it is a string; `None` stands for `undefined`. */
  function IdOf(d: Doc): Option<Id>
  {
    if "_id" in d && d["_id"].Str? then Some(d["_id"].s) else None
  }

  /** `collection.findOne(id)`: the stored document, carrying its `_id`. */
  function FindOne(db: Db, c: CollectionId, id: Id): (r: Option<Doc>)
    ensures r.Some? <==> id in Docs(db, c)
    ensures r.Some? ==> IdOf(r.value) == Some(id)
    ensures r.Some? ==> forall k :: k != "_id" ==>
      (k in r.value <==> k in Docs(db, c)[id]) && (k in r.value ==> r.value[k] == Docs(db, c)[id][k])
  {
    if id in Docs(db, c) then Some(Docs(db, c)[id]["_id" := Str(id)]) else None
  }

  /** The `k`-th candidate for a generated id: `k + 1` hash signs. Candidates
      differ in length, so no two are equal. */
  function Hashes(k: nat): (r: Id)
    ensures |r| == k + 1
  {
    seq(k + 1, _ => '#')
  }

  /** The first candidate from the `k`-th on that is not in `taken`. */
  function FirstFree(taken: set<Id>, k: nat): (r: Id)
    ensures r !in taken && |r| > k
    decreases |taken|
  {
    var candidate := Hashes(k);
    if candidate !in taken then candidate else FirstFree(taken - {candidate}, k + 1)
  }

  /** The id the storage gives to a document inserted without one: one that
      no document of the collection has. */
  function FreshId(docs: Collection): (r: Id)
    ensures r !in docs
  {
    FirstFree(docs.Keys, 0)
  }

  /** The id an insert or upsert stores the document under: the one given, or
      a generated one when the `_id` or the selector is `undefined`. */
  function Select(db: Db, c: CollectionId, sel: Option<Id>): (r: Id)
    ensures sel.Some? ==> r == sel.value
    ensures sel.None? ==> r !in Docs(db, c)
  {
    match sel
    case Some(id) => id
    case None => FreshId(Docs(db, c))
  }

  /** `collection.insert(d)`: stores `d` under its `_id`, or under a generated
      one; an id already present is a duplicate-key error. */
  function Insert(db: Db, c: CollectionId, d: Doc): (r: Result<Db, Id>)
    ensures r.Success? ==> exists id :: id !in Docs(db, c) && Docs(r.value, c) == Docs(db, c)[id := d["_id" := Str(id)]]
    ensures r.Success? ==> forall c' :: c' != c ==> Docs(r.value, c') == Docs(db, c')
    ensures r.Success? ==> |Docs(r.value, c)| == |Docs(db, c)| + 1
    ensures r.Failure? <==> IdOf(d).Some? && IdOf(d).value in Docs(db, c)
    ensures r.Success? && IdOf(d).Some? ==> Docs(r.value, c) == Docs(db, c)[IdOf(d).value := d]
  {
    var id := Select(db, c, IdOf(d));
    if id in Docs(db, c) then Failure(id)
    else
      assert IdOf(d).Some? ==> d["_id" := Str(id)] == d;
      Success(WithDocs(db, c, Docs(db, c)[id := d["_id" := Str(id)]]))
  }

  /** `collection.update(sel, { $set: d }, { upsert: true })`: the fields of `d`
      overwrite those of the selected document, which is created when absent;
      an `undefined` selector always creates one. */
  function Upsert(db: Db, c: CollectionId, sel: Option<Id>, d: Doc): (r: Db)
    ensures Docs(r, c).Keys == Docs(db, c).Keys + {Select(db, c, sel)}
    ensures sel.None? ==> |Docs(r, c)| == |Docs(db, c)| + 1
    ensures forall c' :: c' != c ==> Docs(r, c') == Docs(db, c')
  {
    var id := Select(db, c, sel);
    var base := if id in Docs(db, c) then Docs(db, c)[id] else map[];
    WithDocs(db, c, Docs(db, c)[id := (base + d)["_id" := Str(id)]])
  }

  /** `collection.update(sel, { $set: d })`: as `Upsert`, but nothing happens
      when no document is selected (an `undefined` selector selects none). */
  function SetFields(db: Db, c: CollectionId, sel: Option<Id>, d: Doc): (r: Db)
    ensures Docs(r, c).Keys == Docs(db, c).Keys
    ensures forall c' :: c' != c ==> Docs(r, c') == Docs(db, c')
    ensures sel.None? || sel.value !in Docs(db, c) ==> r == db
  {
    match sel
    case None => db
    case Some(id) =>
      if id in Docs(db, c) then WithDocs(db, c, Docs(db, c)[id := (Docs(db, c)[id] + d)["_id" := Str(id)]])
      else db
  }

  /** `collection.update(id, { $unset: { p: 1 } })`: the document loses `p` and
      nothing else. */
  function Unset(db: Db, c: CollectionId, id: Id, p: string): (r: Db)
    ensures Docs(r, c).Keys == Docs(db, c).Keys
    ensures forall c' :: c' != c ==> Docs(r, c') == Docs(db, c')
    ensures forall j :: j in Docs(db, c) && j != id ==> Docs(r, c)[j] == Docs(db, c)[j]
    ensures id in Docs(db, c) ==> p !in Docs(r, c)[id] && forall k :: k != p ==>
      (k in Docs(r, c)[id] <==> k in Docs(db, c)[id]) && (k in Docs(r, c)[id] ==> Docs(r, c)[id][k] == Docs(db, c)[id][k])
  {
    if id in Docs(db, c) then WithDocs(db, c, Docs(db, c)[id := Docs(db, c)[id] - {p}]) else db
  }

  /** `collection.remove(sel)`: removes the document with that id, if any (an
      `undefined` selector selects none). */
  function Remove(db: Db, c: CollectionId, sel: Option<Id>): (r: Db)
    ensures sel.Some? ==> sel.value !in Docs(r, c)
    ensures forall j :: Some(j) != sel ==> (j in Docs(r, c) <==> j in Docs(db, c)) && (j in Docs(r, c) ==> Docs(r, c)[j] == Docs(db, c)[j])
    ensures forall c' :: c' != c ==> Docs(r, c') == Docs(db, c')
  {
    match sel
    case None => db
    case Some(id) => WithDocs(db, c, Docs(db, c) - {id})
  }

  /** `collection.remove({})`: the collection is empty afterwards. */
  function Clear(db: Db, c: CollectionId): (r: Db)
    ensures Docs(r, c) == map[]
    ensures forall c' :: c' != c ==> Docs(r, c') == Docs(db, c')
  {
    WithDocs(db, c, map[])
  }

  /** The database commands the engine hands to `_executeDatabaseComand`. */
  datatype Command =
    | InsertDoc(c: CollectionId, d: Doc)
    | UpsertDoc(c: CollectionId, sel: Option<Id>, d: Doc)
    | SetDoc(c: CollectionId, sel: Option<Id>, d: Doc)
    | UnsetField(c: CollectionId, id: Id, p: string)
    | RemoveDoc(c: CollectionId, sel: Option<Id>)
    | ClearAll(c: CollectionId)

  /** The effect of running `cmd`: the new database, or the duplicate id an
      insert ran into. */
  function Apply(db: Db, cmd: Command): (r: Result<Db, Id>)
    ensures r.Failure? <==> cmd.InsertDoc? && IdOf(cmd.d).Some? && IdOf(cmd.d).value in Docs(db, cmd.c)
    ensures r.Failure? ==> r.error == IdOf(cmd.d).value
  {
    match cmd
    case InsertDoc(c, d) => Insert(db, c, d)
    case UpsertDoc(c, sel, d) => Success(Upsert(db, c, sel, d))
    case SetDoc(c, sel, d) => Success(SetFields(db, c, sel, d))
    case UnsetField(c, id, p) => Success(Unset(db, c, id, p))
    case RemoveDoc(c, sel) => Success(Remove(db, c, sel))
    case ClearAll(c) => Success(Clear(db, c))
  }

  // ---------------------------------------------------------------------
  // What each write does to the selected document and to the rest

  /** Every write touches one collection only. */
  lemma {:induction false} ApplyTouchesOneCollection(db: Db, cmd: Command, c': CollectionId)
    requires Apply(db, cmd).Success? && c' != cmd.c
    ensures Docs(Apply(db, cmd).value, c') == Docs(db, c')
  {
    match cmd
    case InsertDoc(c, d) =>
    case UpsertDoc(c, sel, d) =>
    case SetDoc(c, sel, d) =>
    case UnsetField(c, id, p) =>
    case RemoveDoc(c, sel) =>
    case ClearAll(c) =>
  }

  /** After an upsert the selected document holds every field that was set,
      whether or not it existed before, and keeps its other fields. */
  lemma UpsertHoldsFields(db: Db, c: CollectionId, id: Id, d: Doc)
    requires "_id" in d ==> d["_id"] == Str(id)
    ensures id in Docs(Upsert(db, c, Some(id), d), c)
    ensures forall k :: k in d ==> k in Docs(Upsert(db, c, Some(id), d), c)[id] && Docs(Upsert(db, c, Some(id), d), c)[id][k] == d[k]
    ensures id in Docs(db, c) ==> forall k :: k in Docs(db, c)[id] && k !in d && k != "_id" ==>
      k in Docs(Upsert(db, c, Some(id), d), c)[id] && Docs(Upsert(db, c, Some(id), d), c)[id][k] == Docs(db, c)[id][k]
    ensures forall k :: k in Docs(Upsert(db, c, Some(id), d), c)[id] ==> k == "_id" || k in d || (id in Docs(db, c) && k in Docs(db, c)[id])
    ensures forall j :: j != id ==> (j in Docs(Upsert(db, c, Some(id), d), c) <==> j in Docs(db, c))
    ensures forall j :: j != id && j in Docs(db, c) ==> Docs(Upsert(db, c, Some(id), d), c)[j] == Docs(db, c)[j]
  {
  }

  /** A `$set` without upsert never creates a document and changes only the
      selected one. */
  lemma SetFieldsCreatesNothing(db: Db, c: CollectionId, id: Id, d: Doc)
    ensures Docs(SetFields(db, c, Some(id), d), c).Keys == Docs(db, c).Keys
    ensures forall j :: j != id && j in Docs(db, c) ==> Docs(SetFields(db, c, Some(id), d), c)[j] == Docs(db, c)[j]
    ensures id in Docs(db, c) ==> forall k :: k in d && k != "_id" ==> Docs(SetFields(db, c, Some(id), d), c)[id][k] == d[k]
    ensures id in Docs(db, c) ==> Docs(SetFields(db, c, Some(id), d), c)[id]["_id"] == Str(id)
    ensures id in Docs(db, c) ==> forall k :: k !in d && k != "_id" ==>
      (k in Docs(SetFields(db, c, Some(id), d), c)[id] <==> k in Docs(db, c)[id])
      && (k in Docs(db, c)[id] ==> Docs(SetFields(db, c, Some(id), d), c)[id][k] == Docs(db, c)[id][k])
  {
  }
}
