/** `extend(target, ...sources)` of tools.js: merges the own properties of every
    later argument into `target`, in place, recursing into a fresh object for
    object-typed values. */
module Tools {
  import opened Values

  /** The index properties "0", ..., "n-1" of an array, holding its first `n` elements. */
  function ArrayProps(s: seq<Value>, n: nat): map<string, Value>
    requires n <= |s|
  {
    if n == 0 then map[] else ArrayProps(s, n - 1)[IndexKey(n - 1) := s[n - 1]]
  }

  /** The properties `for (j in from)` visits and `from.hasOwnProperty(j)` keeps:
      an object's own properties, an array's index properties. */
  function OwnProps(v: Value): map<string, Value>
  {
    match v
    case Obj(m) => m
    case Arr(s) => ArrayProps(s, |s|)
    case _ => map[]
  }

  /** `t[k]`, which is `undefined` for a missing property. */
  function Get(t: map<string, Value>, k: string): Value
  {
    if k in t then t[k] else Undefined
  }

  /** The properties of `extend({}, v)`: a fresh object holding `v`'s own
      properties, with every object-typed value copied the same way. */
  function Copy(v: Value): map<string, Value>
    decreases v, 1, 0
  {
    match v
    case Obj(m) => map k | k in m :: CopyEntry(m[k])
    case Arr(s) => CopyItems(s, |s|)
    case _ => map[]
  }

  function CopyEntry(w: Value): Value
    decreases w, 2, 0
  {
    if IsObjectType(w) then Obj(Copy(w)) else w
  }

  function CopyItems(s: seq<Value>, n: nat): map<string, Value>
    requires n <= |s|
    decreases Arr(s), 0, n
  {
    if n == 0 then map[] else CopyItems(s, n - 1)[IndexKey(n - 1) := CopyEntry(s[n - 1])]
  }

  /** The value `target[j]` receives from an own property `j` of `from` whose
      value is `w` (tools.js:25-27). */
  function Entry(t: map<string, Value>, k: string, w: Value): Value
    decreases w, 2, 0
  {
    if IsObjectType(w) then Obj(Merge(Copy(Get(t, k)), w)) else w
  }

  /** One pass of the outer loop: the properties of `target` after merging in
      the argument `from`. Arguments whose `typeof` is not 'object' are skipped,
      and so is `null`, which has no own properties; no property is deleted. */
  function Merge(t: map<string, Value>, from: Value): (r: map<string, Value>)
    ensures t.Keys <= r.Keys
    ensures !(from.Arr? || from.Obj?) ==> r == t
    decreases from, 1, 0
  {
    match from
    case Obj(m) =>
      map k | k in t.Keys + m.Keys :: if k in m then Entry(t, k, m[k]) else t[k]
    case Arr(s) => MergeItems(t, s, |s|)
    case _ => t
  }

  function MergeItems(t: map<string, Value>, s: seq<Value>, n: nat): (r: map<string, Value>)
    requires n <= |s|
    ensures t.Keys <= r.Keys
    decreases Arr(s), 0, n
  {
    if n == 0 then t else MergeItems(t, s, n - 1)[IndexKey(n - 1) := Entry(t, IndexKey(n - 1), s[n - 1])]
  }

  /** Merging the own properties `p` into `t`: the inner loop's full effect. */
  function MergeProps(t: map<string, Value>, p: map<string, Value>): map<string, Value>
  {
    map k | k in t.Keys + p.Keys :: if k in p then Entry(t, k, p[k]) else t[k]
  }

  /** The properties of `target` after `extend(target, args...)`: every
      property `target` had is still there, and without an object or array
      among the arguments nothing changes. */
  function ExtendAll(t: map<string, Value>, args: seq<Value>): (r: map<string, Value>)
    ensures t.Keys <= r.Keys
    ensures (forall i :: 0 <= i < |args| ==> !(args[i].Arr? || args[i].Obj?)) ==> r == t
  {
    if args == [] then t else Merge(ExtendAll(t, args[..|args| - 1]), args[|args| - 1])
  }

  /** A value nested at most `n` levels deep: the JavaScript recursion on it
      terminates (cyclic objects are not values). */
  predicate Bounded(v: Value, n: nat)
  {
    match v
    case Obj(m) => m == map[] || (n > 0 && forall k :: k in m ==> Bounded(m[k], n - 1))
    case Arr(s) => s == [] || (n > 0 && forall i :: 0 <= i < |s| ==> Bounded(s[i], n - 1))
    case _ => true
  }

  // ---------------------------------------------------------------------
  // Lemmas about the merge

  lemma MergePropsUpdate(t: map<string, Value>, p: map<string, Value>, k: string, w: Value)
    ensures MergeProps(t, p[k := w]) == MergeProps(t, p)[k := Entry(t, k, w)]
  {
  }

  /** Assigning a property of `from` that has not been merged yet: it still
      reads its value in `target` from before the merge. */
  lemma MergeStep(t: map<string, Value>, p: map<string, Value>, k: string, w: Value)
    requires k !in p
    ensures Get(MergeProps(t, p), k) == Get(t, k)
    ensures Entry(MergeProps(t, p), k, w) == Entry(t, k, w)
    ensures MergeProps(t, p[k := w]) == MergeProps(t, p)[k := Entry(t, k, w)]
  {
    assert Get(MergeProps(t, p), k) == Get(t, k);
  }

  lemma {:induction false} MergeItemsIsMergeProps(t: map<string, Value>, s: seq<Value>, n: nat)
    requires n <= |s|
    ensures MergeItems(t, s, n) == MergeProps(t, ArrayProps(s, n))
  {
    if n > 0 {
      MergeItemsIsMergeProps(t, s, n - 1);
      MergePropsUpdate(t, ArrayProps(s, n - 1), IndexKey(n - 1), s[n - 1]);
    } else {
      assert MergeProps(t, map[]) == t;
    }
  }

  /** The outer-loop pass is the inner loop over the own properties. */
  lemma MergeIsMergeProps(t: map<string, Value>, from: Value)
    ensures Merge(t, from) == MergeProps(t, OwnProps(from))
  {
    match from
    case Arr(s) => MergeItemsIsMergeProps(t, s, |s|);
    case Obj(m) =>
    case _ => assert MergeProps(t, map[]) == t;
  }

  lemma {:induction false} MergeItemsIntoFreshIsCopy(s: seq<Value>, n: nat)
    requires n <= |s|
    ensures MergeItems(map[], s, n) == CopyItems(s, n)
    decreases Arr(s), 0, n
  {
    if n > 0 {
      MergeItemsIntoFreshIsCopy(s, n - 1);
      EntryIntoFreshIsCopy(IndexKey(n - 1), s[n - 1]);
    }
  }

  lemma {:induction false} EntryIntoFreshIsCopy(k: string, w: Value)
    ensures Entry(map[], k, w) == CopyEntry(w)
    decreases w, 2
  {
    if IsObjectType(w) {
      assert Copy(Get(map[], k)) == map[];
      MergeIntoFreshIsCopy(w);
    }
  }

  /** Merging into a fresh object is the copy: `extend({}, v)` has the
      properties `Copy(v)`. */
  lemma {:induction false} MergeIntoFreshIsCopy(v: Value)
    ensures Merge(map[], v) == Copy(v)
    decreases v, 1
  {
    match v
    case Obj(m) =>
      forall k | k in m
        ensures Entry(map[], k, m[k]) == CopyEntry(m[k])
      {
        EntryIntoFreshIsCopy(k, m[k]);
      }
    case Arr(s) =>
      MergeItemsIntoFreshIsCopy(s, |s|);
    case _ =>
  }

  /** The recursive call `extend({}, a, b)` of tools.js:26 has the properties
      `Merge(Copy(a), b)`, so `Entry` is that call. */
  lemma NestedExtend(t: map<string, Value>, k: string, w: Value)
    requires IsObjectType(w)
    ensures Entry(t, k, w) == Obj(ExtendAll(map[], [Get(t, k), w]))
  {
    var a := Get(t, k);
    assert [a, w][..1] == [a];
    assert [a][..0] == [];
    assert ExtendAll(map[], [a]) == Merge(map[], a);
    assert ExtendAll(map[], [a, w]) == Merge(ExtendAll(map[], [a]), w);
    MergeIntoFreshIsCopy(a);
  }

  /** An argument whose `typeof` is not 'object' has no effect, wherever it
      stands (tools.js:22). */
  lemma {:induction false} ExtendSkipsNonObjects(t: map<string, Value>, xs: seq<Value>, v: Value, ys: seq<Value>)
    requires !IsObjectType(v)
    ensures ExtendAll(t, xs + [v] + ys) == ExtendAll(t, xs + ys)
    decreases |ys|
  {
    if ys == [] {
      assert (xs + [v] + ys)[..|xs| + 1 - 1] == xs;
      assert xs + ys == xs;
    } else {
      var ys' := ys[..|ys| - 1];
      assert (xs + [v] + ys)[..|xs + [v] + ys| - 1] == xs + [v] + ys';
      assert (xs + ys)[..|xs + ys| - 1] == xs + ys';
      ExtendSkipsNonObjects(t, xs, v, ys');
    }
  }

  /** The own properties an argument contributes. */
  ghost predicate HasOwn(v: Value, k: string)
  {
    k in OwnProps(v)
  }

  /** A property that no later argument has keeps its value in `target`
      (tools.js:20-30). */
  lemma {:induction false} ExtendKeepsUntouched(t: map<string, Value>, args: seq<Value>, k: string)
    requires k in t
    requires forall i :: 0 <= i < |args| ==> !HasOwn(args[i], k)
    ensures k in ExtendAll(t, args) && ExtendAll(t, args)[k] == t[k]
    decreases |args|
  {
    if args != [] {
      var init := args[..|args| - 1];
      ExtendKeepsUntouched(t, init, k);
      MergeIsMergeProps(ExtendAll(t, init), args[|args| - 1]);
    }
  }

  /** `target` ends with exactly its own properties and those of every argument. */
  lemma {:induction false} ExtendKeys(t: map<string, Value>, args: seq<Value>, k: string)
    ensures k in ExtendAll(t, args) <==> (k in t || exists i :: 0 <= i < |args| && HasOwn(args[i], k))
    decreases |args|
  {
    if args != [] {
      var init := args[..|args| - 1];
      ExtendKeys(t, init, k);
      MergeIsMergeProps(ExtendAll(t, init), args[|args| - 1]);
      if k in ExtendAll(t, args) && k !in t {
        if !HasOwn(args[|args| - 1], k) {
          var i :| 0 <= i < |init| && HasOwn(init[i], k);
          assert args[i] == init[i];
        }
      }
      if exists i :: 0 <= i < |args| && HasOwn(args[i], k) {
        var i :| 0 <= i < |args| && HasOwn(args[i], k);
        if i < |init| {
          assert init[i] == args[i];
        }
      }
    }
  }

  /** The last argument that has the property `k` decides `target[k]`: a value
      that is not an object is copied over whatever was there (so later
      arguments win, contrary to the "without overwriting" comment), and an
      object-typed value becomes the fresh object `extend({}, old, value)`
      where `old` is `target[k]` just before that argument (tools.js:23-28). */
  lemma {:induction false} ExtendLastWins(t: map<string, Value>, args: seq<Value>, i: nat, k: string)
    requires i < |args| && HasOwn(args[i], k)
    requires forall j :: i < j < |args| ==> !HasOwn(args[j], k)
    ensures k in ExtendAll(t, args)
    ensures !IsObjectType(OwnProps(args[i])[k]) ==> ExtendAll(t, args)[k] == OwnProps(args[i])[k]
    ensures IsObjectType(OwnProps(args[i])[k]) ==>
      ExtendAll(t, args)[k] == Obj(ExtendAll(map[], [Get(ExtendAll(t, args[..i]), k), OwnProps(args[i])[k]]))
    decreases |args|
  {
    var init := args[..|args| - 1];
    MergeIsMergeProps(ExtendAll(t, init), args[|args| - 1]);
    if i == |args| - 1 {
      var w := OwnProps(args[i])[k];
      if IsObjectType(w) {
        NestedExtend(ExtendAll(t, init), k, w);
      }
    } else {
      forall j | i < j < |init|
        ensures !HasOwn(init[j], k)
      {
        assert init[j] == args[j];
      }
      assert init[i] == args[i];
      assert init[..i] == args[..i];
      ExtendLastWins(t, init, i, k);
    }
  }

  // ---------------------------------------------------------------------
  // Depth bounds: every value has one, and merging keeps within it

  lemma {:induction false} BoundedMono(v: Value, n: nat, n': nat)
    requires Bounded(v, n) && n <= n'
    ensures Bounded(v, n')
    decreases v
  {
    match v
    case Obj(m) =>
      forall k | k in m
        ensures Bounded(m[k], n' - 1)
      {
        BoundedMono(m[k], n - 1, n' - 1);
      }
    case Arr(s) =>
      forall i | 0 <= i < |s|
        ensures Bounded(s[i], n' - 1)
      {
        BoundedMono(s[i], n - 1, n' - 1);
      }
    case _ =>
  }

  /** Every value is finitely nested, so the ghost depth `Extend` asks for exists. */
  lemma {:induction false} ValueIsBounded(v: Value) returns (n: nat)
    ensures Bounded(v, n)
    decreases v, 1
  {
    match v
    case Obj(m) =>
      var b := MapBound(m, v);
      n := b + 1;
      forall k | k in m
        ensures Bounded(m[k], n - 1)
      {
      }
    case Arr(s) =>
      n := 0;
      var i := 0;
      while i < |s|
        invariant 0 <= i <= |s|
        invariant i == 0 || (n > 0 && forall j :: 0 <= j < i ==> Bounded(s[j], n - 1))
      {
        var b := ValueIsBounded(s[i]);
        var n' := if b + 1 > n then b + 1 else n;
        forall j | 0 <= j < i
          ensures Bounded(s[j], n' - 1)
        {
          assert i > 0;
          BoundedMono(s[j], n - 1, n' - 1);
        }
        BoundedMono(s[i], b, n' - 1);
        n := n';
        i := i + 1;
      }
    case _ =>
      n := 0;
  }

  lemma {:induction false} MapBound(m: map<string, Value>, parent: Value) returns (n: nat)
    requires parent.Obj? && forall k :: k in m ==> k in parent.props && parent.props[k] == m[k]
    ensures forall k :: k in m ==> Bounded(m[k], n)
    decreases parent, 0, |m|
  {
    if m == map[] {
      n := 0;
    } else {
      var k :| k in m;
      var rest := m - {k};
      var b0 := MapBound(rest, parent);
      assert m[k] == parent.props[k];
      var b1 := ValueIsBounded(parent.props[k]);
      n := if b0 > b1 then b0 else b1;
      forall k' | k' in m
        ensures Bounded(m[k'], n)
      {
        if k' == k {
          BoundedMono(m[k'], b1, n);
        } else {
          BoundedMono(m[k'], b0, n);
        }
      }
    }
  }

  lemma {:induction false} ArrayPropsBounded(s: seq<Value>, n: nat, d: nat)
    requires n <= |s|
    requires d > 0 && forall i :: 0 <= i < |s| ==> Bounded(s[i], d - 1)
    ensures forall k :: k in ArrayProps(s, n) ==> Bounded(ArrayProps(s, n)[k], d - 1)
  {
    if n > 0 {
      ArrayPropsBounded(s, n - 1, d);
    }
  }

  /** Every own property of a value nested at most `n` deep is nested at most `n - 1` deep. */
  lemma OwnPropBounded(v: Value, n: nat, k: string)
    requires Bounded(v, n) && k in OwnProps(v)
    ensures n > 0 && Bounded(OwnProps(v)[k], n - 1)
  {
    if v.Arr? {
      ArrayPropsBounded(v.items, |v.items|, n);
    }
  }

  /** Copying keeps within a depth bound. */
  lemma {:induction false} CopyBounded(v: Value, n: nat)
    requires Bounded(v, n)
    ensures Bounded(Obj(Copy(v)), n)
    decreases v, 1, 0
  {
    match v
    case Obj(m) =>
      forall k | k in m
        ensures Bounded(CopyEntry(m[k]), n - 1)
      {
        CopyEntryBounded(m[k], n - 1);
      }
    case Arr(s) =>
      if s != [] {
        CopyItemsBounded(s, |s|, n);
      }
    case _ =>
  }

  lemma {:induction false} CopyEntryBounded(w: Value, n: nat)
    requires Bounded(w, n)
    ensures Bounded(CopyEntry(w), n)
    decreases w, 2, 0
  {
    if IsObjectType(w) {
      CopyBounded(w, n);
    }
  }

  lemma {:induction false} CopyItemsBounded(s: seq<Value>, k: nat, n: nat)
    requires k <= |s| && n > 0 && forall i :: 0 <= i < |s| ==> Bounded(s[i], n - 1)
    ensures forall key :: key in CopyItems(s, k) ==> Bounded(CopyItems(s, k)[key], n - 1)
    decreases Arr(s), 0, k
  {
    if k > 0 {
      CopyItemsBounded(s, k - 1, n);
      CopyEntryBounded(s[k - 1], n - 1);
    }
  }

  /** `extend` nests no deeper than its target and arguments. */
  lemma {:induction false} MergeBounded(t: map<string, Value>, from: Value, n: nat)
    requires Bounded(Obj(t), n) && Bounded(from, n)
    ensures Bounded(Obj(Merge(t, from)), n)
    decreases from, 1, 0
  {
    match from
    case Obj(m) =>
      forall k | k in m
        ensures Bounded(Entry(t, k, m[k]), n - 1)
      {
        EntryBounded(t, k, m[k], n);
      }
    case Arr(s) =>
      MergeItemsBounded(t, s, |s|, n);
    case _ =>
  }

  lemma {:induction false} EntryBounded(t: map<string, Value>, k: string, w: Value, n: nat)
    requires n > 0 && Bounded(Obj(t), n) && Bounded(w, n - 1)
    ensures Bounded(Entry(t, k, w), n - 1)
    decreases w, 2, 0
  {
    if IsObjectType(w) {
      assert Bounded(Get(t, k), n - 1);
      CopyBounded(Get(t, k), n - 1);
      MergeBounded(Copy(Get(t, k)), w, n - 1);
    }
  }

  lemma {:induction false} MergeItemsBounded(t: map<string, Value>, s: seq<Value>, k: nat, n: nat)
    requires k <= |s| && Bounded(Obj(t), n) && Bounded(Arr(s), n)
    ensures Bounded(Obj(MergeItems(t, s, k)), n)
    decreases Arr(s), 0, k
  {
    if k > 0 {
      MergeItemsBounded(t, s, k - 1, n);
      EntryBounded(t, IndexKey(k - 1), s[k - 1], n);
    }
  }

  // ---------------------------------------------------------------------
  // The in-place operation

  /** A JavaScript object whose own properties are updated in place. */
  class JsObject {
    var props: map<string, Value>

    constructor ()
      ensures props == map[]
    {
      props := map[];
    }
  }

  /** `extend(target, args...)`: merges the arguments into `target` in place and
      returns that very object. `depth` bounds the nesting of `target` and of
      the arguments; it only serves the termination of the recursion. */
  method Extend(target: JsObject, args: seq<Value>, ghost depth: nat) returns (r: JsObject)
    requires Bounded(Obj(target.props), depth)
    requires forall i :: 0 <= i < |args| ==> Bounded(args[i], depth)
    modifies target
    ensures r == target
    ensures target.props == ExtendAll(old(target.props), args)
    ensures Bounded(Obj(target.props), depth)
    decreases depth, 2
  {
    var i := 0;
    while i < |args|
      invariant 0 <= i <= |args|
      invariant target.props == ExtendAll(old(target.props), args[..i])
      invariant Bounded(Obj(target.props), depth)
    {
      assert args[..i + 1][..i] == args[..i];
      if IsObjectType(args[i]) {
        MergeInto(target, args[i], depth);
      }
      i := i + 1;
    }
    assert args[..|args|] == args;
    r := target;
  }

  /** The body of the outer loop for one argument `from` whose `typeof` is
      'object': every own property of `from` is assigned to `target`. */
  method MergeInto(target: JsObject, from: Value, ghost depth: nat)
    requires IsObjectType(from)
    requires Bounded(Obj(target.props), depth) && Bounded(from, depth)
    modifies target
    ensures target.props == Merge(old(target.props), from)
    ensures Bounded(Obj(target.props), depth)
    decreases depth, 1
  {
    var own := OwnProps(from);
    ghost var before := target.props;
    ghost var done: map<string, Value> := map[];
    var todo := own.Keys;
    while todo != {}
      invariant todo <= own.Keys
      invariant done.Keys == own.Keys - todo
      invariant forall k :: k in done ==> done[k] == own[k]
      invariant target.props == MergeProps(before, done)
      decreases todo
    {
      var j :| j in todo;
      MergeStep(before, done, j, own[j]);
      OwnPropBounded(from, depth, j);
      assert Bounded(Get(before, j), depth - 1);
      AssignProperty(target, j, own[j], depth);
      done := done[j := own[j]];
      todo := todo - {j};
    }
    assert done == own;
    MergeIsMergeProps(before, from);
    MergeBounded(before, from, depth);
  }

  /** `target[j] = typeof w === 'object' ? extend({}, target[j], w) : w`
      (tools.js:25-27). */
  method AssignProperty(target: JsObject, j: string, w: Value, ghost depth: nat)
    requires depth > 0 && Bounded(Get(target.props, j), depth - 1) && Bounded(w, depth - 1)
    modifies target
    ensures target.props == old(target.props)[j := Entry(old(target.props), j, w)]
    decreases depth, 0
  {
    if IsObjectType(w) {
      var blank := new JsObject();
      var nested := Extend(blank, [Get(target.props, j), w], depth - 1);
      NestedExtend(old(target.props), j, w);
      target.props := target.props[j := Obj(nested.props)];
    } else {
      target.props := target.props[j := w];
    }
  }
}
