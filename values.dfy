/** JavaScript values as they occur in documents, options and results, and the
    few JavaScript semantics the engine relies on (truthiness, `typeof`). */
module Values {

  datatype Option<+T> = None | Some(value: T)

  datatype Result<+T, +E> = Success(value: T) | Failure(error: E)

  /** A JavaScript value. Numbers are integers: NaN, fractions and -0 are not
      modelled. Functions do not occur inside documents. */
  datatype Value =
    | Undefined
    | Null
    | Bool(b: bool)
    | Num(n: int)
    | Str(s: string)
    | Arr(items: seq<Value>)
    | Obj(props: map<string, Value>)

  /** A document: the own properties of a plain object. */
  type Doc = map<string, Value>

  /** JavaScript's ToBoolean: the value is truthy in an `if`. */
  predicate Truthy(v: Value)
    ensures Truthy(v) <==> v !in {Undefined, Null, Bool(false), Num(0), Str("")}
  {
    match v
    case Undefined => false
    case Null => false
    case Bool(b) => b
    case Num(n) => n != 0
    case Str(s) => s != ""
    case Arr(_) => true
    case Obj(_) => true
  }

  /** `typeof v === 'object'`, which holds for null and arrays too. */
  predicate IsObjectType(v: Value)
    ensures IsObjectType(v) <==> !(v.Undefined? || v.Bool? || v.Num? || v.Str?)
  {
    v.Null? || v.Arr? || v.Obj?
  }

  /** An array whose every element is a string (Meteor's `Match.test(v, [String])`). */
  predicate IsStringArray(v: Value)
    ensures IsStringArray(v) <==> v.Arr? && forall x :: x in v.items ==> x.Str?
  {
    v.Arr? && forall i :: 0 <= i < |v.items| ==> v.items[i].Str?
  }

  function Digit(d: nat): char
    requires d < 10
  {
    "0123456789"[d]
  }

  /** The decimal property name under which an array holds its element `i`. */
  function IndexKey(i: nat): string
  {
    if i < 10 then [Digit(i)] else IndexKey(i / 10) + [Digit(i % 10)]
  }
}
