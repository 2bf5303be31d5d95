/**
 The parsed JSON values the validator receives, and the few pieces of
 JavaScript semantics it relies on: truthiness, named property access,
 `x[0]`, and the `in` operator (which throws a TypeError on primitives).
 JavaScript's `undefined` is `None`.
 */
module JsValue {

  /** A value produced by JSON.parse. Numbers are integers: the validator only
      ever asks whether a number is zero. */
  datatype Json =
    | Null
    | Bool(b: bool)
    | Num(n: int)
    | Str(s: string)
    | Arr(elems: seq<Json>)
    | Obj(fields: map<string, Json>)

  /** `None` is JavaScript's `undefined`. */
  datatype Option<+T> = None | Some(value: T)

  /** The exception a JavaScript evaluation can raise here. */
  datatype JsError = InOperatorOnPrimitive(key: string)

  /** Either the value an evaluation returns or the exception it throws. */
  datatype Result<+T> = Ok(value: T) | Throw(error: JsError)

  /** Null, booleans, numbers and strings; `key in v` throws for these. */
  predicate IsPrimitive(v: Json) {
    !(v.Obj? || v.Arr?)
  }

  /** JavaScript truthiness: `undefined`, `null`, `false`, `0` and `""` are
      falsy; every array and object, even an empty one, is truthy. */
  predicate Truthy(v: Option<Json>) {
    match v
    case None => false
    case Some(Null) => false
    case Some(Bool(b)) => b
    case Some(Num(n)) => n != 0
    case Some(Str(s)) => s != ""
    case Some(Arr(_)) => true
    case Some(Obj(_)) => true
  }

  /** The keys `key in v` finds on an array or object. An array's own keys are
      its indices and `length`; the validator only asks about non-numeric
      names, so only `length` is listed. */
  function KeysOf(v: Json): set<string> {
    match v
    case Obj(m) => m.Keys
    case Arr(_) => {"length"}
    case _ => {}
  }

  /** `key in v`. */
  function In(key: string, v: Json): (r: Result<bool>)
    ensures r.Throw? <==> IsPrimitive(v)
    ensures r.Ok? ==> (r.value <==> key in KeysOf(v))
  {
    if IsPrimitive(v) then Throw(InOperatorOnPrimitive(key)) else Ok(key in KeysOf(v))
  }

  /** `names[0] in v || names[1] in v || ...`, evaluated left to right with
      short-circuiting. */
  function InAny(names: seq<string>, v: Json): (r: Result<bool>)
    ensures names != [] && IsPrimitive(v) ==> r == Throw(InOperatorOnPrimitive(names[0]))
    ensures !IsPrimitive(v) ==> r.Ok? && (r.value <==> exists n :: n in names && n in KeysOf(v))
  {
    if names == [] then Ok(false)
    else match In(names[0], v)
      case Throw(e) => Throw(e)
      case Ok(found) => if found then Ok(true) else InAny(names[1..], v)
  }

  /** `v.key` for a non-index key. Reading a property of `null` throws, and the
      validator never does it, hence the precondition. */
  function Prop(v: Json, key: string): Option<Json>
    requires !v.Null?
  {
    match v
    case Obj(m) => if key in m then Some(m[key]) else None
    case Arr(a) => if key == "length" then Some(Num(|a|)) else None
    case Str(s) => if key == "length" then Some(Num(|s|)) else None
    case _ => None
  }

  /** `v[0]`. A string yields its first character as a one-character string. */
  function Index0(v: Json): Option<Json>
    requires !v.Null?
  {
    match v
    case Arr(a) => if |a| > 0 then Some(a[0]) else None
    case Obj(m) => if "0" in m then Some(m["0"]) else None
    case Str(s) => if |s| > 0 then Some(Str([s[0]])) else None
    case _ => None
  }
}
