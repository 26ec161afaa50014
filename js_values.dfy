/** The closed universe of runtime values that the structural matcher of
    src/main.ts inspects.  JavaScript decides what a value "is" by probing
    (`typeof`, `Array.isArray`, `Reflect.has`); here every such probe is a
    predicate over an explicit tagged variant.

    Numbers are integers plus an explicit NaN; callables are closures over
    their own data and ignore the receiver they are invoked with. */
module JsValues {

  datatype Option<+T> = None | Some(value: T)

  /** The value side of a match: the subject and everything reachable from it. */
  datatype Value =
    | Str(s: string)
    | Bool(b: bool)
    | Num(n: int)
    | NaN
    | Undefined
    | Null
    | Arr(elems: seq<Value>)
    | Obj(props: map<string, Value>)
      /** A zero-argument accessor `() => result`; any argument is ignored. */
    | Accessor(result: Value)
      /** A computed entity `k => fields[k]`: called with a key it yields that
          field (undefined for an unknown key or a missing argument). */
    | Entity(fields: map<string, Value>)

  /** The pattern side of a match: literals, the three type wildcards
      (the `String`, `Boolean` and `Number` constructors used as sentinels),
      arrays, record patterns and zero-argument accessors.  The `Object`
      constructor used as a pattern is a function whose call returns `{}`,
      so it is `PAccessor(PObj(map[]))`. */
  datatype Pattern =
    | AnyString
    | AnyBoolean
    | AnyNumber
    | PStr(s: string)
    | PBool(b: bool)
    | PNum(n: int)
    | PNaN
    | PUndefined
    | PNull
    | PArr(elems: seq<Pattern>)
    | PObj(props: map<string, Pattern>)
    | PAccessor(result: Pattern)

  /** `typeof v` is neither "object" nor "function" (null is an object). */
  predicate IsPrimitive(v: Value) {
    v.Str? || v.Bool? || v.Num? || v.NaN? || v.Undefined?
  }

  /** `typeof v === "function"`. */
  predicate IsCallable(v: Value) {
    v.Accessor? || v.Entity?
  }

  /** A pattern built from a single literal primitive (or null). */
  predicate IsLiteral(p: Pattern) {
    p.PStr? || p.PBool? || p.PNum? || p.PNaN? || p.PUndefined? || p.PNull?
  }

  /** Strict equality `v === p` of a value against a pattern.  NaN is never
      equal to anything, and no object is identical to a literal. */
  predicate StrictEquals(v: Value, p: Pattern) {
    match v
    case Str(s) => p == PStr(s)
    case Bool(b) => p == PBool(b)
    case Num(n) => p == PNum(n)
    case Undefined => p == PUndefined
    case _ => false
  }

  /** Property lookup `v[k]` on a non-null object or a function.  Only plain
      records carry own properties in this model. */
  function Get(v: Value, k: string): Value {
    if v.Obj? && k in v.props then v.props[k] else Undefined
  }

  /** Invoking a callable, with one key argument or with none. */
  function Call(f: Value, arg: Option<string>): Value
    requires IsCallable(f)
  {
    match f
    case Accessor(r) => r
    case Entity(fields) =>
      if arg.Some? && arg.value in fields then fields[arg.value] else Undefined
  }

  /** `isKeyValuePair`: a record that has both a `name` and a `value` key. */
  predicate IsPair(v: Value)
    // `Reflect.has` on a primitive or null throws; the model answers "not a pair"
    ensures IsPair(v) ==> !IsPrimitive(v) && !v.Null? && !IsCallable(v)
  {
    v.Obj? && "name" in v.props && "value" in v.props
  }

  /** `isArrayOfKeyValuePair`: an array all of whose elements are pairs
      (vacuously true of the empty array). */
  predicate IsPairArray(v: Value)
    ensures IsPairArray(v) ==> v.Arr?
    ensures v == Arr([]) ==> IsPairArray(v)
  {
    v.Arr? && forall i | 0 <= i < |v.elems| :: IsPair(v.elems[i])
  }

  /** `isKeyValuePair` applied to a pattern. */
  predicate IsPairPattern(p: Pattern) {
    p.PObj? && "name" in p.props && "value" in p.props
  }

  /** `isArrayOfKeyValuePair` applied to a pattern. */
  predicate IsPairArrayPattern(p: Pattern) {
    p.PArr? && forall j | 0 <= j < |p.elems| :: IsPairPattern(p.elems[j])
  }
}
