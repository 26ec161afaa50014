/** The structural matcher `match_pattern` of src/main.ts.

    The cases are tried in the source's fixed order: type wildcards,
    existential matching of `{name, value}` pair arrays, broadcast array
    patterns, strict equality on primitives, accessor against accessor,
    and finally the universal check over the keys of the pattern.

    Every recursive call takes a proper sub-pattern, so the recursion is
    measured by the pattern alone; the callbacks of `some` and `every` are
    the separate predicates PairsMatch and KeyMatches. */
module StructuralMatch {
  import opened JsValues

  /** `match_pattern(value, pattern)`. */
  predicate MatchPattern(v: Value, p: Pattern)
    decreases p, 1
    ensures MatchPattern(v, p) && p.PArr? ==> v.Arr?
    ensures MatchPattern(v, p) && p.PObj? ==> !IsPrimitive(v)
    ensures v.NaN? ==> !MatchPattern(v, p)
  {
    if p == AnyString then v.Str?
    else if p == AnyBoolean then v.Bool?
    else if p == AnyNumber then v.Num?
    else if IsPairArray(v) && IsPairArrayPattern(p) then
      exists i, j | 0 <= i < |v.elems| && 0 <= j < |p.elems| :: PairsMatch(v.elems[i], p.elems[j])
    else if p.PArr? then
      // only the first pattern element is used; `pattern[0]` of an empty
      // array pattern is undefined, which only the undefined value equals
      v.Arr? &&
      if |p.elems| == 0 then forall i | 0 <= i < |v.elems| :: v.elems[i].Undefined?
      else forall i | 0 <= i < |v.elems| :: MatchPattern(v.elems[i], p.elems[0])
    else if IsPrimitive(v) then StrictEquals(v, p)
    else if IsCallable(v) && p.PAccessor? then MatchPattern(Call(v, None), p.result)
    else
      match p
      case PObj(pm) => forall k | k in pm :: KeyMatches(v, k, pm[k])
      // a function, a number, a boolean or the empty string has no
      // enumerable own keys
      case PAccessor(_) | PNum(_) | PBool(_) | PNaN => true
      case PStr(s) => |s| == 0
      // `Object.keys` of null or undefined throws; the character indices of
      // a non-empty string are not followed (see README)
      case _ => false
  }

  /** The callback of `some`: a value pair and a pattern pair agree on both
      their name and their value. */
  predicate PairsMatch(vp: Value, pp: Pattern)
    requires IsPair(vp) && IsPairPattern(pp)
    decreases pp, 2
    ensures PairsMatch(vp, pp) && IsLiteral(pp.props["name"]) && IsPrimitive(vp.props["name"])
        ==> StrictEquals(vp.props["name"], pp.props["name"])
  {
    MatchPattern(vp.props["name"], pp.props["name"])
    && MatchPattern(vp.props["value"], pp.props["value"])
  }

  /** The callback of `every` over the keys of a record pattern: key `k`
      of the value satisfies the pattern entry `q`. */
  predicate KeyMatches(v: Value, k: string, q: Pattern)
    decreases q, 2
    ensures KeyMatches(v, k, q) ==> q != PUndefined && !v.Null?
    ensures IsCallable(v) && (IsPrimitive(Call(v, Some(k))) || Call(v, Some(k)).Null?)
        ==> !KeyMatches(v, k, q)
  {
    if q == PUndefined then false   // an undefined entry never matches
    else if v.Null? then false      // reading a key of null fails
    else if IsCallable(Get(v, k)) then MatchPattern(Get(v, k), q)
    else if IsCallable(v) then
      // computed entity: the field is obtained by calling the value with the
      // key; probing a primitive or null result for `name` and `value` fails
      var field := Call(v, Some(k));
      if IsPrimitive(field) || field.Null? then false
      else if IsPair(field) then
        IsCallable(field.props["value"]) && MatchPattern(Call(field.props["value"], None), q)
      else MatchPattern(field, q)
    else MatchPattern(Get(v, k), q)
  }
}
