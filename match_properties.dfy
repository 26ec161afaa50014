/** What `match_pattern` promises, stated over the model of src/main.ts. */
module MatchProperties {
  import opened JsValues
  import opened StructuralMatch

  /** `isArrayOfKeyValuePair` is `every(isKeyValuePair)`: the empty array
      qualifies vacuously, extending an array keeps it qualified exactly
      when the new element is a pair, and nothing but an array qualifies. */
  lemma PairArrayRecognition(v: Value, s: seq<Value>, x: Value)
    ensures IsPairArray(Arr([]))
    ensures IsPairArray(Arr(s + [x])) <==> IsPairArray(Arr(s)) && IsPair(x)
    ensures !v.Arr? ==> !IsPairArray(v)
  {
    if IsPairArray(Arr(s + [x])) {
      assert (s + [x])[|s|] == x;
      forall i | 0 <= i < |s| ensures IsPair(s[i]) {
        assert (s + [x])[i] == s[i];
      }
    }
  }

  /** The type wildcards accept exactly the strings, the booleans and the
      numbers other than NaN; no array, record or callable is accepted. */
  lemma Wildcards(v: Value)
    ensures MatchPattern(v, AnyString) <==> v.Str?
    ensures MatchPattern(v, AnyBoolean) <==> v.Bool?
    ensures MatchPattern(v, AnyNumber) <==> v.Num?
  {
  }

  /** A literal pattern matches a primitive exactly when the primitive is
      strictly equal to it; in particular NaN matches nothing and no
      primitive matches NaN. */
  lemma LiteralIsStrictEquality(v: Value, p: Pattern)
    requires IsLiteral(p) && IsPrimitive(v)
    ensures MatchPattern(v, p) <==> StrictEquals(v, p)
    ensures !MatchPattern(v, PNaN)
  {
  }

  /** Against a record, array, null or callable, a number, boolean, NaN or
      empty-string pattern has no keys to check and matches vacuously, while
      a non-empty string, null or undefined pattern does not match. */
  lemma LiteralAgainstObject(v: Value, p: Pattern)
    requires IsLiteral(p) && !IsPrimitive(v)
    ensures MatchPattern(v, p) <==> (p.PNum? || p.PBool? || p.PNaN? || p == PStr(""))
  {
  }

  /** An array pattern that does not take the pair branch compares every
      element of the value with its first element. */
  lemma ArrayPatternUnfold(v: Value, ps: seq<Pattern>)
    requires |ps| > 0 && !(IsPairArray(v) && IsPairArrayPattern(PArr(ps)))
    ensures MatchPattern(v, PArr(ps)) == (v.Arr? && forall i | 0 <= i < |v.elems| :: MatchPattern(v.elems[i], ps[0]))
  {
  }

  /** An array pattern whose first element is not a pair record is a
      broadcast template: the value must be an array every element of which
      matches that first element; the remaining pattern elements are ignored. */
  lemma Broadcast(v: Value, q: Pattern, rest: seq<Pattern>)
    requires !(IsPairArray(v) && IsPairPattern(q))
    ensures MatchPattern(v, PArr([q] + rest))
        <==> v.Arr? && forall i | 0 <= i < |v.elems| :: MatchPattern(v.elems[i], q)
    ensures MatchPattern(v, PArr([q] + rest)) == MatchPattern(v, PArr([q]))
  {
    var ps := [q] + rest;
    assert ps[0] == q && [q][0] == q;
    assert !IsPairArrayPattern(PArr(ps)) || !IsPairArray(v) by {
      if IsPairArrayPattern(PArr(ps)) {
        assert IsPairPattern(ps[0]);
      }
    }
    assert !IsPairArrayPattern(PArr([q])) || !IsPairArray(v) by {
      if IsPairArrayPattern(PArr([q])) {
        assert IsPairPattern([q][0]);
      }
    }
    ArrayPatternUnfold(v, ps);
    ArrayPatternUnfold(v, [q]);
  }

  /** Broadcasting over a concatenation is the conjunction of broadcasting
      over each part; the empty array matches vacuously. */
  lemma BroadcastConcat(a: seq<Value>, b: seq<Value>, q: Pattern)
    requires !IsPairPattern(q)
    ensures MatchPattern(Arr([]), PArr([q]))
    ensures MatchPattern(Arr(a + b), PArr([q]))
        <==> MatchPattern(Arr(a), PArr([q])) && MatchPattern(Arr(b), PArr([q]))
  {
    assert !IsPairArrayPattern(PArr([q])) by {
      assert [q][0] == q;
    }
    if MatchPattern(Arr(a), PArr([q])) && MatchPattern(Arr(b), PArr([q])) {
      forall i | 0 <= i < |a + b| ensures MatchPattern((a + b)[i], q) {
        if i < |a| {
          assert (a + b)[i] == a[i];
        } else {
          assert (a + b)[i] == b[i - |a|];
        }
      }
    }
    if MatchPattern(Arr(a + b), PArr([q])) {
      forall i | 0 <= i < |a| ensures MatchPattern(a[i], q) {
        assert (a + b)[i] == a[i];
      }
      forall i | 0 <= i < |b| ensures MatchPattern(b[i], q) {
        assert (a + b)[|a| + i] == b[i];
      }
    }
  }

  /** The empty array is vacuously an array of pairs, so against an array
      pattern it takes the existential branch: it fails against every
      pattern made only of pair records (including the empty pattern) and
      matches every other array pattern. */
  lemma EmptyArrayAgainstArrayPattern(ps: seq<Pattern>)
    ensures MatchPattern(Arr([]), PArr(ps)) <==> !IsPairArrayPattern(PArr(ps))
  {
  }

  /** Pair matching is existential, not positional: a value array whose
      pairs are among those of another (as a multiset) can only match less,
      and so reordering the pairs never changes the outcome. */
  lemma PairMatchValueSide(vs: seq<Value>, ws: seq<Value>, p: Pattern)
    requires IsPairArray(Arr(ws)) && IsPairArrayPattern(p)
    requires multiset(vs) <= multiset(ws)
    ensures IsPairArray(Arr(vs))
    ensures MatchPattern(Arr(vs), p) ==> MatchPattern(Arr(ws), p)
  {
    forall i | 0 <= i < |vs| ensures IsPair(vs[i]) {
      assert vs[i] in multiset(ws);
      var i' :| 0 <= i' < |ws| && ws[i'] == vs[i];
    }
    if MatchPattern(Arr(vs), p) {
      var i, j :| 0 <= i < |vs| && 0 <= j < |p.elems| && PairsMatch(vs[i], p.elems[j]);
      assert vs[i] in multiset(ws);
      var i' :| 0 <= i' < |ws| && ws[i'] == vs[i];
      assert PairsMatch(ws[i'], p.elems[j]);
    }
  }

  /** The pattern side of the same law: more pattern pairs (as a multiset)
      can only make an existential match easier. */
  lemma PairMatchPatternSide(v: Value, ps: seq<Pattern>, qs: seq<Pattern>)
    requires IsPairArray(v) && IsPairArrayPattern(PArr(qs))
    requires multiset(ps) <= multiset(qs)
    ensures IsPairArrayPattern(PArr(ps))
    ensures MatchPattern(v, PArr(ps)) ==> MatchPattern(v, PArr(qs))
  {
    forall j | 0 <= j < |ps| ensures IsPairPattern(ps[j]) {
      assert ps[j] in multiset(qs);
      var j' :| 0 <= j' < |qs| && qs[j'] == ps[j];
    }
    if MatchPattern(v, PArr(ps)) {
      var i, j :| 0 <= i < |v.elems| && 0 <= j < |ps| && PairsMatch(v.elems[i], ps[j]);
      assert ps[j] in multiset(qs);
      var j' :| 0 <= j' < |qs| && qs[j'] == ps[j];
      assert PairsMatch(v.elems[i], qs[j']);
    }
  }

  /** The empty record pattern is a vacuous universal: it matches every
      record, array, null or callable, and no primitive. */
  lemma EmptyRecordPattern(v: Value)
    ensures MatchPattern(v, PObj(map[])) <==> !IsPrimitive(v)
  {
  }

  /** Fail-closed keys: a record pattern with an undefined entry matches
      nothing, whatever the value holds under that key. */
  lemma UndefinedEntryFailsClosed(v: Value, pm: map<string, Pattern>, k: string)
    requires k in pm && pm[k] == PUndefined
    ensures !MatchPattern(v, PObj(pm))
  {
    assert !KeyMatches(v, k, pm[k]);
  }

  /** On anything but a primitive, a record pattern is the universal check
      of its keys. */
  lemma RecordPatternUnfold(v: Value, pm: map<string, Pattern>)
    requires !IsPrimitive(v)
    ensures MatchPattern(v, PObj(pm)) == forall k | k in pm :: KeyMatches(v, k, pm[k])
  {
  }

  /** A record pattern is the conjunction of its keys: joining two record
      patterns over disjoint keys matches exactly when both parts match. */
  lemma RecordPatternConjunction(v: Value, pm1: map<string, Pattern>, pm2: map<string, Pattern>)
    requires pm1.Keys !! pm2.Keys
    ensures MatchPattern(v, PObj(pm1 + pm2))
        <==> MatchPattern(v, PObj(pm1)) && MatchPattern(v, PObj(pm2))
  {
    var pm := pm1 + pm2;
    if !IsPrimitive(v) {
      RecordPatternUnfold(v, pm);
      RecordPatternUnfold(v, pm1);
      RecordPatternUnfold(v, pm2);
      assert forall k | k in pm1 :: pm[k] == pm1[k];
      assert forall k | k in pm2 :: pm[k] == pm2[k];
    }
  }

  /** Dropping keys from a record pattern can only make it match more. */
  lemma RecordPatternWeakening(v: Value, pm1: map<string, Pattern>, pm2: map<string, Pattern>)
    requires pm1.Keys <= pm2.Keys
    requires forall k | k in pm1 :: pm2[k] == pm1[k]
    ensures MatchPattern(v, PObj(pm2)) ==> MatchPattern(v, PObj(pm1))
  {
    var extra := map k | k in pm2 && k !in pm1 :: pm2[k];
    assert pm1 + extra == pm2;
    RecordPatternConjunction(v, pm1, extra);
  }

  /** Keys present only on the value are ignored. */
  lemma ExtraValueKeysIgnored(m: map<string, Value>, extra: map<string, Value>, pm: map<string, Pattern>)
    requires extra.Keys !! pm.Keys
    ensures MatchPattern(Obj(m + extra), PObj(pm)) == MatchPattern(Obj(m), PObj(pm))
  {
    forall k | k in pm ensures KeyMatches(Obj(m + extra), k, pm[k]) == KeyMatches(Obj(m), k, pm[k]) {
      assert Get(Obj(m + extra), k) == Get(Obj(m), k);
    }
  }

  /** Two accessors are compared through what they return. */
  lemma AccessorAgainstAccessor(r: Value, q: Pattern)
    ensures MatchPattern(Accessor(r), PAccessor(q)) == MatchPattern(r, q)
  {
  }

  /** A computed entity called without a key yields undefined, and that is
      what an accessor pattern's result is compared with. */
  lemma EntityAgainstAccessor(fields: map<string, Value>, q: Pattern)
    ensures MatchPattern(Entity(fields), PAccessor(q)) == MatchPattern(Undefined, q)
  {
  }

  /** Every pair field of a computed entity exposes its value through an
      accessor, as the field records of the demonstration items do. */
  predicate WellFormedEntity(fields: map<string, Value>) {
    forall k | k in fields && IsPair(fields[k]) :: IsCallable(fields[k].props["value"])
  }

  /** The plain record an entity stands for: every pair field replaced by
      what its `value` accessor returns. */
  function Resolved(fields: map<string, Value>): (m: map<string, Value>)
    requires WellFormedEntity(fields)
    ensures m.Keys == fields.Keys
    ensures forall k | k in fields && !IsPair(fields[k]) :: m[k] == fields[k]
  {
    map k | k in fields :: if IsPair(fields[k]) then Call(fields[k].props["value"], None) else fields[k]
  }

  /** The entity holds an object (a record, an array or a callable) under
      every key of `keys`: calling it with such a key returns something that
      can be probed for `name` and `value`. */
  predicate ObjectFieldsAt(fields: map<string, Value>, keys: set<string>) {
    forall k | k in keys :: k in fields && !IsPrimitive(fields[k]) && !fields[k].Null?
  }

  /** A computed entity is matched against a record pattern exactly as the
      plain record of its resolved fields would be, provided that every
      pattern key yields an object: the key is passed to the entity and a
      returned `{name, value}` field is read through `value()`.  A pattern
      key under which the entity yields a primitive, null or nothing makes
      the probe fail, and then the entity does not match. */
  lemma EntityMatchesAsResolvedRecord(fields: map<string, Value>, pm: map<string, Pattern>)
    requires WellFormedEntity(fields)
    ensures MatchPattern(Entity(fields), PObj(pm))
        <==> ObjectFieldsAt(fields, pm.Keys) && MatchPattern(Obj(Resolved(fields)), PObj(pm))
  {
    var r := Resolved(fields);
    forall k | k in pm && k in fields && !IsPrimitive(fields[k]) && !fields[k].Null?
      ensures KeyMatches(Entity(fields), k, pm[k]) == KeyMatches(Obj(r), k, pm[k])
    {
      assert Call(Entity(fields), Some(k)) == fields[k];
      if IsPair(fields[k]) {
        assert Get(Obj(r), k) == Call(fields[k].props["value"], None);
      }
    }
    if !ObjectFieldsAt(fields, pm.Keys) {
      var k :| k in pm && !(k in fields && !IsPrimitive(fields[k]) && !fields[k].Null?);
      assert !KeyMatches(Entity(fields), k, pm[k]);
    }
  }

  /** A one-key record pattern is exactly the check of that key, on any
      value that is not a primitive. */
  lemma SingleKeyPattern(v: Value, k: string, q: Pattern)
    requires !IsPrimitive(v)
    ensures MatchPattern(v, PObj(map[k := q])) == KeyMatches(v, k, q)
  {
    var pm := map[k := q];
    RecordPatternUnfold(v, pm);
    assert pm.Keys == {k} && pm[k] == q;
  }

  /** Computed-entity resolution of one key: the entity is called with the
      key, and a returned `{name, value}` field is compared through what its
      `value()` accessor returns. */
  lemma EntityFieldResolution(fields: map<string, Value>, k: string, q: Pattern)
    requires k in fields && IsPair(fields[k]) && fields[k].props["value"].Accessor?
    requires q != PUndefined
    ensures KeyMatches(Entity(fields), k, q) == MatchPattern(fields[k].props["value"].result, q)
  {
    assert Call(Entity(fields), Some(k)) == fields[k];
  }

  /** An accessor stored under a record key is matched as an accessor, with
      the record as its context. */
  lemma AccessorFieldResolution(props: map<string, Value>, k: string, q: Pattern)
    requires k in props && IsCallable(props[k])
    requires q != PUndefined
    ensures KeyMatches(Obj(props), k, q) == MatchPattern(props[k], q)
  {
  }
}
