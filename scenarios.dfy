/** The usage scenarios that exercise the matcher: the computed-entity
    items of test/objectMethod.spec.ts and src/index.ts, the existential
    pair example and the first-winner rule on concrete clauses.

    An item is a record whose `field` method looks a field up by name and
    returns a `{name, value}` field record whose members are accessors;
    here the method is a computed Entity over those records. */
module Scenarios {
  import opened JsValues
  import opened StructuralMatch
  import opened ClauseBuilder
  import opened MatchProperties
  import opened RunProperties

  /** A field record: name and value are exposed through accessors. */
  function FieldRecord(name: string, value: Value): Value {
    Obj(map["name" := Accessor(Str(name)), "value" := Accessor(value)])
  }

  /** The fields an item's `field` method resolves. */
  function ItemFields(make: string, model: string, year: int): map<string, Value> {
    map["Make" := FieldRecord("Make", Str(make)),
        "Model" := FieldRecord("Model", Str(model)),
        "Year" := FieldRecord("Year", Num(year))]
  }

  /** An item with the three fields Make, Model and Year. */
  function Item(make: string, model: string, year: int): Value {
    Obj(map["field" := Entity(ItemFields(make, model, year))])
  }

  /** `{ field: { Make: "BMW" } }` */
  function MakeIsBMW(): Pattern {
    PObj(map["field" := PObj(map["Make" := PStr("BMW")])])
  }

  /** `{ field: { Year: 2007 } }` */
  function YearIs2007(): Pattern {
    PObj(map["field" := PObj(map["Year" := PNum(2007)])])
  }

  /** `o.field(name).value()`, undefined when the item has no such field. */
  function FieldValue(o: Value, name: string): Value {
    var f := Get(o, "field");
    if !IsCallable(f) then Undefined
    else
      var field := Call(f, Some(name));
      if IsPair(field) && IsCallable(field.props["value"]) then Call(field.props["value"], None)
      else Undefined
  }

  /** JavaScript truthiness, as used by `!!` and `filter`. */
  predicate Truthy(v: Value) {
    match v
    case Bool(b) => b
    case Num(n) => n != 0
    case Str(s) => s != ""
    case NaN => false
    case Undefined => false
    case Null => false
    case _ => true
  }

  /** `s.filter(v => v)`: only truthy elements are kept, never more than
      the input holds, and a list of truthy elements is kept whole. */
  function KeepTruthy(s: seq<Value>): (r: seq<Value>)
    ensures |r| <= |s|
    ensures forall i | 0 <= i < |r| :: Truthy(r[i])
    ensures (forall i | 0 <= i < |s| :: Truthy(s[i])) ==> r == s
  {
    if s == [] then []
    else (if Truthy(s[0]) then [s[0]] else []) + KeepTruthy(s[1..])
  }

  /** The filter keeps exactly the truthy elements of its input. */
  lemma {:induction false} KeepTruthyMembers(s: seq<Value>, x: Value)
    ensures x in KeepTruthy(s) <==> x in s && Truthy(x)
  {
    if s != [] {
      assert s == [s[0]] + s[1..];
      KeepTruthyMembers(s[1..], x);
    }
  }

  /** Filtering distributes over concatenation, so the kept elements stay
      in their original order. */
  lemma {:induction false} KeepTruthyConcat(a: seq<Value>, b: seq<Value>)
    ensures KeepTruthy(a + b) == KeepTruthy(a) + KeepTruthy(b)
  {
    if a == [] {
      assert a + b == b;
    } else {
      var h := if Truthy(a[0]) then [a[0]] else [];
      assert (a + b)[0] == a[0] && (a + b)[1..] == a[1..] + b;
      assert KeepTruthy(a + b) == h + KeepTruthy(a[1..] + b);
      KeepTruthyConcat(a[1..], b);
      assert h + (KeepTruthy(a[1..]) + KeepTruthy(b)) == (h + KeepTruthy(a[1..])) + KeepTruthy(b);
    }
  }

  /** The handler `o => o`. */
  function Identity(): Value -> Value {
    o => o
  }

  /** A guard that runs a nested match, `o => !!match(o).with(p, o => o).run()`. */
  function NestedMatchGuard(p: Pattern): Value -> Value {
    o => Bool(Truthy(Run(With(Match(o), p, Identity()))))
  }

  /** The demonstration's pipeline step with guard `g`:
      `match(v).withWhen({ field: { Make: "BMW" } }, g, o => o).run()`. */
  function PickBMW(v: Value, g: Value -> Value): Value {
    Run(WithWhen(Match(v), MakeIsBMW(), g, Identity()))
  }

  /** `g` returns the truthiness of what a nested match on `q` yields: the
      value itself when it matches `q`, null otherwise.  The nested-match
      guard is such a guard (NestedGuardAllows), and so it lets through
      exactly the truthy values that match `q` (TruthyOrNull). */
  ghost predicate AdmitsExactly(g: Value -> Value, q: Pattern) {
    forall o :: AdmitsAt(g, q, o)
  }

  ghost predicate AdmitsAt(g: Value -> Value, q: Pattern, o: Value) {
    g(o) == Bool(Truthy(if MatchPattern(o, q) then o else Null))
  }

  /** A pattern `{ field: { name: q } }` against an item is decided by the
      resolved value of that field alone. */
  lemma FieldPattern(fields: map<string, Value>, name: string, x: Value, q: Pattern)
    requires name in fields && fields[name] == FieldRecord(name, x)
    requires q != PUndefined
    ensures MatchPattern(Obj(map["field" := Entity(fields)]), PObj(map["field" := PObj(map[name := q])]))
         == MatchPattern(x, q)
  {
    var item := Obj(map["field" := Entity(fields)]);
    var inner := PObj(map[name := q]);
    SingleKeyPattern(item, "field", inner);
    AccessorFieldResolution(item.props, "field", inner);
    SingleKeyPattern(Entity(fields), name, q);
    EntityFieldResolution(fields, name, q);
  }

  /** The Make and Year patterns of the demonstration against any item. */
  lemma ItemPatterns(make: string, model: string, year: int)
    ensures MatchPattern(Item(make, model, year), MakeIsBMW()) <==> make == "BMW"
    ensures MatchPattern(Item(make, model, year), YearIs2007()) <==> year == 2007
  {
    var fields := ItemFields(make, model, year);
    assert fields["Make"] == FieldRecord("Make", Str(make));
    assert fields["Year"] == FieldRecord("Year", Num(year));
    FieldPattern(fields, "Make", Str(make), PStr("BMW"));
    FieldPattern(fields, "Year", Num(year), PNum(2007));
    LiteralIsStrictEquality(Str(make), PStr("BMW"));
    LiteralIsStrictEquality(Num(year), PNum(2007));
  }

  /** The handler of the object-method test, `o => o.field("Make").value()`. */
  function ReadMake(): Value -> Value {
    o => FieldValue(o, "Make")
  }

  /** The handler reads the Make of an item through its `field` method. */
  lemma ReadMakeOfItem(make: string, model: string, year: int)
    ensures ReadMake()(Item(make, model, year)) == Str(make)
  {
    assert Call(Get(Item(make, model, year), "field"), Some("Make")) == FieldRecord("Make", Str(make));
  }

  /** The single assertion of the test suite, for any BMW item (the test's
      `items[0]` is the BMW M3 of 2007): the item matches
      `{ field: { Make: "BMW" } }` through its `field` method, and the
      handler reading `field("Make").value()` yields "BMW". */
  lemma ObjectMethodMatch(model: string, year: int)
    ensures Run(With(Match(Item("BMW", model, year)), MakeIsBMW(), ReadMake())) == Str("BMW")
  {
    var item := Item("BMW", model, year);
    ItemPatterns("BMW", model, year);
    ReadMakeOfItem("BMW", model, year);
    WithRun(Match(item), MakeIsBMW(), ReadMake());
  }

  /** Applying the nested-match guard runs the nested match. */
  lemma NestedGuardValue(v: Value, q: Pattern)
    ensures NestedMatchGuard(q)(v) == Bool(Truthy(Run(With(Match(v), q, Identity()))))
  {
  }

  /** The nested match `match(v).with(q, o => o).run()` yields `v` when `q`
      matches and the default null otherwise. */
  lemma NestedRun(v: Value, q: Pattern)
    ensures Run(With(Match(v), q, Identity())) == if MatchPattern(v, q) then v else Null
  {
    WithRun(Match(v), q, Identity());
  }

  /** A value that is either `v` or null is truthy exactly when it is a
      truthy `v`. */
  lemma TruthyOrNull(b: bool, v: Value)
    ensures Truthy(if b then v else Null) == (b && Truthy(v))
  {
  }

  /** The nested-match guard returns the truthiness of `o` when `o` matches
      the nested pattern, and false (the truthiness of null) otherwise. */
  lemma NestedGuardAllowsAt(o: Value, q: Pattern)
    ensures AdmitsAt(NestedMatchGuard(q), q, o)
  {
    NestedGuardValue(o, q);
    NestedRun(o, q);
  }

  /** The nested-match guard admits exactly the truthy values matching the
      nested pattern. */
  lemma NestedGuardAllows(q: Pattern)
    ensures AdmitsExactly(NestedMatchGuard(q), q)
  {
    forall o {
      NestedGuardAllowsAt(o, q);
    }
  }

  /** A single guarded identity clause keeps a value exactly when its guard
      lets it through and its pattern matches; otherwise the default
      fallback yields null. */
  lemma GuardedIdentity(v: Value, p: Pattern, g: Value -> Value)
    ensures Run(WithWhen(Match(v), p, g, Identity()))
         == if g(v) != Bool(false) && MatchPattern(v, p) then v else Null
  {
    WithWhenRun(Match(v), p, g, Identity());
  }

  /** With a guard admitting exactly the truthy values of 2007, the
      pipeline step keeps an item exactly when it is a BMW of 2007. */
  lemma PickItem(make: string, model: string, year: int, g: Value -> Value)
    requires AdmitsExactly(g, YearIs2007())
    ensures PickBMW(Item(make, model, year), g)
         == if make == "BMW" && year == 2007 then Item(make, model, year) else Null
  {
    var item := Item(make, model, year);
    assert AdmitsAt(g, YearIs2007(), item);
    TruthyOrNull(MatchPattern(item, YearIs2007()), item);
    ItemPatterns(make, model, year);
    GuardedIdentity(item, MakeIsBMW(), g);
  }

  /** Filtering two truthy values and a null keeps the two values. */
  lemma KeepFirstTwo(a: Value, b: Value)
    requires Truthy(a) && Truthy(b)
    ensures KeepTruthy([a, b, Null]) == [a, b]
  {
    var s := [a, b, Null];
    assert s[1..][1..] == [Null] && KeepTruthy([Null]) == [];
    assert KeepTruthy(s[1..]) == [b];
  }

  /** The filtering pipeline of the demonstration, for any models: the
      guarded BMW clause keeps the two BMWs of 2007 and drops the Honda of
      2010, in order. */
  lemma FilterBMW2007(m1: string, m2: string, m3: string, g: Value -> Value)
    requires AdmitsExactly(g, YearIs2007())
    ensures KeepTruthy([PickBMW(Item("BMW", m1, 2007), g),
                        PickBMW(Item("BMW", m2, 2007), g),
                        PickBMW(Item("Honda", m3, 2010), g)])
         == [Item("BMW", m1, 2007), Item("BMW", m2, 2007)]
  {
    PickItem("BMW", m1, 2007, g);
    PickItem("BMW", m2, 2007, g);
    PickItem("Honda", m3, 2010, g);
    KeepFirstTwo(Item("BMW", m1, 2007), Item("BMW", m2, 2007));
  }

  /** The demo itself: with the nested-match guard on the Year 2007
      pattern, the pipeline keeps exactly the two BMWs of 2007, in order. */
  lemma FilterBMW2007Demo(m1: string, m2: string, m3: string)
    ensures KeepTruthy([PickBMW(Item("BMW", m1, 2007), NestedMatchGuard(YearIs2007())),
                        PickBMW(Item("BMW", m2, 2007), NestedMatchGuard(YearIs2007())),
                        PickBMW(Item("Honda", m3, 2010), NestedMatchGuard(YearIs2007()))])
         == [Item("BMW", m1, 2007), Item("BMW", m2, 2007)]
  {
    NestedGuardAllows(YearIs2007());
    FilterBMW2007(m1, m2, m3, NestedMatchGuard(YearIs2007()));
  }

  /** A `{name, value}` record with plain (non-accessor) members. */
  function Pair(name: string, value: Value): Value {
    Obj(map["name" := Str(name), "value" := value])
  }

  function PairPattern(name: string, value: Pattern): Pattern {
    PObj(map["name" := PStr(name), "value" := value])
  }

  /** A plain pair against a pair pattern with a literal name: the names
      are compared strictly and the values by the matcher. */
  lemma PlainPairsMatch(name: string, x: Value, pname: string, q: Pattern)
    ensures PairsMatch(Pair(name, x), PairPattern(pname, q)) == (name == pname && MatchPattern(x, q))
  {
    LiteralIsStrictEquality(Str(name), PStr(pname));
  }

  /** Two value pairs against one pattern pair: the match is the
      disjunction of the two pair comparisons. */
  lemma TwoPairsOnePattern(a: Value, b: Value, pp: Pattern)
    requires IsPair(a) && IsPair(b) && IsPairPattern(pp)
    ensures MatchPattern(Arr([a, b]), PArr([pp])) == (PairsMatch(a, pp) || PairsMatch(b, pp))
  {
    var v, p := Arr([a, b]), PArr([pp]);
    assert v.elems[0] == a && v.elems[1] == b && p.elems[0] == pp;
    assert IsPairArray(v) && IsPairArrayPattern(p);
    if MatchPattern(v, p) {
      var i, j :| 0 <= i < 2 && 0 <= j < 1 && PairsMatch(v.elems[i], p.elems[j]);
    }
  }

  /** Existential pair matching: one pattern pair against two value pairs
      matches when some value pair agrees on name and value... */
  lemma PairExampleMatches()
    ensures MatchPattern(Arr([Pair("Make", Str("BMW")), Pair("Year", Num(2007))]),
                         PArr([PairPattern("Make", PStr("BMW"))]))
  {
    TwoPairsOnePattern(Pair("Make", Str("BMW")), Pair("Year", Num(2007)), PairPattern("Make", PStr("BMW")));
    PlainPairsMatch("Make", Str("BMW"), "Make", PStr("BMW"));
    LiteralIsStrictEquality(Str("BMW"), PStr("BMW"));
  }

  /** ...and does not match when no value pair agrees. */
  lemma PairExampleFails()
    ensures !MatchPattern(Arr([Pair("Make", Str("BMW")), Pair("Year", Num(2007))]),
                          PArr([PairPattern("Make", PStr("Honda"))]))
  {
    TwoPairsOnePattern(Pair("Make", Str("BMW")), Pair("Year", Num(2007)), PairPattern("Make", PStr("Honda")));
    PlainPairsMatch("Make", Str("BMW"), "Make", PStr("Honda"));
    LiteralIsStrictEquality(Str("BMW"), PStr("Honda"));
    PlainPairsMatch("Year", Num(2007), "Make", PStr("Honda"));
  }

  /** Single winner: a string matches both the `String` wildcard and its own
      literal; of the two clauses the first one's handler decides the
      result, and the second handler is never called. */
  lemma FirstOfTwoMatchingClausesWins(s: string)
    ensures MatchPattern(Str(s), AnyString) && MatchPattern(Str(s), PStr(s))
    ensures Run(TwoStringClauses(s)) == Str("A")
    ensures HandlerCalled(1) !in RunTrace(TwoStringClauses(s))
  {
    var m1 := With(Match(Str(s)), AnyString, Constant(Str("A")));
    var m := TwoStringClauses(s);
    var c0 := Clause(AnyString, AlwaysTrue(), Constant(Str("A")), Default);
    assert m1.clauses[0] == c0;
    assert m.clauses[..1] == m1.clauses;
    assert m.clauses[0] == c0 && m.value == Str(s);
    assert Wins(c0, Str(s));
    FindIsFirstWinner(m.clauses, m.value, 0);
    assert ScanFrom(m.clauses, m.value, 0) == [GuardCalled(0), PatternTested(0)];
  }

  /** The handler `_ => x`. */
  function Constant(x: Value): Value -> Value {
    _ => x
  }

  /** `match(s).with(String, _ => "A").with(s, _ => "B")`. */
  function TwoStringClauses(s: string): Matcher {
    With(With(Match(Str(s)), AnyString, Constant(Str("A"))), PStr(s), Constant(Str("B")))
  }
}
