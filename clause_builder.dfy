/** The immutable `Matcher` builder of src/main.ts and its `run`.

    A Matcher holds the input value, the fallback `otherwise` and the list
    of clauses `[pattern, when, expr, mode]`.  Every clause-adding
    operation returns a new Matcher whose list is the old one plus one
    clause at the end; `run` is a `find` over the list that stops at the
    first clause whose guard does not return `false` and whose match result
    agrees with its mode. */
module ClauseBuilder {
  import opened JsValues
  import opened StructuralMatch

  datatype Mode = Default | Negated

  /** One clause.  Guards and handlers are arbitrary functions of the input;
      a guard rejects only when it returns exactly `false`. */
  datatype Clause = Clause(pattern: Pattern, guard: Value -> Value, handler: Value -> Value, mode: Mode)

  datatype Matcher = Matcher(value: Value, otherwise: () -> Value, clauses: seq<Clause>)

  /** The guard `() => true` of the unguarded forms. */
  function AlwaysTrue(): Value -> Value {
    _ => Bool(true)
  }

  /** The default fallback `() => null`. */
  function ReturnNull(): () -> Value {
    () => Null
  }

  /** `r` is `m` with exactly the clause `c` appended: same input value,
      same fallback, and the old clauses untouched in front. */
  ghost predicate Appends(m: Matcher, r: Matcher, c: Clause) {
    && r.value == m.value
    && r.otherwise == m.otherwise
    && |r.clauses| == |m.clauses| + 1
    && r.clauses[..|m.clauses|] == m.clauses
    && r.clauses[|m.clauses|] == c
  }

  /** `builder(value)(otherwise, patterns)`. */
  function Builder(value: Value, otherwise: () -> Value, clauses: seq<Clause>): (m: Matcher)
    ensures m.value == value && m.otherwise == otherwise && m.clauses == clauses
  {
    Matcher(value, otherwise, clauses)
  }

  /** `match(value)`: a builder with no clauses and the fallback `() => null`. */
  function Match(value: Value): (m: Matcher)
    ensures m.value == value && m.clauses == [] && m.otherwise() == Null
  {
    Builder(value, ReturnNull(), [])
  }

  /** `with(pattern, expr)`. */
  function With(m: Matcher, pattern: Pattern, handler: Value -> Value): (r: Matcher)
    ensures Appends(m, r, Clause(pattern, AlwaysTrue(), handler, Default))
  {
    Builder(m.value, m.otherwise, m.clauses + [Clause(pattern, AlwaysTrue(), handler, Default)])
  }

  /** `withWhen(pattern, when, expr)`. */
  function WithWhen(m: Matcher, pattern: Pattern, guard: Value -> Value, handler: Value -> Value): (r: Matcher)
    ensures Appends(m, r, Clause(pattern, guard, handler, Default))
  {
    Builder(m.value, m.otherwise, m.clauses + [Clause(pattern, guard, handler, Default)])
  }

  /** `withNot(pattern, expr)`. */
  function WithNot(m: Matcher, pattern: Pattern, handler: Value -> Value): (r: Matcher)
    ensures Appends(m, r, Clause(pattern, AlwaysTrue(), handler, Negated))
  {
    Builder(m.value, m.otherwise, m.clauses + [Clause(pattern, AlwaysTrue(), handler, Negated)])
  }

  /** `withNotWhen(pattern, when, expr)`. */
  function WithNotWhen(m: Matcher, pattern: Pattern, guard: Value -> Value, handler: Value -> Value): (r: Matcher)
    ensures Appends(m, r, Clause(pattern, guard, handler, Negated))
  {
    Builder(m.value, m.otherwise, m.clauses + [Clause(pattern, guard, handler, Negated)])
  }

  /** `otherwise(fallback)`: replaces the fallback and keeps the clauses. */
  function Otherwise(m: Matcher, fallback: () -> Value): (r: Matcher)
    ensures r.value == m.value && r.clauses == m.clauses && r.otherwise == fallback
  {
    Builder(m.value, fallback, m.clauses)
  }

  /** The predicate passed to `find`: the guard does not return `false`,
      and the match result is true for a default clause, false for a
      negated one. */
  predicate Wins(c: Clause, v: Value)
    ensures Wins(c, v) ==> c.guard(v) != Bool(false)
    ensures c.guard(v) != Bool(false) ==> (Wins(c, v) <==> (MatchPattern(v, c.pattern) <==> c.mode == Default))
  {
    if c.guard(v) == Bool(false) then false
    else if c.mode == Default then MatchPattern(v, c.pattern)
    else !MatchPattern(v, c.pattern)
  }

  /** `find` over the clauses from index `i` on: the first winner. */
  function FindFrom(cs: seq<Clause>, v: Value, i: nat): (r: Option<nat>)
    requires i <= |cs|
    decreases |cs| - i
    ensures r.Some? ==> i <= r.value < |cs| && Wins(cs[r.value], v)
    ensures r.Some? ==> forall j | i <= j < r.value :: !Wins(cs[j], v)
    ensures r.None? ==> forall j | i <= j < |cs| :: !Wins(cs[j], v)
  {
    if i == |cs| then None
    else if Wins(cs[i], v) then Some(i)
    else FindFrom(cs, v, i + 1)
  }

  /** `find` over the whole list: something is found exactly when some
      clause wins, and then it is the first winner. */
  function Find(cs: seq<Clause>, v: Value): (r: Option<nat>)
    ensures r.Some? ==> r.value < |cs| && Wins(cs[r.value], v)
    ensures r.Some? ==> forall j | 0 <= j < r.value :: !Wins(cs[j], v)
    ensures r.None? ==> forall j | 0 <= j < |cs| :: !Wins(cs[j], v)
  {
    FindFrom(cs, v, 0)
  }

  /** `run()`: the handler result of the first winning clause, or the
      fallback's result when no clause wins. */
  function Run(m: Matcher): (r: Value)
    ensures (forall i | 0 <= i < |m.clauses| :: !Wins(m.clauses[i], m.value)) ==> r == m.otherwise()
  {
    match Find(m.clauses, m.value)
    case Some(i) => m.clauses[i].handler(m.value)
    case None => m.otherwise()
  }

  /** The calls `run` makes into user code and into the matcher, in order. */
  datatype Event =
    | GuardCalled(clause: nat)
    | PatternTested(clause: nat)
    | HandlerCalled(clause: nat)
    | OtherwiseCalled

  /** The events of the `find` walk from clause `i` on: each clause's guard
      is called; its pattern is tested only when the guard did not return
      `false`; the walk stops at the first winner. */
  function ScanFrom(cs: seq<Clause>, v: Value, i: nat): seq<Event>
    requires i <= |cs|
    decreases |cs| - i
  {
    if i == |cs| then []
    else if cs[i].guard(v) == Bool(false) then [GuardCalled(i)] + ScanFrom(cs, v, i + 1)
    else if Wins(cs[i], v) then [GuardCalled(i), PatternTested(i)]
    else [GuardCalled(i), PatternTested(i)] + ScanFrom(cs, v, i + 1)
  }

  /** Every event of one `run`: the walk, then the single result call. */
  function RunTrace(m: Matcher): seq<Event> {
    ScanFrom(m.clauses, m.value, 0)
    + match Find(m.clauses, m.value)
      case Some(i) => [HandlerCalled(i)]
      case None => [OtherwiseCalled]
  }
}
