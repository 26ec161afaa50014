/** What the builder and `run` of src/main.ts promise: first-winner
    selection, append-only clause lists, a replaceable fallback, guards that
    short-circuit the matcher, and exactly one result call per run. */
module RunProperties {
  import opened JsValues
  import opened StructuralMatch
  import opened ClauseBuilder

  /** `find` returns the first winner, and only it. */
  lemma FindIsFirstWinner(cs: seq<Clause>, v: Value, w: nat)
    requires w < |cs| && Wins(cs[w], v)
    requires forall j | 0 <= j < w :: !Wins(cs[j], v)
    ensures Find(cs, v) == Some(w)
  {
  }

  /** `run` returns the handler result of the first winning clause. */
  lemma RunSelectsFirstWinner(m: Matcher, w: nat)
    requires w < |m.clauses| && Wins(m.clauses[w], m.value)
    requires forall j | 0 <= j < w :: !Wins(m.clauses[j], m.value)
    ensures Run(m) == m.clauses[w].handler(m.value)
  {
    FindIsFirstWinner(m.clauses, m.value, w);
  }

  /** With no winning clause `run` returns the fallback's result; a fresh
      `match(value)` has no clauses and its fallback returns null. */
  lemma RunFallsBack(m: Matcher, v: Value)
    requires forall j | 0 <= j < |m.clauses| :: !Wins(m.clauses[j], m.value)
    ensures Run(m) == m.otherwise()
    ensures Run(Match(v)) == Null
  {
  }

  /** Walking a concatenation finds the first winner of the front part, or
      else the first winner of the back part shifted by the front's length. */
  lemma FindConcat(a: seq<Clause>, b: seq<Clause>, v: Value)
    ensures Find(a + b, v)
         == if Find(a, v).Some? then Find(a, v)
            else if Find(b, v).Some? then Some(|a| + Find(b, v).value)
            else None
  {
    var cs := a + b;
    if Find(a, v).Some? {
      var w := Find(a, v).value;
      assert cs[w] == a[w];
      forall j | 0 <= j < w ensures !Wins(cs[j], v) {
        assert cs[j] == a[j];
      }
      FindIsFirstWinner(cs, v, w);
    } else if Find(b, v).Some? {
      var w := Find(b, v).value;
      assert cs[|a| + w] == b[w];
      forall j | 0 <= j < |a| + w ensures !Wins(cs[j], v) {
        if j < |a| {
          assert cs[j] == a[j];
        } else {
          assert cs[j] == b[j - |a|];
        }
      }
      FindIsFirstWinner(cs, v, |a| + w);
    } else {
      forall j | 0 <= j < |cs| ensures !Wins(cs[j], v) {
        if j < |a| {
          assert cs[j] == a[j];
        } else {
          assert cs[j] == b[j - |a|];
        }
      }
    }
  }

  /** Appending a clause never changes the result of a matcher that already
      had a winner; otherwise the new clause decides between its handler and
      the fallback. */
  lemma RunAfterAppend(m: Matcher, r: Matcher, c: Clause)
    requires Appends(m, r, c)
    ensures Run(r) == if Find(m.clauses, m.value).Some? then Run(m)
                      else if Wins(c, m.value) then c.handler(m.value)
                      else m.otherwise()
  {
    assert r.clauses == m.clauses + [c];
    FindConcat(m.clauses, [c], m.value);
    assert Find([c], m.value) == if Wins(c, m.value) then Some(0) else None;
  }

  /** `with`: the new clause wins exactly when its pattern matches. */
  lemma WithRun(m: Matcher, p: Pattern, h: Value -> Value)
    ensures Run(With(m, p, h)) == if Find(m.clauses, m.value).Some? then Run(m)
                                  else if MatchPattern(m.value, p) then h(m.value)
                                  else m.otherwise()
  {
    RunAfterAppend(m, With(m, p, h), Clause(p, AlwaysTrue(), h, Default));
  }

  /** `withWhen`: the new clause wins when its guard is not `false` and its
      pattern matches. */
  lemma WithWhenRun(m: Matcher, p: Pattern, g: Value -> Value, h: Value -> Value)
    ensures Run(WithWhen(m, p, g, h))
         == if Find(m.clauses, m.value).Some? then Run(m)
            else if g(m.value) != Bool(false) && MatchPattern(m.value, p) then h(m.value)
            else m.otherwise()
  {
    RunAfterAppend(m, WithWhen(m, p, g, h), Clause(p, g, h, Default));
  }

  /** `withNot`: the new clause wins exactly when its pattern does not match. */
  lemma WithNotRun(m: Matcher, p: Pattern, h: Value -> Value)
    ensures Run(WithNot(m, p, h)) == if Find(m.clauses, m.value).Some? then Run(m)
                                     else if !MatchPattern(m.value, p) then h(m.value)
                                     else m.otherwise()
  {
    RunAfterAppend(m, WithNot(m, p, h), Clause(p, AlwaysTrue(), h, Negated));
  }

  /** `withNotWhen`: the new clause wins when its guard is not `false` and
      its pattern does not match. */
  lemma WithNotWhenRun(m: Matcher, p: Pattern, g: Value -> Value, h: Value -> Value)
    ensures Run(WithNotWhen(m, p, g, h))
         == if Find(m.clauses, m.value).Some? then Run(m)
            else if g(m.value) != Bool(false) && !MatchPattern(m.value, p) then h(m.value)
            else m.otherwise()
  {
    RunAfterAppend(m, WithNotWhen(m, p, g, h), Clause(p, g, h, Negated));
  }

  /** `otherwise`: only a run without a winner sees the new fallback. */
  lemma OtherwiseRun(m: Matcher, fallback: () -> Value)
    ensures Run(Otherwise(m, fallback)) == if Find(m.clauses, m.value).Some? then Run(m) else fallback()
  {
  }

  /** A clause whose guard returns `false` is skipped: removing it from
      anywhere in the list changes no result. */
  lemma GuardFalseClauseIsSkipped(v: Value, o: () -> Value, a: seq<Clause>, c: Clause, b: seq<Clause>)
    requires c.guard(v) == Bool(false)
    ensures Run(Matcher(v, o, a + [c] + b)) == Run(Matcher(v, o, a + b))
  {
    FindConcat(a + [c], b, v);
    FindConcat(a, [c], v);
    FindConcat(a, b, v);
    assert Find([c], v) == None;
  }

  /** The walk from clause `i` only calls guards and the matcher, on
      clauses from `i` on. */
  lemma {:induction false} ScanEventsInRange(cs: seq<Clause>, v: Value, i: nat)
    requires i <= |cs|
    decreases |cs| - i
    ensures forall e | e in ScanFrom(cs, v, i) ::
      (e.GuardCalled? || e.PatternTested?) && i <= e.clause < |cs|
  {
    if i < |cs| {
      ScanEventsInRange(cs, v, i + 1);
    }
  }

  /** The walk consults no clause after the first winner. */
  lemma {:induction false} ScanStopsAtWinner(cs: seq<Clause>, v: Value, i: nat)
    requires i <= |cs|
    decreases |cs| - i
    ensures FindFrom(cs, v, i).Some? ==>
      forall e | e in ScanFrom(cs, v, i) && !e.OtherwiseCalled? :: e.clause <= FindFrom(cs, v, i).value
  {
    if i < |cs| {
      ScanStopsAtWinner(cs, v, i + 1);
    }
  }

  /** The walk calls the guard of every clause from `i` up to the first
      winner (or to the end when nothing wins). */
  lemma {:induction false} ScanCallsEveryGuard(cs: seq<Clause>, v: Value, i: nat)
    requires i <= |cs|
    decreases |cs| - i
    ensures forall j | i <= j < |cs| && (FindFrom(cs, v, i).None? || j <= FindFrom(cs, v, i).value) ::
      GuardCalled(j) in ScanFrom(cs, v, i)
  {
    if i < |cs| {
      ScanCallsEveryGuard(cs, v, i + 1);
    }
  }

  /** The walk tests the pattern of a clause up to the first winner exactly
      when that clause's guard did not return `false`. */
  lemma {:induction false} ScanTestsUnguardedPatterns(cs: seq<Clause>, v: Value, i: nat)
    requires i <= |cs|
    decreases |cs| - i
    ensures forall j: nat :: PatternTested(j) in ScanFrom(cs, v, i) <==>
      (i <= j < |cs| && cs[j].guard(v) != Bool(false)
       && (FindFrom(cs, v, i).None? || j <= FindFrom(cs, v, i).value))
  {
    if i < |cs| {
      ScanTestsUnguardedPatterns(cs, v, i + 1);
    }
  }

  /** A run makes exactly one result call, as its last event: the winner's
      handler, or the fallback when nothing wins. */
  lemma RunTraceSingleResult(m: Matcher)
    ensures var t := RunTrace(m);
      && |t| > 0
      && (t[|t| - 1].HandlerCalled? || t[|t| - 1].OtherwiseCalled?)
      && forall k | 0 <= k < |t| - 1 :: t[k].GuardCalled? || t[k].PatternTested?
    ensures forall i: nat :: HandlerCalled(i) in RunTrace(m) <==> Find(m.clauses, m.value) == Some(i)
    ensures OtherwiseCalled in RunTrace(m) <==> Find(m.clauses, m.value).None?
  {
    var s := ScanFrom(m.clauses, m.value, 0);
    ScanEventsInRange(m.clauses, m.value, 0);
    assert forall k | 0 <= k < |s| :: s[k] in s;
  }

  /** A clause whose guard returns `false` never has its pattern tested,
      and no clause after the winner is consulted at all. */
  lemma RunTraceShortCircuits(m: Matcher)
    ensures forall j: nat :: PatternTested(j) in RunTrace(m) ==>
      j < |m.clauses| && m.clauses[j].guard(m.value) != Bool(false)
    ensures Find(m.clauses, m.value).Some? ==>
      forall e | e in RunTrace(m) && !e.OtherwiseCalled? :: e.clause <= Find(m.clauses, m.value).value
  {
    ScanStopsAtWinner(m.clauses, m.value, 0);
    ScanTestsUnguardedPatterns(m.clauses, m.value, 0);
  }
}
