# ts-pattern-matching in Dafny

A model of the runtime core of `src/main.ts` from ts-pattern-matching. The
core has two parts:

- `match_pattern`, the structural matcher, with its helpers `isKeyValuePair`
  and `isArrayOfKeyValuePair`;
- the immutable `Matcher` builder (`with`, `withWhen`, `withNot`,
  `withNotWhen`, `otherwise`, `run`) and its entry points `builder` and
  `match`.

The source is pure: the matcher is recursion over `every` and `some`, and
each builder call returns a new `Matcher`. The clause-adding calls build a
new list from the old one plus a clause; `otherwise` hands the same list to
the new `Matcher`, which is harmless because no list is ever changed after
it is built. The model is therefore datatypes, functions and lemmas.

- `js_values.dfy` (module `JsValues`): the values the matcher inspects, as
  a closed datatype: strings, booleans, integers, NaN, undefined, null,
  arrays, records, zero-argument accessors and computed entities (`k =>
  fields[k]`). It also holds the pattern datatype, with the `String`,
  `Boolean` and `Number` sentinels as explicit wildcards; the `Object`
  constructor used as a pattern is the accessor pattern whose result is `{}`. JavaScript's
  runtime probes (`typeof`, `Array.isArray`, `Reflect.has`) are predicates
  over these variants; `IsPair` and `IsPairArray` are `isKeyValuePair` and
  `isArrayOfKeyValuePair`.
- `structural_match.dfy` (module `StructuralMatch`): `match_pattern` as
  `MatchPattern`. It tries the source's six cases in the same order. The
  callbacks of `some` and `every` are the mutually recursive predicates
  `PairsMatch` and `KeyMatches`. Recursion is measured by the pattern alone.
- `match_properties.dfy` (module `MatchProperties`): what the matcher
  promises:
  - the wildcards;
  - existential, order-insensitive pair matching;
  - broadcast array patterns;
  - strict equality on primitives;
  - accessor and computed-entity resolution;
  - the record pattern as a fail-closed conjunction over its own keys.
- `clause_builder.dfy` (module `ClauseBuilder`): `Matcher` as a datatype of
  the input, the fallback and the clause list. It covers the four
  clause-adding operations, `otherwise`, `builder`, `match`, the `find`
  that `run` performs, and `run` itself. The datatype `Event` records the
  calls a run makes into guards, the matcher, handlers and the fallback.
- `run_properties.dfy` (module `RunProperties`): what `run` promises:
  - the first winner in append order decides;
  - appending a clause never changes an existing winner;
  - `otherwise` only affects runs without a winner;
  - a guard returning `false` removes its clause from consideration and
    its pattern is never tested;
  - exactly one result call (handler or fallback) ends each run.
- `scenarios.dfy` (module `Scenarios`): the uses of the matcher in the
  repository, and two small examples of the model's own:
  - the object-method test (an item whose `field` method returns
    `{name, value}` field records);
  - the `withWhen` pipeline with a nested match from `src/index.ts`;
  - a pair-matching example (the repository builds no pair arrays itself);
  - two clauses that both match one string, to show the single winner.

At `src/main.ts:162` the pair's `name` and `value` go to the matcher
unresolved. An accessor stored there is therefore not called first: it is
called against an accessor pattern (lines 174-178), and against a record
pattern once per pattern key (lines 188-189).

## Model

| member | source | states |
|---|---|---|
| StructuralMatch.MatchPattern | src/main.ts:149-199 | an array pattern matches only arrays, a record pattern matches no primitive, and NaN matches no pattern at all |
| StructuralMatch.PairsMatch | src/main.ts:161-163 | when a pair pattern's name is a literal and the value pair's name is a primitive, a match requires the two names to be strictly equal |
| StructuralMatch.KeyMatches | src/main.ts:179-198 | a key check fails for an undefined pattern entry and for a null value, and fails when a callable value called with the key returns a primitive or null (the `name`/`value` probe at line 190) |
| JsValues.IsPair | src/main.ts:11-13 | only a record can be a `{name, value}` pair: primitives and null (where `Reflect.has` throws) are not, nor are callables, which carry no own properties in this model |
| JsValues.IsPairArray | src/main.ts:14-16 | only an array can be an array of pairs, and the empty array is one vacuously |
| MatchProperties.PairArrayRecognition | src/main.ts:11-16 | the empty array is vacuously an array of pairs, an extended array is one exactly when the old part is and the new element is a pair, and no non-array is one |
| MatchProperties.Wildcards | src/main.ts:150-158 | the string, boolean and number wildcards accept exactly the strings, booleans and non-NaN numbers, so no array, record or callable |
| MatchProperties.LiteralIsStrictEquality | src/main.ts:171-173 | a literal pattern matches a primitive exactly when the two are strictly equal; NaN equals nothing |
| MatchProperties.LiteralAgainstObject | src/main.ts:179-198 | against a non-primitive, a number, boolean, NaN or empty-string pattern matches vacuously (it has no keys), while non-empty string, null and undefined patterns fail |
| MatchProperties.ArrayPatternUnfold | src/main.ts:166-170 | outside the pair case, a non-empty array pattern matches exactly the arrays whose every element matches its first element |
| MatchProperties.Broadcast | src/main.ts:166-170 | a broadcast pattern `[q, ...rest]` matches exactly the arrays all of whose elements match `q`; `rest` is ignored |
| MatchProperties.BroadcastConcat | src/main.ts:166-170 | the empty array matches a broadcast pattern, and broadcasting over a concatenation is the conjunction over the parts |
| MatchProperties.EmptyArrayAgainstArrayPattern | src/main.ts:160-170 | the empty value array fails against every array pattern made only of pair records (including `[]`) and matches every other array pattern |
| MatchProperties.PairMatchValueSide | src/main.ts:160-164 | pair matching is existential: a sub-multiset of the value pairs can only match less, so order never matters |
| MatchProperties.PairMatchPatternSide | src/main.ts:160-164 | more pattern pairs (as a multiset) can only make a pair match easier |
| MatchProperties.EmptyRecordPattern | src/main.ts:179-198 | the empty record pattern matches every record, array, null and callable, and no primitive |
| MatchProperties.UndefinedEntryFailsClosed | src/main.ts:179-182 | a record pattern with an undefined entry matches nothing |
| MatchProperties.RecordPatternUnfold | src/main.ts:179-198 | on a non-primitive, a record pattern is the universal check of its keys |
| MatchProperties.RecordPatternConjunction | src/main.ts:179-198 | joining two record patterns with disjoint keys matches exactly when both parts match |
| MatchProperties.RecordPatternWeakening | src/main.ts:179-198 | dropping keys from a record pattern can only make it match more |
| MatchProperties.ExtraValueKeysIgnored | src/main.ts:179-198 | keys present only on the value record never change the outcome |
| MatchProperties.AccessorAgainstAccessor | src/main.ts:174-178 | an accessor against an accessor pattern is decided by matching their results |
| MatchProperties.EntityAgainstAccessor | src/main.ts:174-178 | a computed entity against an accessor pattern is called without a key, so its undefined result is what is matched |
| MatchProperties.Resolved | src/main.ts:188-195 | the plain record an entity stands for keeps the entity's keys and its non-pair fields |
| MatchProperties.EntityMatchesAsResolvedRecord | src/main.ts:188-195 | a computed entity matches a record pattern exactly when it yields an object under every pattern key and the record of its resolved fields (`value()` of each pair field) matches |
| MatchProperties.SingleKeyPattern | src/main.ts:179-198 | on a non-primitive, a one-key record pattern is exactly the check of that key |
| MatchProperties.EntityFieldResolution | src/main.ts:188-192 | an entity called with key `k` that returns a pair is compared through that pair's `value()` |
| MatchProperties.AccessorFieldResolution | src/main.ts:184-186 | an accessor stored under key `k` of a record is matched as an accessor |
| ClauseBuilder.Builder | src/main.ts:144-147 | the new Matcher holds exactly the given input, fallback and clause list |
| ClauseBuilder.Match | src/main.ts:142 | `match(v)` has input `v`, no clauses and a fallback returning null |
| ClauseBuilder.With | src/main.ts:67-72 | appends exactly the clause (pattern, always-true guard, handler, default) and keeps input, fallback and every old clause |
| ClauseBuilder.WithWhen | src/main.ts:80-86 | appends exactly the clause (pattern, guard, handler, default) and keeps everything else |
| ClauseBuilder.WithNot | src/main.ts:93-98 | appends exactly the clause (pattern, always-true guard, handler, negated) and keeps everything else |
| ClauseBuilder.WithNotWhen | src/main.ts:106-112 | appends exactly the clause (pattern, guard, handler, negated) and keeps everything else |
| ClauseBuilder.Otherwise | src/main.ts:118-120 | replaces only the fallback; input and clause list are unchanged |
| ClauseBuilder.Wins | src/main.ts:126-130 | the `find` callback: a clause whose guard returns `false` never wins; otherwise a default clause wins exactly when its pattern matches and a negated one exactly when it does not |
| ClauseBuilder.Find | src/main.ts:126-130 | `find` finds something exactly when some clause wins, and what it finds is a winner with no winner before it |
| ClauseBuilder.Run | src/main.ts:125-133 | `run` returns the fallback's result when no clause wins (which winner's handler decides otherwise is `RunSelectsFirstWinner`) |
| ClauseBuilder.FindFrom | src/main.ts:126-130 | a found index wins and no earlier clause wins; when nothing is found, no clause wins |
| RunProperties.FindIsFirstWinner | src/main.ts:126-130 | `find` returns the first winning clause and only it |
| RunProperties.RunSelectsFirstWinner | src/main.ts:125-133 | `run` returns the first winner's handler applied to the input |
| RunProperties.RunFallsBack | src/main.ts:125-133 | with no winner `run` returns the fallback's result, and a bare `match(v).run()` is null |
| RunProperties.FindConcat | src/main.ts:126-130 | the first winner of a concatenation is that of the front part, else that of the back part shifted |
| RunProperties.RunAfterAppend | src/main.ts:125-133 | appending a clause keeps an existing winner's result; otherwise the new clause decides between its handler and the fallback |
| RunProperties.WithRun | src/main.ts:67-72 | after `with`, `run` keeps an earlier winner, else returns the new handler's result exactly when the pattern matches, else the fallback's |
| RunProperties.WithWhenRun | src/main.ts:80-86 | after `withWhen`, the new clause wins when its guard is not `false` and its pattern matches |
| RunProperties.WithNotRun | src/main.ts:93-98 | after `withNot`, the new clause wins exactly when its pattern does not match |
| RunProperties.WithNotWhenRun | src/main.ts:106-112 | after `withNotWhen`, the new clause wins when its guard is not `false` and its pattern does not match |
| RunProperties.OtherwiseRun | src/main.ts:118-120 | after `otherwise(f)`, only a run without a winner yields `f()` |
| RunProperties.GuardFalseClauseIsSkipped | src/main.ts:126-127 | removing a clause whose guard returns `false` from anywhere in the list changes no result |
| RunProperties.ScanEventsInRange | src/main.ts:126-130 | the `find` walk only calls guards and the matcher, on clauses from its start on |
| RunProperties.ScanStopsAtWinner | src/main.ts:126-130 | the walk consults no clause after the first winner |
| RunProperties.ScanCallsEveryGuard | src/main.ts:126-127 | the walk calls the guard of every clause up to the first winner |
| RunProperties.ScanTestsUnguardedPatterns | src/main.ts:127-129 | a clause's pattern is tested exactly when the clause is at most the first winner and its guard did not return `false` |
| RunProperties.RunTraceSingleResult | src/main.ts:125-133 | a run ends with exactly one result call: the winner's handler exactly when there is a winner, the fallback exactly when there is none |
| RunProperties.RunTraceShortCircuits | src/main.ts:126-130 | a pattern behind a `false` guard is never tested, and nothing after the winner is consulted |
| Scenarios.KeepTruthy | src/index.ts:211 | `filter(v => v)` returns only truthy elements, no more than its input holds, and keeps a list of truthy elements whole |
| Scenarios.KeepTruthyMembers | src/index.ts:211 | a value is in the filtered list exactly when it is in the input and truthy |
| Scenarios.KeepTruthyConcat | src/index.ts:211 | filtering distributes over concatenation, so the kept elements stay in their original order |
| Scenarios.FieldPattern | src/main.ts:184-195 | `{ field: { name: q } }` against an item is decided by matching `q` against that field's `value()` alone |
| Scenarios.ItemPatterns | src/index.ts:202-205 | an item matches `{ field: { Make: "BMW" } }` exactly when its make is BMW, and `{ field: { Year: 2007 } }` exactly when its year is 2007 |
| Scenarios.ReadMakeOfItem | test/objectMethod.spec.ts:169 | the test's handler `o.field("Make").value()` returns the item's make |
| Scenarios.ObjectMethodMatch | test/objectMethod.spec.ts:167-173 | matching a BMW item with `{ field: { Make: "BMW" } }` and that handler runs to "BMW" |
| Scenarios.NestedRun | src/index.ts:204-206 | the nested `match(o).with(q, o => o).run()` yields `o` when `q` matches and null otherwise |
| Scenarios.NestedGuardAllowsAt | src/index.ts:203-206 | the nested-match guard at one value returns the truthiness of "the value if it matches, else null" |
| Scenarios.NestedGuardAllows | src/index.ts:203-206 | the nested-match guard meets that description for every value |
| Scenarios.GuardedIdentity | src/index.ts:200-209 | a single guarded identity clause keeps a value exactly when its guard is not `false` and its pattern matches, else yields null |
| Scenarios.PickItem | src/index.ts:199-209 | with such a guard for the Year 2007 pattern, the pipeline step keeps an item exactly when it is a BMW of 2007 |
| Scenarios.KeepFirstTwo | src/index.ts:211 | filtering two truthy values followed by null keeps the two values in order |
| Scenarios.FilterBMW2007 | src/index.ts:198-211 | with any guard that admits exactly the items matching the Year 2007 pattern, the pipeline over two BMWs of 2007 and a Honda of 2010 yields exactly the two BMWs, in order |
| Scenarios.FilterBMW2007Demo | src/index.ts:198-211 | with the demo's own nested-match guard, the pipeline over two BMWs of 2007 and a Honda of 2010 yields exactly the two BMWs, in order |
| Scenarios.PlainPairsMatch | src/main.ts:162 | a plain pair against a pair pattern with a literal name compares the names strictly and the values by the matcher |
| Scenarios.TwoPairsOnePattern | src/main.ts:160-164 | two value pairs against one pattern pair match exactly when either pair agrees |
| Scenarios.PairExampleMatches | src/main.ts:160-164 | `[{Make: BMW}, {Year: 2007}]` as pairs matches the pair pattern `[{Make: BMW}]` |
| Scenarios.PairExampleFails | src/main.ts:160-164 | the same pairs do not match the pair pattern `[{Make: Honda}]` |
| Scenarios.FirstOfTwoMatchingClausesWins | src/main.ts:125-133 | a string matches both `String` and its own literal; with those two clauses the first handler decides the result and the second handler is never called |

## Left out

- The receiver passed through `Reflect.apply` (src/main.ts:175 and 189) is not modelled. Callables ignore their receiver: an accessor returns a fixed result, and an entity looks its argument up in its own fields.
- The TypeErrors that the source throws are modelled as non-matches:
  - `Reflect.has` on a primitive or null returned by a callable value called with a pattern key (src/main.ts:189-190): the key check fails;
  - `Object.keys` of a null or undefined pattern;
  - reading a key of null;
  - calling the non-callable `value` of a pair returned by an entity.
- MatchPattern: a non-empty string literal pattern against a record, array, null or callable is a non-match. The source enumerates the string's character indices as keys and recurses on them with one-character patterns, which the pattern datatype cannot follow (a one-character pattern is not a smaller part of the string pattern). The empty string has no keys and is modelled as matching vacuously, as in the source.
- MatchPattern: `isArrayOfKeyValuePair` (src/main.ts:11-16, called at line 160) throws when `Reflect.has` meets a primitive or null element before the first non-pair object, on the value side and then on the pattern side. The model reads that probe as "not a pair" and goes on, so an array of primitives reaches the broadcast case and can match there, as `Broadcast`, `BroadcastConcat` and `EmptyArrayAgainstArrayPattern` state, where the source throws (for example `[1, 2]` against `[Number]`, or `[]` against `[5]`).
- Own properties of arrays and functions (`length`, indices, `name`) are not modelled, and neither are inherited properties (`constructor`, `toString`, `hasOwnProperty` on records, `call` and `bind` on functions): `Get` reads the own keys of plain records only. So, for example, `{}` does not match `{constructor: Object}` in the model, while the source calls the inherited `constructor` at lines 184-185 and matches.
- Numbers are integers plus an explicit NaN. Fractions, -0, the infinities and other floating-point behaviour are left out.
- Guards, handlers, accessors and the fallback are total functions. Exceptions thrown by user code, and their propagation, are not modelled.
- `Item.field` in `src/index.ts` and `test/objectMethod.spec.ts` throws for an unknown field name. The model's entity yields undefined instead; inside a match the probe of that undefined result then fails the key check, so the outcome is the same non-match as for the other TypeErrors.
- The TypeScript type-level definitions (src/main.ts:1-53) have no runtime behaviour and are not modelled.
- `src/index.ts` beyond the matching pipeline (`_getJSON`, `toJSON`, `mapObject`, `console.log`) is not part of this model.
- Scenarios.FilterBMW2007Demo has two gaps:
  - Items are reduced to the one `field` method the patterns use.
  - Models are arbitrary.
- Scenarios.ObjectMethodMatch is stated for every BMW item of the model's shape, not only for the test's `items[0]`.
