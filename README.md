# itch match chain in Dafny

itch is an immutable, switch/case-style expression builder. `create(seed)`
makes an unresolved chain that holds the seed and a matcher. The matcher is a
two-argument predicate, strict equality by default. Each `match(candidate)`
decides one outcome and returns an attempt with two finalizers:

- `then(v)` commits to `v` as given.
- `evaluate(x)` commits to `x()` when `x` is a function, and to `x` otherwise.

On a miss, both finalizers return the chain as it was. A resolved chain keeps
only its result and absorbs every later operation. `matchOneOf(list)` hits when
the stored matcher accepts some element of the list. `using(m)` replaces the
stored matcher. `scratch(fallback)` gives the result, or the fallback while
unresolved.

The model is pure, as the source is: datatypes, functions and lemmas.

- `itch.dfy`, module `Itch`: the two chain states and every operation.
  - `Chain` is `Unresolved(seed, matcher) | Resolved(result)`. These are `notDone` and `done` in the source.
  - `Attempt` is `Settled(result) | Tried(seed, matcher, outcome)`. An attempt built from an unresolved chain records the chain's stored matcher, never the override.
  - `Lazy` is `Value(v) | Thunk(f)`. It stands for the runtime test of whether the argument of `evaluate` is a function.
- `chain_runs.dfy`, module `ChainRuns`: chains as callers write them, as a sequence of steps.
  - A step is `using`, `match`, `match` with an override, or `matchOneOf`, each finalised with `then` or `evaluate`.
  - Its lemmas prove that a resolved chain absorbs any run of steps.
  - They prove that, when no `using` comes before it, the first step whose comparison succeeds decides the result, as in a switch/case expression.
  - They prove that in a run without `using` where no step hits, the run gives back the chain it started from, so `scratch` yields the fallback.
  - They prove that runs compose by concatenation, and that the first `using` in a run, reached after steps that all missed, makes the rest of the run use the new matcher.
- `chain_properties.dfy`, module `ChainProperties`: properties of single calls, and usage examples on concrete values.

Two points where the code is specific:

- `scratch` takes the fallback directly (src/itch.js:13, 30). A resolved chain's `scratch` returns the result itself and ignores its argument.
- `matchOneOf` takes no matcher override (src/itch.js:29). It always lifts the chain's stored matcher.

## Model

| member | source | states |
|---|---|---|
| Itch.StrictEquals | src/itch.js:1 | the default matcher holds exactly when seed and candidate are equal |
| Itch.StrictEqualsIsEquivalence | src/itch.js:1 | strict equality is reflexive, symmetric and transitive, so every seed matches itself |
| Itch.ArrayMatcher | src/itch.js:2-3 | the lifted matcher accepts a seed and a candidate list exactly when the given matcher accepts the seed against some element of the list |
| Itch.AnyMatches | src/itch.js:3 | `.some` holds iff some element of the sequence is accepted by the matcher against the seed; the empty sequence never matches |
| Itch.ArrayMatcherIgnoresOrder | src/itch.js:2-3 | the lifted matcher gives the same answer on any permutation of the candidate list, so the order of the candidates never changes whether a list matches |
| Itch.Lazy.Force | src/itch.js:24 | a plain value is stored as it is, and a thunk is replaced by the result of calling it |
| Itch.Chain.MatchUsing | src/itch.js:19-26 | a match with a one-shot matcher hits iff that matcher accepts (seed, candidate) on an unresolved chain, never on a resolved one; the attempt falls back to exactly the chain it came from, so the override is not stored |
| Itch.Chain.Match | src/itch.js:19 | a bare match hits iff the stored matcher accepts the candidate; its attempt falls back to the same chain |
| Itch.Chain.MatchOneOf | src/itch.js:29 | matchOneOf hits iff the stored matcher accepts some element of the list (no override); its attempt falls back to the same chain |
| Itch.Chain.Scratch | src/itch.js:30 | scratch returns the stored result when resolved and the fallback argument when unresolved |
| Itch.Chain.Using | src/itch.js:31 | using keeps the seed and installs the new matcher on an unresolved chain, and leaves a resolved chain unchanged |
| Itch.Attempt.Then | src/itch.js:20-22 | then commits to its argument as given on a hit, and otherwise returns the attempt's origin chain, ignoring the argument |
| Itch.Attempt.Evaluate | src/itch.js:23-25 | evaluate commits to the forced argument on a hit, and otherwise returns the origin chain without forcing the argument |
| Itch.Create | src/itch.js:35 | create gives an unresolved chain on the seed whose bare match hits exactly on candidates equal to the seed |
| ChainRuns.Finish | src/itch.js:19-25 | either finalizer commits to its argument's committed value on a hit and returns the attempt's origin chain on a miss |
| ChainRuns.ApplyResolved | src/itch.js:5-16 | any single operation with finalizer applied to a resolved chain returns that chain |
| ChainRuns.Absorbing | src/itch.js:5-16 | any run of using/match/matchOneOf steps leaves a resolved chain as it was |
| ChainRuns.ApplyUnresolved | src/itch.js:18-29 | one comparison step on an unresolved chain commits to its finalizer's value when its comparison succeeds and returns the same chain otherwise |
| ChainRuns.FirstHitCommits | src/itch.js:18-33 | when no using comes before it, the first step whose comparison succeeds decides the result, regardless of the steps after it |
| ChainRuns.NoHitKeepsChain | src/itch.js:22-25 | in a run without using where no comparison succeeds, the chain comes back with its seed and stored matcher |
| ChainRuns.ScratchAfterRun | src/itch.js:30 | in a run without using, scratch after the run yields the first hit's committed value, or the fallback when nothing hit |
| ChainRuns.UseThenRun | src/itch.js:31 | a using step at the start of a run on an unresolved chain makes the rest of the run behave as if the chain had been built with the new matcher |
| ChainRuns.RunAppend | src/itch.js:18-33 | a run of two step sequences one after the other equals the run of their concatenation, so chains compose step by step |
| ChainRuns.UseMidRun | src/itch.js:22-31 | the first using step in a run, reached after steps that all missed, makes the rest of the run behave as if the chain had been built with the new matcher |
| ChainProperties.DefaultMatcherIsStrictEquality | src/itch.js:1 | create(x).match(x).then(r) resolves to r, and create(x).match(y).then(r) with y different from x stays unresolved on x with strict equality |
| ChainProperties.OverrideNotStored | src/itch.js:22 | after a miss with a one-shot matcher, then and evaluate both return the chain with its original matcher, and the next bare match uses that matcher |
| ChainProperties.OverrideHitCommits | src/itch.js:20-24 | a one-shot matcher that accepts makes then and evaluate commit |
| ChainProperties.ResolvedAbsorbsEveryOperation | src/itch.js:5-14 | using, match, match with an override and matchOneOf on a resolved chain, finalised by then or evaluate with any arguments, all give the same resolved chain |
| ChainProperties.ThenStoresFunctionUncalled | src/itch.js:21 | then stores a function argument as it is, without calling it |
| ChainProperties.EvaluateForcesOnlyOnHit | src/itch.js:23-25 | evaluate stores a thunk's result or a plain value on a hit; on a miss the result does not depend on the argument |
| ChainProperties.MatchOneOfIsExistential | src/itch.js:29 | matchOneOf on an empty list never commits; on a list it commits iff some element is accepted |
| ChainProperties.MatchOneOfUsesStoredMatcher | src/itch.js:29 | after using(m), matchOneOf lifts m, not the matcher it replaced |
| ChainProperties.UsingRedirectsMatch | src/itch.js:31 | using(m) keeps the seed and a later bare match commits iff m accepts |
| ChainProperties.ScratchIsUniform | src/itch.js:13 | a resolved chain's scratch ignores the fallback and gives the result; an unresolved one gives the fallback |
| ChainProperties.MatchOneOfExamples | src/itch.js:29 | create(3).matchOneOf([1,2,3]).then("hit") resolves to "hit"; with [1,2] scratch("miss") gives "miss" |
| ChainProperties.FallbackExamples | src/itch.js:30 | a chain that never matched gives the fallback, and one resolved to "X" gives "X" |
| ChainProperties.CustomMatcherExample | src/itch.js:31 | with a distance-below-one matcher installed by using, create(5).match(5.5).then("close") resolves to "close" |

## Left out

- Runtime type inspection in `evaluate` (src/itch.js:24) is replaced by the explicit `Lazy` alternative `Value | Thunk`. A thunk is a pure, total Dafny function. The caller, not the runtime, picks the alternative. So when the result type is itself a function type, `Evaluate(Value(f))` stores `f` uncalled, while the source's `evaluate(f)` always calls a function argument.
- Exceptions thrown by caller-supplied matchers or thunks are not modelled. The source neither catches nor wraps them, and Dafny functions are total.
- The source evaluates the comparison twice per `match`, once for `then` and once for `evaluate` (src/itch.js:20, 23). The model keeps one outcome per attempt. The difference shows only with side-effecting matchers.
- JavaScript `===` corner cases are not modelled: NaN, object identity, and `undefined` passed to pick a default parameter. `StrictEquals` is Dafny equality on a type with equality. Seeds and candidates range over types whose values hold no references (`S(!new)`, `C(!new)`), so a seed that is an object compared by identity is outside the model.
- Candidates are typed. A chain's stored matcher takes candidates of one type `C`. `using` keeps that type, while JavaScript would accept any matcher. A one-shot override passed to `Itch.Chain.MatchUsing` may take any candidate type. In a run, however, a `ChainRuns.Step` of kind `TryWith` carries an override on candidates of type `C` only, because a step sequence holds one step type.
- Reusing one attempt for several finalizer calls is allowed, as in the source, because attempts are values. Nothing in the model tracks call-once use.
- The ES module export (src/itch.js:35) is modelled only as the entry point `Create`.
