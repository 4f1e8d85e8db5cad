/**
  Single-call properties of the match chain: strict equality by default,
  non-persistence of a one-shot matcher, absorption by a resolved chain,
  eager `then` against lazy `evaluate`, the existential reading of
  `matchOneOf`, `using` and the fallback of `scratch`; then the usage
  examples written out on concrete values.
 */
module ChainProperties {
  import opened Itch

  /** With the default matcher a chain commits on its own seed and on nothing else. */
  lemma DefaultMatcherIsStrictEquality<S(!new), R>(x: S, y: S, r: R)
    ensures Create<S, R>(x).Match(x).Then(r) == Resolved(r)
    ensures y != x ==> Create<S, R>(x).Match(y).Then(r) == Unresolved(x, StrictEquals)
  {
  }

  /**
    A one-shot matcher is never stored: after a miss both finalizers hand back
    the chain with its own matcher, whatever they are given, and the next bare
    `match` compares with that stored matcher.
   */
  lemma OverrideNotStored<S(!new), C(!new), D, R>(
    seed: S, matcher: (S, C) -> bool, x: D, override: (S, D) -> bool, v: R, lazy: Lazy<R>, y: C)
    requires !override(seed, x)
    ensures Chain<S, C, R>.Unresolved(seed, matcher).MatchUsing(x, override).Then(v) == Unresolved(seed, matcher)
    ensures Chain<S, C, R>.Unresolved(seed, matcher).MatchUsing(x, override).Evaluate(lazy) == Unresolved(seed, matcher)
    ensures Chain<S, C, R>.Unresolved(seed, matcher).MatchUsing(x, override).Then(v).Match(y).Hit() <==> matcher(seed, y)
  {
  }

  /** A one-shot matcher that accepts commits exactly like a stored one. */
  lemma OverrideHitCommits<S(!new), C(!new), D, R>(
    seed: S, matcher: (S, C) -> bool, x: D, override: (S, D) -> bool, v: R, lazy: Lazy<R>)
    requires override(seed, x)
    ensures Chain<S, C, R>.Unresolved(seed, matcher).MatchUsing(x, override).Then(v) == Resolved(v)
    ensures Chain<S, C, R>.Unresolved(seed, matcher).MatchUsing(x, override).Evaluate(lazy) == Resolved(lazy.Force())
  {
  }

  /** Every operation on a resolved chain, with any arguments, yields the same resolved chain. */
  lemma ResolvedAbsorbsEveryOperation<S(!new), C(!new), D, R>(
    r: R, m: (S, C) -> bool, x: C, xs: seq<C>, y: D, override: (S, D) -> bool, v: R, lazy: Lazy<R>)
    ensures Chain<S, C, R>.Resolved(r).Using(m) == Resolved(r)
    ensures Chain<S, C, R>.Resolved(r).Match(x).Then(v) == Resolved(r)
    ensures Chain<S, C, R>.Resolved(r).Match(x).Evaluate(lazy) == Resolved(r)
    ensures Chain<S, C, R>.Resolved(r).MatchUsing(y, override).Then(v) == Resolved(r)
    ensures Chain<S, C, R>.Resolved(r).MatchUsing(y, override).Evaluate(lazy) == Resolved(r)
    ensures Chain<S, C, R>.Resolved(r).MatchOneOf(xs).Then(v) == Resolved(r)
    ensures Chain<S, C, R>.Resolved(r).MatchOneOf(xs).Evaluate(lazy) == Resolved(r)
    ensures Chain<S, C, R>.Resolved(r).Scratch(v) == r
  {
  }

  /** `then` stores a function as it is and never calls it. */
  lemma ThenStoresFunctionUncalled<S(!new), C(!new), X>(a: Attempt<S, C, () -> X>, f: () -> X)
    requires a.Hit()
    ensures a.Then(f) == Resolved(f)
  {
  }

  /**
    `evaluate` on a hit stores the thunk's result or the plain value; on a
    miss its argument plays no part, so a thunk given to it is never forced.
   */
  lemma EvaluateForcesOnlyOnHit<S(!new), C(!new), R>(a: Attempt<S, C, R>, f: () -> R, v: R, other: Lazy<R>)
    ensures a.Hit() ==> a.Evaluate(Thunk(f)) == Resolved(f()) && a.Evaluate(Value(v)) == Resolved(v)
    ensures !a.Hit() ==> a.Evaluate(Thunk(f)) == a.Evaluate(other) == a.Then(v) == a.Origin()
  {
  }

  /** `matchOneOf` hits iff the stored matcher accepts some element; an empty list never hits. */
  lemma MatchOneOfIsExistential<S(!new), C(!new), R>(seed: S, matcher: (S, C) -> bool, xs: seq<C>, v: R)
    ensures Chain<S, C, R>.Unresolved(seed, matcher).MatchOneOf([]).Then(v) == Unresolved(seed, matcher)
    ensures (exists i :: 0 <= i < |xs| && matcher(seed, xs[i])) ==>
      Chain<S, C, R>.Unresolved(seed, matcher).MatchOneOf(xs).Then(v) == Resolved(v)
    ensures (forall i :: 0 <= i < |xs| ==> !matcher(seed, xs[i])) ==>
      Chain<S, C, R>.Unresolved(seed, matcher).MatchOneOf(xs).Then(v) == Unresolved(seed, matcher)
  {
  }

  /** `matchOneOf` lifts the matcher installed by `using`, not the one it replaced. */
  lemma MatchOneOfUsesStoredMatcher<S(!new), C(!new), R>(
    seed: S, oldMatcher: (S, C) -> bool, m: (S, C) -> bool, xs: seq<C>)
    ensures Chain<S, C, R>.Unresolved(seed, oldMatcher).Using(m).MatchOneOf(xs).Hit() <==>
      exists i :: 0 <= i < |xs| && m(seed, xs[i])
  {
  }

  /** `using` compares nothing and keeps the seed; later bare matches use the new matcher. */
  lemma UsingRedirectsMatch<S(!new), C(!new), R>(seed: S, oldMatcher: (S, C) -> bool, m: (S, C) -> bool, y: C, v: R)
    ensures Chain<S, C, R>.Unresolved(seed, oldMatcher).Using(m) == Unresolved(seed, m)
    ensures Chain<S, C, R>.Unresolved(seed, oldMatcher).Using(m).Match(y).Then(v) ==
      if m(seed, y) then Resolved(v) else Unresolved(seed, m)
  {
  }

  /** `scratch` gives the stored result whatever the fallback, and the fallback while unresolved. */
  lemma ScratchIsUniform<S(!new), C(!new), R>(chain: Chain<S, C, R>, fallback: R, otherFallback: R)
    ensures chain.Resolved? ==> chain.Scratch(fallback) == chain.Scratch(otherFallback) == chain.result
    ensures chain.Unresolved? ==> chain.Scratch(fallback) == fallback
  {
  }

  /** `matchOneOf` on concrete lists: 3 is among [1, 2, 3] and not among [1, 2]. */
  lemma MatchOneOfExamples()
    ensures Create<int, string>(3).MatchOneOf([1, 2, 3]).Then("hit") == Resolved("hit")
    ensures Create<int, string>(3).MatchOneOf([1, 2]).Then("hit").Scratch("miss") == "miss"
  {
  }

  /** Fallback on concrete values: a chain that never matched, and one resolved to "X". */
  lemma FallbackExamples()
    ensures Create<int, string>(1).Match(2).Then("X").Scratch("default") == "default"
    ensures Create<int, string>(1).Match(1).Then("X").Scratch("default") == "X"
  {
  }

  /** A custom matcher installed by `using`: 5.5 is within distance 1 of 5. */
  lemma CustomMatcherExample()
    ensures Create<real, string>(5.0).Using((s: real, c: real) => -1.0 < s - c < 1.0).Match(5.5).Then("close")
      == Resolved("close")
  {
  }
}
