/**
  The match chain of itch: an immutable, switch/case-style expression builder.

  A chain starts unresolved, holding a seed and a matcher (a two-argument
  predicate, strict equality by default). Each `match` decides one outcome
  and yields an attempt; finalising the attempt with `then` or `evaluate`
  commits to a result on a hit and hands back the chain unchanged on a miss.
  Once resolved, a chain absorbs every further operation.
 */
module Itch {

  /** The default matcher: strict equality of seed and candidate. */
  function StrictEquals<T(==)>(seed: T, candidate: T): (r: bool)
    ensures r <==> seed == candidate
  {
    seed == candidate
  }

  /** Strict equality is an equivalence: every seed matches itself, in either order, transitively. */
  lemma StrictEqualsIsEquivalence<T(!new)>(a: T, b: T, c: T)
    ensures StrictEquals(a, a)
    ensures StrictEquals(a, b) <==> StrictEquals(b, a)
    ensures StrictEquals(a, b) && StrictEquals(b, c) ==> StrictEquals(a, c)
  {
  }

  /** `Array.prototype.some`: does some element of `candidates`, left to right, match the seed? */
  function AnyMatches<S(!new), C(!new)>(matcher: (S, C) -> bool, seed: S, candidates: seq<C>): (b: bool)
    ensures b <==> exists i :: 0 <= i < |candidates| && matcher(seed, candidates[i])
  {
    if candidates == [] then false
    else if matcher(seed, candidates[0]) then true
    else
      var rest := AnyMatches(matcher, seed, candidates[1..]);
      assert forall i :: 1 <= i < |candidates| ==> candidates[i] == candidates[1..][i - 1];
      rest
  }

  /** Lifts a matcher on single candidates to one on a sequence of candidates. */
  function ArrayMatcher<S(!new), C(!new)>(matcher: (S, C) -> bool): (lifted: (S, seq<C>) -> bool)
    ensures forall seed, candidates :: lifted(seed, candidates) <==>
      exists i :: 0 <= i < |candidates| && matcher(seed, candidates[i])
  {
    (seed, candidates) => AnyMatches(matcher, seed, candidates)
  }

  /** The lifted matcher ignores the order of the candidates: any permutation gives the same answer. */
  lemma ArrayMatcherIgnoresOrder<S(!new), C(!new)>(matcher: (S, C) -> bool, seed: S, xs: seq<C>, ys: seq<C>)
    requires multiset(xs) == multiset(ys)
    ensures ArrayMatcher(matcher)(seed, xs) == ArrayMatcher(matcher)(seed, ys)
  {
    forall i | 0 <= i < |xs| ensures xs[i] in ys {
      assert xs[i] in multiset(xs);
    }
    forall i | 0 <= i < |ys| ensures ys[i] in xs {
      assert ys[i] in multiset(ys);
    }
  }

  /** The argument of `evaluate`: a plain value, or a thunk that computes one. */
  datatype Lazy<R> = Value(value: R) | Thunk(compute: () -> R) {
    /** The result `evaluate` stores: the value itself, or the thunk's result. */
    function Force(): (r: R)
      ensures Value? ==> r == value
      ensures Thunk? ==> r == compute()
    {
      match this
      case Value(v) => v
      case Thunk(f) => f()
    }
  }

  /** The two states of a chain (`notDone` and `done`). */
  datatype Chain<!S(!new), !C(!new), R> =
    | Unresolved(seed: S, matcher: (S, C) -> bool)
    | Resolved(result: R)
  {
    /**
      `match(candidate, newMatcher)`: compare once with `newMatcher`. The attempt
      falls back to this very chain, so the override is never stored.
     */
    function MatchUsing<D>(candidate: D, newMatcher: (S, D) -> bool): (a: Attempt<S, C, R>)
      ensures a.Origin() == this
      ensures a.Hit() <==> Unresolved? && newMatcher(seed, candidate)
    {
      match this
      case Resolved(r) => Settled(r)
      case Unresolved(s, m) => Tried(s, m, newMatcher(s, candidate))
    }

    /** `match(candidate)`: compare once with the stored matcher. */
    function Match(candidate: C): (a: Attempt<S, C, R>)
      ensures a.Origin() == this
      ensures a.Hit() <==> Unresolved? && matcher(seed, candidate)
    {
      match this
      case Resolved(r) => Settled(r)
      case Unresolved(_, m) => MatchUsing(candidate, m)
    }

    /**
      `matchOneOf(candidates)`: hits iff the stored matcher accepts some
      candidate; it takes no override of its own.
     */
    function MatchOneOf(candidates: seq<C>): (a: Attempt<S, C, R>)
      ensures a.Origin() == this
      ensures a.Hit() <==> Unresolved? && exists i :: 0 <= i < |candidates| && matcher(seed, candidates[i])
    {
      match this
      case Resolved(r) => Settled(r)
      case Unresolved(_, m) => MatchUsing(candidates, ArrayMatcher(m))
    }

    /** `scratch(fallback)`: the committed result, or the fallback while unresolved. */
    function Scratch(fallback: R): (r: R)
      ensures Resolved? ==> r == result
      ensures Unresolved? ==> r == fallback
    {
      match this
      case Resolved(r) => r
      case Unresolved(_, _) => fallback
    }

    /** `using(newMatcher)`: keep the seed, replace the stored matcher, compare nothing. */
    function Using(newMatcher: (S, C) -> bool): (c: Chain<S, C, R>)
      ensures Resolved? ==> c == this
      ensures Unresolved? ==> c.Unresolved? && c.seed == seed && c.matcher == newMatcher
    {
      match this
      case Resolved(_) => this
      case Unresolved(s, _) => Unresolved(s, newMatcher)
    }
  }

  /**
    The transient value `match` returns. `Settled` comes from a resolved chain,
    which performs no comparison; `Tried` records the outcome of the one
    comparison together with the seed and the chain's STORED matcher.
   */
  datatype Attempt<!S(!new), !C(!new), R> =
    | Settled(result: R)
    | Tried(seed: S, matcher: (S, C) -> bool, outcome: bool)
  {
    /** The comparison succeeded, so the finalizers commit. */
    predicate Hit() {
      Tried? && outcome
    }

    /** The chain the finalizers return when they do not commit. */
    function Origin(): Chain<S, C, R> {
      match this
      case Settled(r) => Resolved(r)
      case Tried(s, m, _) => Unresolved(s, m)
    }

    /** `then(v)`: commit to `v` as given (even a function), else the origin chain. */
    function Then(v: R): (c: Chain<S, C, R>)
      ensures Hit() ==> c == Resolved(v)
      ensures !Hit() ==> c == Origin()
    {
      match this
      case Settled(r) => Resolved(r)
      case Tried(s, m, o) => if o then Resolved(v) else Unresolved(s, m)
    }

    /** `evaluate(x)`: commit to `x` forced, else the origin chain without forcing `x`. */
    function Evaluate(x: Lazy<R>): (c: Chain<S, C, R>)
      ensures Hit() ==> c == Resolved(x.Force())
      ensures !Hit() ==> c == Origin()
    {
      match this
      case Settled(r) => Resolved(r)
      case Tried(s, m, o) => if o then Resolved(x.Force()) else Unresolved(s, m)
    }
  }

  /** The entry point: an unresolved chain with the strict-equality matcher. */
  function Create<S(==, !new), R>(seed: S): (c: Chain<S, S, R>)
    ensures c.Unresolved? && c.seed == seed
    ensures forall candidate :: c.Match(candidate).Hit() <==> candidate == seed
  {
    Unresolved(seed, StrictEquals)
  }
}
