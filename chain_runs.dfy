/**
  Chains as callers write them: a run of `using`, `match`, `match` with an
  override and `matchOneOf`, each attempt finalised at once with `then` or
  `evaluate`. The lemmas here state what a whole run computes: a resolved
  chain absorbs every step, and from an unresolved chain the first step whose
  comparison succeeds, when no `using` comes before it, decides the result,
  as in a switch/case expression.
 */
module ChainRuns {
  import opened Itch

  /** How a caller finalises an attempt. */
  datatype Finalizer<R> = CallThen(value: R) | CallEvaluate(arg: Lazy<R>) {
    /** The result the finalizer commits to when the attempt hits. */
    function Committed(): R {
      match this
      case CallThen(v) => v
      case CallEvaluate(x) => x.Force()
    }
  }

  /** One link of a chain expression. */
  datatype Step<!S(!new), !C(!new), R> =
    | Use(newMatcher: (S, C) -> bool)
    | Try(candidate: C, fin: Finalizer<R>)
    | TryWith(candidate: C, override: (S, C) -> bool, fin: Finalizer<R>)
    | TryOneOf(candidates: seq<C>, fin: Finalizer<R>)

  function Finish<S(!new), C(!new), R>(a: Attempt<S, C, R>, fin: Finalizer<R>): (c: Chain<S, C, R>)
    ensures c == if a.Hit() then Resolved(fin.Committed()) else a.Origin()
  {
    match fin
    case CallThen(v) => a.Then(v)
    case CallEvaluate(x) => a.Evaluate(x)
  }

  function Apply<S(!new), C(!new), R>(chain: Chain<S, C, R>, step: Step<S, C, R>): Chain<S, C, R> {
    match step
    case Use(m) => chain.Using(m)
    case Try(x, fin) => Finish(chain.Match(x), fin)
    case TryWith(x, m, fin) => Finish(chain.MatchUsing(x, m), fin)
    case TryOneOf(xs, fin) => Finish(chain.MatchOneOf(xs), fin)
  }

  /** The chain a run of steps leaves behind. */
  function Run<S(!new), C(!new), R>(chain: Chain<S, C, R>, steps: seq<Step<S, C, R>>): Chain<S, C, R>
    decreases |steps|
  {
    if steps == [] then chain else Run(Apply(chain, steps[0]), steps[1..])
  }

  /**
    Reference meaning of a comparison step, independent of the chain
    operations: does it succeed for this seed under this stored matcher?
   */
  ghost predicate Hits<S(!new), C(!new), R>(step: Step<S, C, R>, seed: S, matcher: (S, C) -> bool) {
    match step
    case Use(_) => false
    case Try(x, _) => matcher(seed, x)
    case TryWith(x, m, _) => m(seed, x)
    case TryOneOf(xs, _) => exists i :: 0 <= i < |xs| && matcher(seed, xs[i])
  }

  ghost predicate NoUse<S(!new), C(!new), R>(steps: seq<Step<S, C, R>>) {
    forall j :: 0 <= j < |steps| ==> !steps[j].Use?
  }

  /** One step on a resolved chain changes nothing, whatever its arguments. */
  lemma ApplyResolved<S(!new), C(!new), R>(r: R, step: Step<S, C, R>)
    ensures Apply(Resolved(r), step) == Resolved(r)
  {
  }

  /** Resolved is absorbing: every run leaves a resolved chain as it was. */
  lemma {:induction false} Absorbing<S(!new), C(!new), R>(r: R, steps: seq<Step<S, C, R>>)
    ensures Run(Resolved(r), steps) == Resolved(r)
    decreases |steps|
  {
    if steps != [] {
      ApplyResolved(r, steps[0]);
      Absorbing(r, steps[1..]);
    }
  }

  /** One comparison step on an unresolved chain: commit on a hit, the same chain on a miss. */
  lemma ApplyUnresolved<S(!new), C(!new), R>(seed: S, matcher: (S, C) -> bool, step: Step<S, C, R>)
    requires !step.Use?
    ensures Apply(Unresolved(seed, matcher), step) ==
      if Hits(step, seed, matcher) then Resolved(step.fin.Committed()) else Unresolved(seed, matcher)
  {
  }

  /**
    Switch/case semantics: when no `using` comes before it, the first step
    whose comparison succeeds decides the result, whatever follows it;
    overrides of earlier missed steps leave no trace.
   */
  lemma {:induction false} FirstHitCommits<S(!new), C(!new), R>(
    seed: S, matcher: (S, C) -> bool, steps: seq<Step<S, C, R>>, k: nat)
    requires k < |steps| && Hits(steps[k], seed, matcher)
    requires forall j :: 0 <= j < k ==> !steps[j].Use? && !Hits(steps[j], seed, matcher)
    ensures Run(Unresolved(seed, matcher), steps) == Resolved(steps[k].fin.Committed())
    decreases k
  {
    ApplyUnresolved(seed, matcher, steps[0]);
    if k == 0 {
      Absorbing(steps[0].fin.Committed(), steps[1..]);
    } else {
      FirstHitCommits(seed, matcher, steps[1..], k - 1);
    }
  }

  /** With no `using` and no successful comparison, the run hands back the chain it started from. */
  lemma {:induction false} NoHitKeepsChain<S(!new), C(!new), R>(
    seed: S, matcher: (S, C) -> bool, steps: seq<Step<S, C, R>>)
    requires NoUse(steps)
    requires forall j :: 0 <= j < |steps| ==> !Hits(steps[j], seed, matcher)
    ensures Run(Unresolved(seed, matcher), steps) == Unresolved(seed, matcher)
    decreases |steps|
  {
    if steps != [] {
      ApplyUnresolved(seed, matcher, steps[0]);
      NoHitKeepsChain(seed, matcher, steps[1..]);
    }
  }

  /**
    `scratch` after a run without `using`: the first hit's result, or the
    fallback when nothing hit.
   */
  lemma ScratchAfterRun<S(!new), C(!new), R>(
    seed: S, matcher: (S, C) -> bool, steps: seq<Step<S, C, R>>, fallback: R)
    requires NoUse(steps)
    ensures (forall j :: 0 <= j < |steps| ==> !Hits(steps[j], seed, matcher)) ==>
      Run(Unresolved(seed, matcher), steps).Scratch(fallback) == fallback
    ensures forall k ::
      (0 <= k < |steps| && Hits(steps[k], seed, matcher) &&
       forall j :: 0 <= j < k ==> !Hits(steps[j], seed, matcher)) ==>
      Run(Unresolved(seed, matcher), steps).Scratch(fallback) == steps[k].fin.Committed()
  {
    if forall j :: 0 <= j < |steps| ==> !Hits(steps[j], seed, matcher) {
      NoHitKeepsChain(seed, matcher, steps);
    }
    forall k | 0 <= k < |steps| && Hits(steps[k], seed, matcher) &&
      (forall j :: 0 <= j < k ==> !Hits(steps[j], seed, matcher))
      ensures Run(Unresolved(seed, matcher), steps).Scratch(fallback) == steps[k].fin.Committed()
    {
      FirstHitCommits(seed, matcher, steps, k);
    }
  }

  /** `using` at the start of a run: the matcher it installs is the one every later bare comparison uses. */
  lemma UseThenRun<S(!new), C(!new), R>(
    seed: S, oldMatcher: (S, C) -> bool, m: (S, C) -> bool, steps: seq<Step<S, C, R>>)
    ensures Run(Unresolved(seed, oldMatcher), [Use(m)] + steps) == Run(Unresolved(seed, m), steps)
  {
  }

  /** Running two sequences one after the other is running their concatenation. */
  lemma {:induction false} RunAppend<S(!new), C(!new), R>(
    chain: Chain<S, C, R>, first: seq<Step<S, C, R>>, second: seq<Step<S, C, R>>)
    ensures Run(chain, first + second) == Run(Run(chain, first), second)
    decreases |first|
  {
    if first == [] {
      assert first + second == second;
    } else {
      assert (first + second)[0] == first[0];
      assert (first + second)[1..] == first[1..] + second;
      RunAppend(Apply(chain, first[0]), first[1..], second);
    }
  }

  /**
    The first `using` in a run: when nothing before it hits, the chain reaches
    it unchanged, and the rest of the run behaves as if the chain had been
    built with the new matcher.
   */
  lemma UseMidRun<S(!new), C(!new), R>(
    seed: S, oldMatcher: (S, C) -> bool, before: seq<Step<S, C, R>>, m: (S, C) -> bool,
    after: seq<Step<S, C, R>>)
    requires NoUse(before)
    requires forall j :: 0 <= j < |before| ==> !Hits(before[j], seed, oldMatcher)
    ensures Run(Unresolved(seed, oldMatcher), before + [Use(m)] + after) == Run(Unresolved(seed, m), after)
  {
    RunAppend(Unresolved(seed, oldMatcher), before, [Use(m)] + after);
    assert before + [Use(m)] + after == before + ([Use(m)] + after);
    NoHitKeepsChain(seed, oldMatcher, before);
    UseThenRun(seed, oldMatcher, m, after);
  }
}
