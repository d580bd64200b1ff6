module Rounds {
  import opened Wrappers

  /** `step` applied to each of `xs` in order from `s`; the first step that throws ends the run. */
  function Run<X, S>(step: (X, S) -> Result<S>, xs: seq<X>, s: S): Result<S>
    decreases |xs|
  {
    if xs == [] then Ok(s)
    else
      match step(xs[0], s)
      case Err(e) => Err(e)
      case Ok(next) => Run(step, xs[1..], next)
  }

  /** A run keeps every invariant its steps keep. */
  lemma {:induction false} RunKeeps<X, S>(step: (X, S) -> Result<S>, inv: (S, S) -> bool, xs: seq<X>, s: S)
    requires forall a :: inv(a, a)
    requires forall a, b, c :: inv(a, b) && inv(b, c) ==> inv(a, c)
    requires forall x, a :: step(x, a).Ok? ==> inv(a, step(x, a).value)
    ensures Run(step, xs, s).Ok? ==> inv(s, Run(step, xs, s).value)
    decreases |xs|
  {
    if xs != [] && step(xs[0], s).Ok? {
      var next := step(xs[0], s).value;
      RunKeeps(step, inv, xs[1..], next);
      if Run(step, xs[1..], next).Ok? {
        assert inv(s, next) && inv(next, Run(step, xs[1..], next).value);
      }
    }
  }

  /** A run from position `i` takes the step at `i` and goes on from `i + 1`. */
  lemma RunAt<X, S>(step: (X, S) -> Result<S>, xs: seq<X>, i: nat, s: S)
    requires i < |xs|
    ensures Run(step, xs[i..], s) == match step(xs[i], s)
      case Err(e) => Err(e)
      case Ok(next) => Run(step, xs[i + 1..], next)
  {
    assert xs[i..][0] == xs[i] && xs[i..][1..] == xs[i + 1..];
  }

  /** Running one more item after `xs`: its step starts where the run over `xs` stopped. */
  lemma {:induction false} RunSnoc<X, S>(step: (X, S) -> Result<S>, xs: seq<X>, x: X, s: S)
    ensures Run(step, xs + [x], s) == match Run(step, xs, s)
      case Err(e) => Err(e)
      case Ok(t) => step(x, t)
    decreases |xs|
  {
    if xs == [] {
      assert [] + [x] == [x];
    } else {
      assert (xs + [x])[0] == xs[0] && (xs + [x])[1..] == xs[1..] + [x];
      if step(xs[0], s).Ok? {
        RunSnoc(step, xs[1..], x, step(xs[0], s).value);
      }
    }
  }

  /** `run` applied to each of `xs`, collecting the results; the first that throws ends it. */
  function RunEach<X, S>(run: X -> Result<S>, xs: seq<X>): (r: Result<seq<S>>)
    ensures r.Ok? ==> |r.value| == |xs| && forall i :: 0 <= i < |xs| ==> run(xs[i]) == Ok(r.value[i])
    ensures r.Ok? <==> forall i :: 0 <= i < |xs| ==> run(xs[i]).Ok?
    decreases |xs|
  {
    if xs == [] then Ok([])
    else
      match RunEach(run, xs[..|xs| - 1])
      case Err(e) => Err(e)
      case Ok(rs) =>
        match run(xs[|xs| - 1])
        case Err(e) => Err(e)
        case Ok(x) => Ok(rs + [x])
  }

  /** Running one more item after the first `i` that did not throw. */
  lemma RunEachSnoc<X, S>(run: X -> Result<S>, xs: seq<X>, i: nat)
    requires i < |xs| && RunEach(run, xs[..i]).Ok?
    ensures RunEach(run, xs[..i + 1]) == match run(xs[i])
      case Err(e) => Err(e)
      case Ok(x) => Ok(RunEach(run, xs[..i]).value + [x])
  {
    assert xs[..i + 1][..i] == xs[..i];
  }

  /** Once the items up to `i` throw, all of them throw the same. */
  lemma {:induction false} RunEachStops<X, S>(run: X -> Result<S>, xs: seq<X>, i: nat)
    requires i <= |xs| && RunEach(run, xs[..i]).Err?
    ensures RunEach(run, xs) == RunEach(run, xs[..i])
    decreases |xs| - i
  {
    if i < |xs| {
      assert xs[..|xs| - 1][..i] == xs[..i];
      RunEachStops(run, xs[..|xs| - 1], i);
    } else {
      assert xs[..i] == xs;
    }
  }

  function Iterate<S>(pending: S -> Result<bool>, round: S -> Result<S>, s: S, fuel: nat): Result<S>
    decreases fuel
  {
    match pending(s)
    case Err(e) => Err(e)
    case Ok(more) =>
      if !more then Ok(s)
      else if fuel == 0 then Err(Diverged)
      else
        match round(s)
        case Err(e) => Err(e)
        case Ok(next) => Iterate(pending, round, next, fuel - 1)
  }

  /**
   * A loop that ends, ends where the test says no more rounds are needed; one
   * that throws, throws what the test or a round throws, or ran out of budget.
   */
  lemma {:induction false} IterateSettles<S>(pending: S -> Result<bool>, round: S -> Result<S>, s: S, fuel: nat, e: Exception)
    requires forall x :: pending(x).Err? ==> pending(x).error == e
    requires forall x :: round(x).Err? ==> round(x).error == e
    ensures Iterate(pending, round, s, fuel).Ok? ==> pending(Iterate(pending, round, s, fuel).value) == Ok(false)
    ensures Iterate(pending, round, s, fuel).Err? ==> Iterate(pending, round, s, fuel).error in {e, Diverged}
    decreases fuel
  {
    if pending(s) == Ok(true) && fuel > 0 && round(s).Ok? {
      IterateSettles(pending, round, round(s).value, fuel - 1, e);
    }
  }

  /** Once the loop ends within a budget, a larger budget ends it the same way. */
  lemma {:induction false} IterateFuel<S>(pending: S -> Result<bool>, round: S -> Result<S>, s: S, fuel: nat, more: nat)
    requires fuel <= more && Iterate(pending, round, s, fuel).Ok?
    ensures Iterate(pending, round, s, more) == Iterate(pending, round, s, fuel)
    decreases fuel
  {
    if pending(s) == Ok(true) {
      IterateFuel(pending, round, round(s).value, fuel - 1, more - 1);
    }
  }
}

