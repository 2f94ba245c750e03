/** Runs of a state machine, given by what each step makes of a state. */
module Runs {
  datatype Outcome<+S> = Stuck | Reached(state: S)

  /** The steps lead from one state to another. */
  ghost predicate Leads<S, T>(next: (S, T) -> Outcome<S>, s: S, steps: seq<T>, t: S)
    decreases |steps|
  {
    if steps == [] then s == t
    else next(s, steps[0]).Reached? && Leads(next, next(s, steps[0]).state, steps[1..], t)
  }

  lemma {:induction false} LeadsOn<S, T>(next: (S, T) -> Outcome<S>, s: S, steps: seq<T>, m: S, more: seq<T>, t: S)
    requires Leads(next, s, steps, m) && Leads(next, m, more, t)
    ensures Leads(next, s, steps + more, t)
    decreases |steps|
  {
    if steps == [] {
      assert steps + more == more;
    } else {
      LeadsOn(next, next(s, steps[0]).state, steps[1..], m, more, t);
      assert (steps + more)[1..] == steps[1..] + more;
    }
  }

  lemma OneStep<S, T>(next: (S, T) -> Outcome<S>, s: S, step: T)
    requires next(s, step).Reached?
    ensures Leads(next, s, [step], next(s, step).state)
  {
    assert [step][1..] == [];
  }

  /** Five steps taken three and two at a time. */
  lemma ThreeAndTwo<S, T>(next: (S, T) -> Outcome<S>, s: S, a: T, b: T, c: T, m: S, d: T, e: T, t: S)
    requires Leads(next, s, [a, b, c], m) && Leads(next, m, [d, e], t)
    ensures Leads(next, s, [a, b, c, d, e], t)
  {
    LeadsOn(next, s, [a, b, c], m, [d, e], t);
    assert [a, b, c] + [d, e] == [a, b, c, d, e];
  }

  /** A run that goes on step by step reaches what its steps lead to. */
  lemma {:induction false} ReachedThen<S, T>(next: (S, T) -> Outcome<S>, run: seq<T> -> Outcome<S>, steps: seq<T>, more: seq<T>, t: S)
    requires forall xs, x :: run(xs).Reached? ==> run(xs + [x]) == next(run(xs).state, x)
    requires run(steps).Reached? && Leads(next, run(steps).state, more, t)
    ensures run(steps + more) == Reached(t)
    decreases |more|
  {
    if more == [] {
      assert steps + more == steps;
    } else {
      ReachedThen(next, run, steps + [more[0]], more[1..], t);
      assert steps + [more[0]] + more[1..] == steps + more;
    }
  }
}
