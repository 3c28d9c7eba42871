/** Runs of a state machine: a step function repeated over a sequence of events. */
module Runs {

  function After<S, E>(step: (S, E) -> S, s: S, events: seq<E>): S
    decreases |events|
  {
    if events == [] then s else After(step, step(s, events[0]), events[1..])
  }

  lemma AfterNothing<S, E>(step: (S, E) -> S, s: S)
    ensures After(step, s, []) == s
  {}

  lemma {:induction false} AfterConcat<S, E>(step: (S, E) -> S, s: S, a: seq<E>, b: seq<E>)
    ensures After(step, s, a + b) == After(step, After(step, s, a), b)
    decreases |a|
  {
    if a == [] {
      assert a + b == b;
    } else {
      assert (a + b)[1..] == a[1..] + b;
      AfterConcat(step, step(s, a[0]), a[1..], b);
    }
  }

  lemma AfterOne<S, E>(step: (S, E) -> S, s: S, a: seq<E>, e: E)
    ensures After(step, s, a + [e]) == step(After(step, s, a), e)
  {
    AfterConcat(step, s, a, [e]);
    assert [e][1..] == [];
  }
}
