/** Runs of a machine: a state, a sequence of inputs, one step for each. */
module Runs {

  function Run<S, E>(step: (S, E) -> S, s: S, es: seq<E>): S
    decreases |es|
  {
    if es == [] then s else step(Run(step, s, es[..|es| - 1]), es[|es| - 1])
  }

  lemma RunSnoc<S, E>(step: (S, E) -> S, s: S, es: seq<E>, e: E)
    ensures Run(step, s, es + [e]) == step(Run(step, s, es), e)
  {
    assert (es + [e])[..|es|] == es;
  }

  lemma {:induction false} RunConcat<S, E>(step: (S, E) -> S, s: S, es: seq<E>, fs: seq<E>)
    ensures Run(step, s, es + fs) == Run(step, Run(step, s, es), fs)
    decreases |fs|
  {
    if fs == [] {
      assert es + fs == es;
    } else {
      var front := fs[..|fs| - 1];
      RunConcat(step, s, es, front);
      assert es + fs == (es + front) + [fs[|fs| - 1]];
      RunSnoc(step, s, es + front, fs[|fs| - 1]);
    }
  }
}
