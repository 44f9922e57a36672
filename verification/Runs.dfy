/** Runs of a state machine, and lifting what one step keeps to whole runs. */
module Runs {

  /** The state after all the events, first to last. */
  function Run<S, E>(s: S, es: seq<E>, step: (S, E) -> S): S {
    if es == [] then s else step(Run(s, es[..|es| - 1], step), es[|es| - 1])
  }

  /** p holds at the start and after every event. */
  ghost predicate Always<S, E>(s: S, es: seq<E>, step: (S, E) -> S, p: S -> bool) {
    p(Run(s, es, step)) && (es == [] || Always(s, es[..|es| - 1], step, p))
  }

  /** If good events are exactly those that keep p, good runs are exactly those that always satisfy it. */
  lemma {:induction false} AlwaysIff<S(!new), E(!new)>
    (s: S, es: seq<E>, step: (S, E) -> S, p: S -> bool, good: E -> bool)
    requires p(s) && forall t, e :: p(t) ==> (p(step(t, e)) <==> good(e))
    ensures Always(s, es, step, p) <==> forall i | 0 <= i < |es| :: good(es[i])
  {
    if es != [] {
      var n := |es| - 1;
      AlwaysIff(s, es[..n], step, p, good);
      assert forall i | 0 <= i < n :: es[..n][i] == es[i];
      assert Always(s, es[..n], step, p) ==> p(Run(s, es[..n], step));
    }
  }

  /** An invariant kept by every event of the run holds at its end. */
  lemma {:induction false} RunKeeps<S(!new), E(!new)>(s: S, es: seq<E>, step: (S, E) -> S, p: S -> bool)
    requires p(s) && forall t, e :: p(t) && e in es ==> p(step(t, e))
    ensures p(Run(s, es, step))
  {
    if es != [] {
      var n := |es| - 1;
      assert forall e | e in es[..n] :: e in es;
      RunKeeps(s, es[..n], step, p);
      assert es[n] in es;
    }
  }
}
