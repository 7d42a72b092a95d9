/** Running a state machine: what the protocols' runs have in common. */
module Runs {

  function Fold<S, A>(next: (S, A) -> S, s: S, actions: seq<A>): S {
    if |actions| == 0 then s
    else next(Fold(next, s, actions[..|actions| - 1]), actions[|actions| - 1])
  }

  /** A run may be split anywhere. */
  lemma {:induction false} Appends<S, A>(next: (S, A) -> S, s: S, actions: seq<A>, more: seq<A>)
    ensures Fold(next, s, actions + more) == Fold(next, Fold(next, s, actions), more)
  {
    if |more| == 0 {
      assert actions + more == actions;
    } else {
      assert (actions + more)[..|actions + more| - 1] == actions + more[..|more| - 1];
      Appends(next, s, actions, more[..|more| - 1]);
    }
  }

  /** A path that follows its actions step by step is their run. */
  lemma {:induction false} Follows<S, A>(next: (S, A) -> S, path: seq<S>, actions: seq<A>)
    requires |path| == |actions| + 1
    requires forall i :: 0 <= i < |actions| ==> path[i + 1] == next(path[i], actions[i])
    ensures Fold(next, path[0], actions) == path[|actions|]
  {
    if |actions| > 0 {
      var last := |actions| - 1;
      Follows(next, path[..|path| - 1], actions[..last]);
      assert path[last + 1] == next(path[last], actions[last]);
    }
  }
}
