/** Runs of a transition system: sequences of actions, each of them enabled where it is taken. */
module Runs {
  import opened Wrappers

  /** The state after a run, or None if some action of it was not enabled. */
  function Exec<S, A>(next: (S, A) -> Option<S>, s: S, run: seq<A>): Option<S> {
    if run == [] then Some(s)
    else
      var before := Exec(next, s, run[..|run| - 1]);
      if before.None? then None else next(before.value, run[|run| - 1])
  }

  lemma ExecSnoc<S, A>(next: (S, A) -> Option<S>, s: S, run: seq<A>, action: A)
    requires Exec(next, s, run).Some?
    ensures Exec(next, s, run + [action]) == next(Exec(next, s, run).value, action)
  {
    assert (run + [action])[..|run|] == run;
  }

  /** The state before the last action. */
  lemma ExecLast<S, A>(next: (S, A) -> Option<S>, s: S, run: seq<A>, t: S) returns (m: S)
    requires Exec(next, s, run) == Some(t) && run != []
    ensures Exec(next, s, run[..|run| - 1]) == Some(m) && next(m, run[|run| - 1]) == Some(t)
  {
    m := Exec(next, s, run[..|run| - 1]).value;
  }

  ghost predicate Keeps<S(!new), A(!new)>(next: (S, A) -> Option<S>, inv: S -> bool) {
    forall s, action {:trigger next(s, action)} ::
      inv(s) && next(s, action).Some? ==> inv(next(s, action).value)
  }

  /** What holds at the start and is kept by every action holds after every run. */
  lemma {:induction false} Invariant<S(!new), A(!new)>(next: (S, A) -> Option<S>, inv: S -> bool,
                                                       s: S, run: seq<A>, t: S)
    requires Keeps(next, inv) && inv(s) && Exec(next, s, run) == Some(t)
    ensures inv(t)
  {
    if run != [] {
      var m := ExecLast(next, s, run, t);
      Invariant(next, inv, s, run[..|run| - 1], m);
    }
  }
}
