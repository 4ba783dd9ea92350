/** Runs of steps from a state: the shape shared by the training loops
    (a learner moving through games) and the evaluation games (two agents
    taking turns). A step relation says which step may be taken from a
    state, and a successor function says where it leads. */
module Traces {

  /** `ts` can be taken from `s`: each step is one `ok` allows in the state
      reached so far, and `next` gives the state after it. */
  predicate Follows<S, T>(ok: (S, T) -> bool, next: (S, T) -> S, s: S, ts: seq<T>)
    decreases |ts|
  {
    |ts| == 0 || (ok(s, ts[0]) && Follows(ok, next, next(s, ts[0]), ts[1..]))
  }

  /** The state reached from `s` after the steps `ts`. */
  function After<S, T>(next: (S, T) -> S, s: S, ts: seq<T>): S
    decreases |ts|
  {
    if |ts| == 0 then s else After(next, next(s, ts[0]), ts[1..])
  }

  /** A single step allowed from `s` is a run, and ends where the step
      leads. */
  lemma FollowsOne<S, T>(ok: (S, T) -> bool, next: (S, T) -> S, s: S, t: T)
    requires ok(s, t)
    ensures Follows(ok, next, s, [t])
    ensures After(next, s, [t]) == next(s, t)
  {
    assert [t][1..] == [];
  }

  /** A step allowed from `s`, followed by a run from where it leads, is a
      run from `s`; it ends where that run ends. */
  lemma FollowsCons<S, T>(ok: (S, T) -> bool, next: (S, T) -> S, s: S, t: T, ts: seq<T>)
    requires ok(s, t) && Follows(ok, next, next(s, t), ts)
    ensures Follows(ok, next, s, [t] + ts)
    ensures After(next, s, [t] + ts) == After(next, next(s, t), ts)
  {
    assert ([t] + ts)[0] == t;
    assert ([t] + ts)[1..] == ts;
  }

  /** A run followed by a run taken from where the first one ends is a run;
      it ends where the second one ends. */
  lemma {:induction false} FollowsAppend<S, T>(ok: (S, T) -> bool, next: (S, T) -> S, s: S, ts: seq<T>, us: seq<T>)
    requires Follows(ok, next, s, ts)
    requires Follows(ok, next, After(next, s, ts), us)
    decreases |ts|
    ensures Follows(ok, next, s, ts + us)
    ensures After(next, s, ts + us) == After(next, After(next, s, ts), us)
  {
    if |ts| == 0 {
      assert ts + us == us;
    } else {
      assert (ts + us)[0] == ts[0];
      assert (ts + us)[1..] == ts[1..] + us;
      FollowsAppend(ok, next, next(s, ts[0]), ts[1..], us);
    }
  }
}
