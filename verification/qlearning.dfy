/** The tabular learner (`QLearningAgent` in tictactoe.py): a sparse table
    from (state string, action) to a value that reads 0.0 when absent,
    greedy and epsilon-greedy action choice, and the adversarial one-step
    update that subtracts the discounted best value of the next state.
    Values are exact reals; the random source is passed in as draws. */
module QLearning {
  import opened Wrappers

  /** A state is the board joined into a string. */
  type State = string

  /** The sparse table `self.q`. */
  type QTable = map<(State, int), real>

  /** The constructor's defaults. */
  const DefaultEpsilon: real := 0.1
  const DefaultAlpha: real := 0.5
  const DefaultGamma: real := 0.9

  datatype Agent = Agent(q: QTable, epsilon: real, alpha: real, gamma: real)

  /** One use of the random source: `u` stands for `random.random()` and
      `pick` for the index `random.choice` draws (taken modulo the length
      of the list it chooses from). */
  datatype Draw = Draw(u: real, pick: nat)

  /** A fresh agent: an empty table and the given parameters. */
  function NewAgent(epsilon: real, alpha: real, gamma: real): (a: Agent)
    ensures |a.q| == 0
    ensures a.epsilon == epsilon && a.alpha == alpha && a.gamma == gamma
  {
    Agent(map[], epsilon, alpha, gamma)
  }

  /** `get_q`: the stored value, or 0.0 for a pair never written. */
  function GetQ(q: QTable, s: State, a: int): real
  {
    if (s, a) in q then q[(s, a)] else 0.0
  }

  /** `max(self.get_q(state, a) for a in actions)`: the largest value over
      a non-empty list of actions. */
  function MaxQ(q: QTable, s: State, actions: seq<int>): real
    requires |actions| > 0
  {
    if |actions| == 1 then GetQ(q, s, actions[0])
    else
      var rest := MaxQ(q, s, actions[1..]);
      if GetQ(q, s, actions[0]) >= rest then GetQ(q, s, actions[0]) else rest
  }

  /** `MaxQ` is the value of some action and no action's value exceeds it. */
  lemma {:induction false} MaxQIsMaximum(q: QTable, s: State, actions: seq<int>)
    requires |actions| > 0
    ensures exists k :: 0 <= k < |actions| && GetQ(q, s, actions[k]) == MaxQ(q, s, actions)
    ensures forall k :: 0 <= k < |actions| ==> GetQ(q, s, actions[k]) <= MaxQ(q, s, actions)
  {
    if |actions| == 1 {
      assert GetQ(q, s, actions[0]) == MaxQ(q, s, actions);
    } else {
      var rest := actions[1..];
      MaxQIsMaximum(q, s, rest);
      assert forall k :: 1 <= k < |actions| ==> actions[k] == rest[k - 1];
      var j :| 0 <= j < |rest| && GetQ(q, s, rest[j]) == MaxQ(q, s, rest);
      if GetQ(q, s, actions[0]) < MaxQ(q, s, rest) {
        assert GetQ(q, s, actions[j + 1]) == MaxQ(q, s, actions);
      } else {
        assert GetQ(q, s, actions[0]) == MaxQ(q, s, actions);
      }
    }
  }

  /** The actions whose value is `m`, in the order given (the list
      comprehension of `best_action`). */
  function Ties(q: QTable, s: State, actions: seq<int>, m: real): (r: seq<int>)
    ensures forall a :: a in r <==> a in actions && GetQ(q, s, a) == m
  {
    if |actions| == 0 then []
    else
      var rest := Ties(q, s, actions[1..], m);
      assert forall a :: a in actions <==> a == actions[0] || a in actions[1..] by {
        assert actions == [actions[0]] + actions[1..];
      }
      if GetQ(q, s, actions[0]) == m then [actions[0]] + rest else rest
  }

  /** Some action attains the maximum, so the list of ties is not empty. */
  lemma MaxIsTied(q: QTable, s: State, actions: seq<int>)
    requires |actions| > 0
    ensures |Ties(q, s, actions, MaxQ(q, s, actions))| > 0
  {
    var m := MaxQ(q, s, actions);
    MaxQIsMaximum(q, s, actions);
    var k :| 0 <= k < |actions| && GetQ(q, s, actions[k]) == m;
    assert actions[k] in Ties(q, s, actions, m);
  }

  /** `best_action`: one of the actions with the largest value, the tie
      broken by `pick`.  With no actions, `max` raises and there is no
      result. */
  function BestAction(agent: Agent, s: State, actions: seq<int>, pick: nat): (r: Option<int>)
    ensures r.None? <==> |actions| == 0
    ensures r.Some? ==> r.value in actions
    ensures r.Some? ==> forall k :: 0 <= k < |actions| ==> GetQ(agent.q, s, actions[k]) <= GetQ(agent.q, s, r.value)
  {
    if |actions| == 0 then None
    else
      var m := MaxQ(agent.q, s, actions);
      MaxQIsMaximum(agent.q, s, actions);
      var ties := Ties(agent.q, s, actions, m);
      MaxIsTied(agent.q, s, actions);
      var i := pick % |ties|;
      assert ties[i] in ties;
      assert GetQ(agent.q, s, ties[i]) == m;
      Some(ties[i])
  }

  /** An index already in range is its own remainder. */
  lemma ModOfSmaller(i: nat, n: nat)
    requires i < n
    ensures i % n == i
  {
  }

  /** The tie-break is a free choice: every action of maximal value is
      what `best_action` returns for some draw. */
  lemma BestActionReachesEveryMaximal(agent: Agent, s: State, actions: seq<int>, a: int)
    requires a in actions
    requires forall k :: 0 <= k < |actions| ==> GetQ(agent.q, s, actions[k]) <= GetQ(agent.q, s, a)
    ensures exists pick :: BestAction(agent, s, actions, pick) == Some(a)
  {
    var m := MaxQ(agent.q, s, actions);
    MaxQIsMaximum(agent.q, s, actions);
    var k :| 0 <= k < |actions| && GetQ(agent.q, s, actions[k]) == m;
    var j :| 0 <= j < |actions| && actions[j] == a;
    assert GetQ(agent.q, s, a) == m;
    var ties := Ties(agent.q, s, actions, m);
    assert a in ties;
    var i :| 0 <= i < |ties| && ties[i] == a;
    ModOfSmaller(i, |ties|);
    assert BestAction(agent, s, actions, i) == Some(a);
  }

  /** `choose_action`: epsilon-greedy.  When the draw falls below
      epsilon, a uniformly drawn action (`random.choice`, which raises on
      an empty list); otherwise `best_action`. */
  function ChooseAction(agent: Agent, s: State, actions: seq<int>, d: Draw): (r: Option<int>)
    ensures r.None? <==> |actions| == 0
    ensures r.Some? ==> r.value in actions
    ensures d.u >= agent.epsilon ==> r == BestAction(agent, s, actions, d.pick)
  {
    if d.u < agent.epsilon then
      if |actions| == 0 then None else Some(actions[d.pick % |actions|])
    else BestAction(agent, s, actions, d.pick)
  }

  /** Exploration can reach every action. */
  lemma ExplorationReachesEveryAction(agent: Agent, s: State, actions: seq<int>, a: int, u: real)
    requires a in actions && u < agent.epsilon
    ensures exists pick :: ChooseAction(agent, s, actions, Draw(u, pick)) == Some(a)
  {
    var i :| 0 <= i < |actions| && actions[i] == a;
    ModOfSmaller(i, |actions|);
    assert ChooseAction(agent, s, actions, Draw(u, i)) == Some(a);
  }

  /** Scaling by a factor in [0, 1] moves a number toward 0. */
  lemma ScaleBetween(alpha: real, d: real, p: real)
    requires 0.0 <= alpha <= 1.0
    requires p == alpha * d
    ensures 0.0 <= d ==> 0.0 <= p <= d
    ensures d <= 0.0 ==> d <= p <= 0.0
  {
    assert d - p == (1.0 - alpha) * d;
  }

  /** Scaling by a positive factor keeps strict order, both ways. */
  lemma ScaleStrict(g: real, x: real, y: real, gx: real, gy: real)
    requires g > 0.0
    requires gx == g * x && gy == g * y
    ensures x < y <==> gx < gy
  {
    assert gy - gx == g * (y - x);
  }

  /** Scaling by a non-negative factor keeps a symmetric bound. */
  lemma ScaleBound(g: real, m: real, bound: real, gm: real, gb: real)
    requires 0.0 <= g && -bound <= m <= bound
    requires gm == g * m && gb == g * bound
    ensures -gb <= gm <= gb
  {
    assert gb - gm == g * (bound - m);
    assert gm + gb == g * (m + bound);
  }

  /** The value the update relaxes toward: the reward, less the
      discounted best value of the next state (the opponent's view one
      ply later); just the reward when the game is over or no move is left. */
  function Target(agent: Agent, reward: int, next: State, nextActions: seq<int>, done: bool): real
  {
    reward as real - agent.gamma * Future(agent.q, next, nextActions, done)
  }

  /** The best value of the next state, or 0.0 once the game is over. */
  function Future(q: QTable, next: State, nextActions: seq<int>, done: bool): real
  {
    if done || |nextActions| == 0 then 0.0 else MaxQ(q, next, nextActions)
  }

  /** `old_q + self.alpha * (target - old_q)`. */
  function Relax(v: real, t: real, alpha: real): real
  {
    v + alpha * (t - v)
  }

  /** Relaxing shrinks the distance to the target by the factor
      `1 - alpha`. */
  lemma RelaxGap(v: real, t: real, alpha: real)
    ensures Relax(v, t, alpha) - t == (1.0 - alpha) * (v - t)
  {
  }

  /** With a factor in [0, 1], relaxing lands between the start and the
      target; with factor 1 it lands on the target. */
  lemma RelaxBetween(v: real, t: real, alpha: real)
    requires 0.0 <= alpha <= 1.0
    ensures v <= t ==> v <= Relax(v, t, alpha) <= t
    ensures t <= v ==> t <= Relax(v, t, alpha) <= v
    ensures alpha == 1.0 ==> Relax(v, t, alpha) == t
  {
    var step := alpha * (t - v);
    assert Relax(v, t, alpha) == v + step;
    ScaleBetween(alpha, t - v, step);
  }

  /** `update`: relax the entry for `(state, action)` toward the target by
      the learning rate.  Only that key changes, it is added if absent,
      and the distance to the target shrinks by the factor `1 - alpha`. */
  function Update(agent: Agent, s: State, a: int, reward: int, next: State, nextActions: seq<int>, done: bool): (r: Agent)
    ensures r.epsilon == agent.epsilon && r.alpha == agent.alpha && r.gamma == agent.gamma
    ensures r.q.Keys == agent.q.Keys + {(s, a)}
    ensures forall k :: k in agent.q && k != (s, a) ==> r.q[k] == agent.q[k]
    ensures r.q[(s, a)] == Relax(GetQ(agent.q, s, a), Target(agent, reward, next, nextActions, done), agent.alpha)
  {
    var target := Target(agent, reward, next, nextActions, done);
    agent.(q := agent.q[(s, a) := Relax(GetQ(agent.q, s, a), target, agent.alpha)])
  }

  /** `get_q` after an update: the pair just written reads its relaxed
      value, and every other pair, written or not, reads what it read
      before (0.0 if it was never written). */
  lemma GetQAfterUpdate(agent: Agent, s: State, a: int, reward: int, next: State, nextActions: seq<int>, done: bool, s': State, a': int)
    ensures var r := Update(agent, s, a, reward, next, nextActions, done);
            GetQ(r.q, s', a') ==
              if (s', a') == (s, a) then Relax(GetQ(agent.q, s, a), Target(agent, reward, next, nextActions, done), agent.alpha)
              else GetQ(agent.q, s', a')
  {
  }

  /** A fresh table reads 0.0 for every pair, so a fresh learner's greedy
      choice ties over all actions. */
  lemma NewTableReadsZero(epsilon: real, alpha: real, gamma: real, s: State, a: int)
    ensures GetQ(NewAgent(epsilon, alpha, gamma).q, s, a) == 0.0
  {
  }

  /** At the end of the game the target is the reward alone. */
  lemma TerminalTargetIsReward(agent: Agent, reward: int, next: State, nextActions: seq<int>, done: bool)
    requires done || |nextActions| == 0
    ensures Target(agent, reward, next, nextActions, done) == reward as real
  {
  }

  /** The adversarial sign: with a positive discount, a higher best value
      for the opponent in the next state gives a strictly lower target,
      and conversely. */
  lemma TargetFallsAsOpponentValueRises(a1: Agent, a2: Agent, reward: int, next: State, nextActions: seq<int>)
    requires a1.gamma == a2.gamma > 0.0
    requires |nextActions| > 0
    ensures MaxQ(a1.q, next, nextActions) < MaxQ(a2.q, next, nextActions)
        <==> Target(a1, reward, next, nextActions, false) > Target(a2, reward, next, nextActions, false)
  {
    SubtractScaled(a1.gamma, reward as real, Future(a1.q, next, nextActions, false), Future(a2.q, next, nextActions, false),
      Target(a1, reward, next, nextActions, false), Target(a2, reward, next, nextActions, false));
  }

  /** Subtracting a positively scaled value reverses strict order. */
  lemma SubtractScaled(g: real, r: real, m1: real, m2: real, t1: real, t2: real)
    requires g > 0.0
    requires t1 == r - g * m1 && t2 == r - g * m2
    ensures m1 < m2 <==> t1 > t2
  {
    ScaleStrict(g, m1, m2, g * m1, g * m2);
  }

  /** With a learning rate in [0, 1] the new value lies between the old
      value and the target; with rate 1 it is the target. */
  lemma UpdateMovesTowardTarget(agent: Agent, s: State, a: int, reward: int, next: State, nextActions: seq<int>, done: bool)
    requires 0.0 <= agent.alpha <= 1.0
    ensures var oldQ := GetQ(agent.q, s, a);
            var t := Target(agent, reward, next, nextActions, done);
            var v := GetQ(Update(agent, s, a, reward, next, nextActions, done).q, s, a);
            && (oldQ <= t ==> oldQ <= v <= t)
            && (t <= oldQ ==> t <= v <= oldQ)
            && (agent.alpha == 1.0 ==> v == t)
  {
    RelaxBetween(GetQ(agent.q, s, a), Target(agent, reward, next, nextActions, done), agent.alpha);
  }

  /** Every stored value lies in [-bound, bound]. */
  predicate Bounded(q: QTable, bound: real)
  {
    forall k :: k in q ==> -bound <= q[k] <= bound
  }

  /** With a reward in [0, 1] and a bounded table, the target stays within
      the bound. */
  lemma TargetWithinBound(agent: Agent, reward: int, next: State, nextActions: seq<int>, done: bool, bound: real)
    requires 0 <= reward <= 1
    requires 0.0 <= agent.gamma
    requires 0.0 <= bound && 1.0 + agent.gamma * bound <= bound
    requires Bounded(agent.q, bound)
    ensures -bound <= Target(agent, reward, next, nextActions, done) <= bound
  {
    FutureWithinBound(agent.q, next, nextActions, done, bound);
    DiscountedWithinBound(reward as real, agent.gamma, Future(agent.q, next, nextActions, done), bound);
  }

  /** A bounded table gives a bounded best next value. */
  lemma FutureWithinBound(q: QTable, next: State, nextActions: seq<int>, done: bool, bound: real)
    requires 0.0 <= bound && Bounded(q, bound)
    ensures -bound <= Future(q, next, nextActions, done) <= bound
  {
    if !done && |nextActions| > 0 {
      MaxQIsMaximum(q, next, nextActions);
      var k :| 0 <= k < |nextActions| && GetQ(q, next, nextActions[k]) == MaxQ(q, next, nextActions);
    }
  }

  /** The arithmetic behind the bound: a reward in [0, 1] less a
      discounted value within the bound stays within it. */
  lemma DiscountedWithinBound(r: real, g: real, m: real, bound: real)
    requires 0.0 <= r <= 1.0 && 0.0 <= g
    requires 0.0 <= bound && 1.0 + g * bound <= bound
    requires -bound <= m <= bound
    ensures 1.0 <= bound
    ensures -bound <= r - g * m <= bound
  {
    ScaleBound(g, m, bound, g * m, g * bound);
  }

  /** Values stay bounded: with rewards in [0, 1], discount and learning
      rate in [0, 1], and a bound with 1 + gamma * bound <= bound (any
      bound >= 1 / (1 - gamma)), an update keeps every value within it. */
  lemma UpdateKeepsBound(agent: Agent, s: State, a: int, reward: int, next: State, nextActions: seq<int>, done: bool, bound: real)
    requires 0 <= reward <= 1
    requires 0.0 <= agent.gamma && 0.0 <= agent.alpha <= 1.0
    requires 0.0 <= bound && 1.0 + agent.gamma * bound <= bound
    requires Bounded(agent.q, bound)
    ensures Bounded(Update(agent, s, a, reward, next, nextActions, done).q, bound)
  {
    TargetWithinBound(agent, reward, next, nextActions, done, bound);
    UpdateMovesTowardTarget(agent, s, a, reward, next, nextActions, done);
  }

  /** One observed move: the arguments of one `update` call. */
  datatype Transition = Transition(state: State, action: int, reward: int, next: State, nextActions: seq<int>, done: bool)

  /** A sequence of `update` calls, in order. */
  function UpdateAll(agent: Agent, ts: seq<Transition>): (r: Agent)
    decreases |ts|
  {
    if |ts| == 0 then agent
    else
      var t := ts[0];
      UpdateAll(Update(agent, t.state, t.action, t.reward, t.next, t.nextActions, t.done), ts[1..])
  }

  /** The table keys a sequence of updates writes. */
  function UpdatedKeys(ts: seq<Transition>): set<(State, int)>
    decreases |ts|
  {
    if |ts| == 0 then {} else {(ts[0].state, ts[0].action)} + UpdatedKeys(ts[1..])
  }

  /** Table monotonic growth: after any sequence of updates the keys are
      exactly the old keys plus the updated pairs, so none is ever
      removed, and entries never updated keep their value. */
  lemma {:induction false} UpdateAllGrowsKeys(agent: Agent, ts: seq<Transition>)
    decreases |ts|
    ensures UpdateAll(agent, ts).q.Keys == agent.q.Keys + UpdatedKeys(ts)
    ensures var r := UpdateAll(agent, ts);
            r.epsilon == agent.epsilon && r.alpha == agent.alpha && r.gamma == agent.gamma
    ensures forall k :: k in agent.q && k !in UpdatedKeys(ts) ==> UpdateAll(agent, ts).q[k] == agent.q[k]
  {
    if |ts| > 0 {
      var t := ts[0];
      var agent' := Update(agent, t.state, t.action, t.reward, t.next, t.nextActions, t.done);
      UpdateAllGrowsKeys(agent', ts[1..]);
    }
    assert agent.q.Keys <= UpdateAll(agent, ts).q.Keys;
  }

  /** One update adds at most one entry: exactly one when the pair was
      never written before. */
  lemma UpdateSize(agent: Agent, s: State, a: int, reward: int, next: State, nextActions: seq<int>, done: bool)
    ensures |Update(agent, s, a, reward, next, nextActions, done).q| == |agent.q| + (if (s, a) in agent.q then 0 else 1)
  {
    var q' := Update(agent, s, a, reward, next, nextActions, done).q;
    assert q' == agent.q[(s, a) := q'[(s, a)]];
  }

  /** The table never shrinks over a sequence of updates. */
  lemma {:induction false} UpdateAllNeverShrinks(agent: Agent, ts: seq<Transition>)
    decreases |ts|
    ensures |agent.q| <= |UpdateAll(agent, ts).q|
  {
    if |ts| > 0 {
      var t := ts[0];
      UpdateSize(agent, t.state, t.action, t.reward, t.next, t.nextActions, t.done);
      UpdateAllNeverShrinks(Update(agent, t.state, t.action, t.reward, t.next, t.nextActions, t.done), ts[1..]);
    }
  }

  /** Updating with two runs of transitions is updating with the first,
      then with the second. */
  lemma {:induction false} UpdateAllAppend(agent: Agent, ts: seq<Transition>, us: seq<Transition>)
    decreases |ts|
    ensures UpdateAll(agent, ts + us) == UpdateAll(UpdateAll(agent, ts), us)
  {
    if |ts| == 0 {
      assert ts + us == us;
    } else {
      var t := ts[0];
      assert (ts + us)[0] == t;
      assert (ts + us)[1..] == ts[1..] + us;
      UpdateAllAppend(Update(agent, t.state, t.action, t.reward, t.next, t.nextActions, t.done), ts[1..], us);
    }
  }

  /** Every reward of a run of transitions lies in [0, 1]. */
  predicate UnitRewards(ts: seq<Transition>)
  {
    forall i :: 0 <= i < |ts| ==> 0 <= ts[i].reward <= 1
  }

  /** The bound of `UpdateKeepsBound` survives any run of updates whose
      rewards lie in [0, 1]. */
  lemma {:induction false} UpdateAllKeepsBound(agent: Agent, ts: seq<Transition>, bound: real)
    requires UnitRewards(ts)
    requires 0.0 <= agent.gamma && 0.0 <= agent.alpha <= 1.0
    requires 0.0 <= bound && 1.0 + agent.gamma * bound <= bound
    requires Bounded(agent.q, bound)
    decreases |ts|
    ensures Bounded(UpdateAll(agent, ts).q, bound)
  {
    if |ts| > 0 {
      var t := ts[0];
      UpdateKeepsBound(agent, t.state, t.action, t.reward, t.next, t.nextActions, t.done, bound);
      var agent' := Update(agent, t.state, t.action, t.reward, t.next, t.nextActions, t.done);
      assert UnitRewards(ts[1..]) by {
        forall i | 0 <= i < |ts| - 1
          ensures 0 <= ts[1..][i].reward <= 1
        {
          assert ts[1..][i] == ts[i + 1];
        }
      }
      UpdateAllKeepsBound(agent', ts[1..], bound);
    }
  }
}
