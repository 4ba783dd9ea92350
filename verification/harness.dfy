/** The drivers of tictactoe.py: `train`, which lets the learner play both
    sides of self-play games and update after every move, and `run_test`,
    which pits the greedy learner (X) against the minimax agent (O) and
    reports the fraction of drawn games.  The random source is a function
    from a step counter to a draw; each learner move consumes one draw. */
module Harness {
  import opened Wrappers
  import opened TicTacToe
  import QLearning
  import MinimaxAgent
  import Traces

  /** The random source: the draw used at each tick of the counter. */
  type Source = nat -> QLearning.Draw

  /** What a stretch of training leaves behind: the learner, the updates
      it made in order, and the counter after the last draw used. */
  datatype Training = Training(agent: QLearning.Agent, moves: seq<QLearning.Transition>, clock: nat)

  /** A recorded update is a real move: an index in range that was an
      empty square in the state it was taken from, with reward 0 or 1,
      and next actions that are exactly the empty squares of the next
      state. */
  predicate LegalMove(t: QLearning.Transition)
  {
    && 0 <= t.action < 9
    && |t.state| == 9
    && t.state[t.action] == CellChar(Empty)
    && 0 <= t.reward <= 1
    && |t.next| == 9
    && (forall j :: j in t.nextActions ==> 0 <= j < 9 && t.next[j] == CellChar(Empty))
    && (forall j :: 0 <= j < 9 && t.next[j] == CellChar(Empty) ==> j in t.nextActions)
  }

  predicate AllLegal(ts: seq<QLearning.Transition>)
  {
    forall i :: 0 <= i < |ts| ==> LegalMove(ts[i])
  }

  /** Legality of two runs of moves carries over to the whole. */
  lemma AppendAllLegal(ts: seq<QLearning.Transition>, us: seq<QLearning.Transition>)
    requires AllLegal(ts) && AllLegal(us)
    ensures AllLegal(ts + us)
  {
    var all := ts + us;
    forall i | 0 <= i < |all|
      ensures LegalMove(all[i])
    {
      if i < |ts| {
        assert all[i] == ts[i];
      } else {
        assert all[i] == us[i - |ts|];
      }
    }
  }

  /** The moves of one episode: the last one reports `done` and no
      earlier one does. */
  predicate StopsAtDone(ts: seq<QLearning.Transition>)
  {
    && |ts| > 0
    && forall i :: 0 <= i < |ts| ==> (ts[i].done <==> i == |ts| - 1)
  }

  /** A move that does not end the game, followed by an episode, is an
      episode. */
  lemma ConsStopsAtDone(t: QLearning.Transition, rest: seq<QLearning.Transition>)
    requires !t.done && StopsAtDone(rest)
    ensures StopsAtDone([t] + rest)
  {
    var ts := [t] + rest;
    forall i | 0 <= i < |ts|
      ensures ts[i].done <==> i == |ts| - 1
    {
      if i > 0 {
        assert ts[i] == rest[i - 1];
      }
    }
  }

  /** Consecutive moves chain: each is taken from the state the one
      before it led to. */
  predicate Chained(ts: seq<QLearning.Transition>)
  {
    forall i, j {:trigger ts[i], ts[j]} :: 0 <= i < |ts| - 1 && j == i + 1 ==> ts[j].state == ts[i].next
  }

  /** A move followed by a chain starting where that move led is a chain. */
  lemma ConsChained(t: QLearning.Transition, rest: seq<QLearning.Transition>)
    requires Chained(rest)
    requires |rest| > 0 ==> rest[0].state == t.next
    ensures Chained([t] + rest)
  {
    var ts := [t] + rest;
    forall i, j | 0 <= i < |ts| - 1 && j == i + 1
      ensures ts[j].state == ts[i].next
    {
      assert ts[j] == rest[i];
      if i > 0 {
        assert ts[i] == rest[i - 1];
      }
    }
  }

  /** A run of whole episodes: the first move starts from the empty
      board's state, each later move starts from that state when the move
      before it ended a game and otherwise from the state that move led
      to, and the last move ends its game. */
  predicate Episodes(ts: seq<QLearning.Transition>)
  {
    && (|ts| > 0 ==> ts[0].state == Serialize(EmptyBoard) && ts[|ts| - 1].done)
    && (forall i, j {:trigger ts[i], ts[j]} :: 0 <= i < |ts| - 1 && j == i + 1 ==>
          ts[j].state == (if ts[i].done then Serialize(EmptyBoard) else ts[i].next))
  }

  /** One episode from the empty board followed by whole episodes is a
      run of whole episodes. */
  lemma AppendEpisode(ts: seq<QLearning.Transition>, us: seq<QLearning.Transition>)
    requires StopsAtDone(ts) && Chained(ts) && ts[0].state == Serialize(EmptyBoard)
    requires Episodes(us)
    ensures Episodes(ts + us)
  {
    var all := ts + us;
    assert all[0] == ts[0];
    forall i, j | 0 <= i < |all| - 1 && j == i + 1
      ensures all[j].state == (if all[i].done then Serialize(EmptyBoard) else all[i].next)
    {
      if j < |ts| {
        assert all[i] == ts[i] && all[j] == ts[j];
        assert !ts[i].done;
      } else if j == |ts| {
        assert all[i] == ts[|ts| - 1];
        assert all[j] == us[0];
      } else {
        assert all[i] == us[i - |ts|] && all[j] == us[j - |ts|];
      }
    }
    if |us| == 0 {
      assert all == ts;
    } else {
      assert all[|all| - 1] == us[|us| - 1];
    }
  }

  /** The `done` flags of a run of moves, in order. */
  function DoneFlags(ts: seq<QLearning.Transition>): (r: seq<bool>)
    ensures |r| == |ts|
    ensures forall i :: 0 <= i < |ts| ==> r[i] == ts[i].done
  {
    seq(|ts|, i requires 0 <= i < |ts| => ts[i].done)
  }

  /** The number of moves that ended a game: the number of episodes. */
  function DoneCount(ts: seq<QLearning.Transition>): nat
  {
    multiset(DoneFlags(ts))[true]
  }

  /** Counting finished games distributes over concatenation. */
  lemma DoneCountAppend(ts: seq<QLearning.Transition>, us: seq<QLearning.Transition>)
    ensures DoneCount(ts + us) == DoneCount(ts) + DoneCount(us)
  {
    assert DoneFlags(ts + us) == DoneFlags(ts) + DoneFlags(us);
  }

  /** An episode ends exactly one game. */
  lemma EpisodeDoneCount(ts: seq<QLearning.Transition>)
    requires StopsAtDone(ts)
    ensures DoneCount(ts) == 1
  {
    var n := |ts| - 1;
    var flags := DoneFlags(ts);
    assert flags == flags[..n] + [true];
    assert true !in flags[..n] by {
      forall i | 0 <= i < n
        ensures flags[..n][i] == false
      {
        assert !ts[i].done;
      }
    }
    assert multiset(flags[..n])[true] == 0;
  }

  /** What the training loops carry from one move to the next: the
      learner, the position and the draw counter. */
  datatype Trainer = Trainer(agent: QLearning.Agent, env: Env, clock: nat)

  /** How the learner made the recorded move `t` from position `e` with
      the draw `d`: its `choose_action` on the state string and available
      actions of `e` picked the action, and the record holds that state
      string and the reward, next state, next available actions and `done`
      flag that `step` returned. */
  predicate Made(learner: QLearning.Agent, e: Env, d: QLearning.Draw, t: QLearning.Transition)
  {
    && 0 <= t.action < 9
    && QLearning.ChooseAction(learner, Serialize(e.board), AvailableActions(e.board), d) == Some(t.action)
    && var sr := Step(e, t.action);
       t == QLearning.Transition(Serialize(e.board), t.action, sr.reward, sr.state, AvailableActions(sr.env.board), sr.done)
  }

  /** The moves the learner of a trainer may make, on the draw `rng`
      gives at the trainer's counter. */
  function MadeBy(rng: Source): (Trainer, QLearning.Transition) -> bool
  {
    (s: Trainer, t: QLearning.Transition) => Made(s.agent, s.env, rng(s.clock), t)
  }

  /** The trainer after move `t`: the learner is updated with the move, the
      position advances (to the reset position after a move that ended the
      game) and the counter ticks. An action off the board, which `Made`
      rules out, leaves the position as it was. */
  function Advance(s: Trainer, t: QLearning.Transition): Trainer
  {
    var env := if t.done then Reset().0 else if 0 <= t.action < 9 then Step(s.env, t.action).env else s.env;
    Trainer(QLearning.UpdateAll(s.agent, [t]), env, s.clock + 1)
  }

  /** The training loops re-run from trainer `s`: each recorded move was
      made from the current position by the current learner on the current
      draw, and the trainer then advances past it. */
  predicate Replays(rng: Source, s: Trainer, moves: seq<QLearning.Transition>)
  {
    Traces.Follows(MadeBy(rng), Advance, s, moves)
  }

  /** A move that ended the game is a replayed run on its own, after
      which the trainer is at the reset position. */
  lemma ReplaysOne(rng: Source, s: Trainer, t: QLearning.Transition, agent': QLearning.Agent)
    requires Made(s.agent, s.env, rng(s.clock), t) && t.done
    requires agent' == QLearning.UpdateAll(s.agent, [t])
    ensures Replays(rng, s, [t])
    ensures Traces.After(Advance, s, [t]) == Trainer(agent', Reset().0, s.clock + 1)
  {
    Traces.FollowsOne(MadeBy(rng), Advance, s, t);
  }

  /** After a move that did not end the game, the trainer holds the
      updated learner, the position `step` left and the next tick. */
  lemma AdvanceOnPly(s: Trainer, t: QLearning.Transition, agent': QLearning.Agent, env': Env)
    requires !t.done && 0 <= t.action < 9
    requires agent' == QLearning.UpdateAll(s.agent, [t]) && env' == Step(s.env, t.action).env
    ensures Advance(s, t) == Trainer(agent', env', s.clock + 1)
  {
  }

  /** A move, followed by a run replayed from the trainer it leads to, is
      a replayed run that ends where that run ends. */
  lemma ReplaysCons(rng: Source, s: Trainer, t: QLearning.Transition, s': Trainer, rest: seq<QLearning.Transition>)
    requires Made(s.agent, s.env, rng(s.clock), t) && Advance(s, t) == s'
    requires Replays(rng, s', rest)
    ensures Replays(rng, s, [t] + rest)
    ensures Traces.After(Advance, s, [t] + rest) == Traces.After(Advance, s', rest)
  {
    Traces.FollowsCons(MadeBy(rng), Advance, s, t, rest);
  }

  /** One learner move and the update after it. */
  datatype Ply = Ply(agent: QLearning.Agent, env: Env, t: QLearning.Transition)

  /** The body of the training loop: choose an action for the current
      state, step, and update the learner with what the step returned
      (the next state, its empty cells and the `done` flag). */
  function TrainPly(agent: QLearning.Agent, e: Env, state: string, d: QLearning.Draw): (r: Ply)
    requires Empty in e.board && state == Serialize(e.board)
    ensures LegalMove(r.t) && r.t.state == state
    ensures QLearning.ChooseAction(agent, state, AvailableActions(e.board), d) == Some(r.t.action)
    ensures r.env.board == e.board[r.t.action := e.current] && r.env.current == Opponent(e.current)
    ensures r.t.reward == (if Winner(r.env.board) == Some(e.current) then 1 else 0)
    ensures r.agent == QLearning.UpdateAll(agent, [r.t])
    ensures Empties(r.env.board) == Empties(e.board) - 1
    ensures r.t.next == Serialize(r.env.board)
    ensures r.t.done <==> Winner(r.env.board).Some? || Empty !in r.env.board
    ensures Made(agent, e, d, r.t) && r.env == Step(e, r.t.action).env
  {
    var actions := AvailableActions(e.board);
    var action := QLearning.ChooseAction(agent, state, actions, d).value;
    StepFillsCell(e, action);
    var sr := Step(e, action);
    SerializeShowsEmpties(sr.env.board);
    var t := QLearning.Transition(state, action, sr.reward, sr.state, AvailableActions(sr.env.board), sr.done);
    var agent' := QLearning.Update(agent, state, action, sr.reward, sr.state, t.nextActions, sr.done);
    assert QLearning.UpdateAll(agent, [t]) == agent';
    Ply(agent', sr.env, t)
  }

  /** The `while not done` loop of one training episode, from a position
      with an empty cell whose state string is `state`: stop at the first
      move that reports `done`. */
  function TrainMoves(agent: QLearning.Agent, e: Env, state: string, rng: Source, clock: nat): (r: Training)
    requires Empty in e.board && state == Serialize(e.board)
    decreases Empties(e.board)
    ensures r.agent == QLearning.UpdateAll(agent, r.moves)
    ensures 1 <= |r.moves| <= Empties(e.board)
    ensures r.clock == clock + |r.moves|
    ensures AllLegal(r.moves)
    ensures StopsAtDone(r.moves)
    ensures r.moves[0].state == state && Chained(r.moves)
  {
    var p := TrainPly(agent, e, state, rng(clock));
    if p.t.done then Training(p.agent, [p.t], clock + 1)
    else
      var rest := TrainMoves(p.agent, p.env, p.t.next, rng, clock + 1);
      var moves := [p.t] + rest.moves;
      ConsStopsAtDone(p.t, rest.moves);
      ConsChained(p.t, rest.moves);
      QLearning.UpdateAllAppend(agent, [p.t], rest.moves);
      Training(rest.agent, moves, rest.clock)
  }

  /** An episode re-runs as the `while not done` loop from its position,
      and leaves the trainer at the reset position with the learner and
      counter it returns. */
  lemma {:induction false} TrainMovesReplays(agent: QLearning.Agent, e: Env, state: string, rng: Source, clock: nat)
    requires Empty in e.board && state == Serialize(e.board)
    decreases Empties(e.board)
    ensures var r := TrainMoves(agent, e, state, rng, clock);
            && Replays(rng, Trainer(agent, e, clock), r.moves)
            && Traces.After(Advance, Trainer(agent, e, clock), r.moves) == Trainer(r.agent, Reset().0, r.clock)
  {
    var p := TrainPly(agent, e, state, rng(clock));
    var s := Trainer(agent, e, clock);
    if p.t.done {
      ReplaysOne(rng, s, p.t, p.agent);
    } else {
      var s' := Trainer(p.agent, p.env, clock + 1);
      AdvanceOnPly(s, p.t, p.agent, p.env);
      TrainMovesReplays(p.agent, p.env, p.t.next, rng, clock + 1);
      ReplaysCons(rng, s, p.t, s', TrainMoves(p.agent, p.env, p.t.next, rng, clock + 1).moves);
    }
  }

  /** `train(agent, episodes)`: each episode resets the game and runs the
      move loop; the learner carries over from one episode to the next. */
  function Train(agent: QLearning.Agent, episodes: nat, rng: Source, clock: nat): (r: Training)
    decreases episodes
    ensures r.agent == QLearning.UpdateAll(agent, r.moves)
    ensures |r.moves| <= 9 * episodes
    ensures r.clock == clock + |r.moves|
    ensures AllLegal(r.moves)
    ensures Episodes(r.moves)
    ensures DoneCount(r.moves) == episodes
    ensures Replays(rng, Trainer(agent, Reset().0, clock), r.moves)
    ensures Traces.After(Advance, Trainer(agent, Reset().0, clock), r.moves) == Trainer(r.agent, Reset().0, r.clock)
  {
    if episodes == 0 then
      assert DoneFlags([]) == [];
      Training(agent, [], clock)
    else
      var start := Reset();
      ResetBalanced();
      assert start.0.board[0] == Empty;
      var first := TrainMoves(agent, start.0, start.1, rng, clock);
      TrainMovesReplays(agent, start.0, start.1, rng, clock);
      var rest := Train(first.agent, episodes - 1, rng, first.clock);
      QLearning.UpdateAllAppend(agent, first.moves, rest.moves);
      AppendAllLegal(first.moves, rest.moves);
      AppendEpisode(first.moves, rest.moves);
      EpisodeDoneCount(first.moves);
      DoneCountAppend(first.moves, rest.moves);
      Traces.FollowsAppend(MadeBy(rng), Advance, Trainer(agent, start.0, clock), first.moves, rest.moves);
      Training(rest.agent, first.moves + rest.moves, rest.clock)
  }

  /** Training only adds to the table: the keys afterwards are the old
      keys plus pairs of a state string and one of its empty squares, the
      parameters are unchanged, and entries never visited keep their
      value. */
  lemma TrainGrowsTable(agent: QLearning.Agent, episodes: nat, rng: Source, clock: nat)
    ensures var r := Train(agent, episodes, rng, clock).agent;
            && agent.q.Keys <= r.q.Keys
            && r.epsilon == agent.epsilon && r.alpha == agent.alpha && r.gamma == agent.gamma
            && (forall k :: k in r.q && k !in agent.q ==>
                  0 <= k.1 < 9 && |k.0| == 9 && k.0[k.1] == CellChar(Empty))
  {
    var r := Train(agent, episodes, rng, clock);
    QLearning.UpdateAllGrowsKeys(agent, r.moves);
    UpdatedKeysAreLegal(r.moves);
  }

  /** Every key a run of legal moves writes is a state string paired with
      one of its empty squares. */
  lemma {:induction false} UpdatedKeysAreLegal(ts: seq<QLearning.Transition>)
    requires AllLegal(ts)
    decreases |ts|
    ensures forall k :: k in QLearning.UpdatedKeys(ts) ==> 0 <= k.1 < 9 && |k.0| == 9 && k.0[k.1] == CellChar(Empty)
  {
    if |ts| > 0 {
      assert LegalMove(ts[0]);
      assert AllLegal(ts[1..]) by {
        forall i | 0 <= i < |ts| - 1
          ensures LegalMove(ts[1..][i])
        {
          assert ts[1..][i] == ts[i + 1];
        }
      }
      UpdatedKeysAreLegal(ts[1..]);
    }
  }

  /** With the constructor's default parameters, training from a novice
      agent keeps every value within [-10, 10]: rewards are 0 or 1 and
      1 + 0.9 * 10 <= 10. */
  lemma TrainKeepsDefaultBound(episodes: nat, rng: Source, clock: nat)
    ensures var novice := QLearning.NewAgent(QLearning.DefaultEpsilon, QLearning.DefaultAlpha, QLearning.DefaultGamma);
            QLearning.Bounded(Train(novice, episodes, rng, clock).agent.q, 10.0)
  {
    var novice := QLearning.NewAgent(QLearning.DefaultEpsilon, QLearning.DefaultAlpha, QLearning.DefaultGamma);
    var r := Train(novice, episodes, rng, clock);
    assert QLearning.UnitRewards(r.moves) by {
      forall i | 0 <= i < |r.moves|
        ensures 0 <= r.moves[i].reward <= 1
      {
        assert LegalMove(r.moves[i]);
      }
    }
    QLearning.UpdateAllKeepsBound(novice, r.moves, 10.0);
  }

  /** How one evaluation game went: the minimax agent afterwards, the
      cells played in order, the final board, whether it was a draw, and
      the counter after the learner's draws. */
  datatype Game = Game(optimal: MinimaxAgent.Agent, moves: seq<int>, board: Board, draw: bool, clock: nat)

  /** One move of an evaluation game: the match after it and the cell
      played. */
  datatype Turn = Turn(next: Match, move: int)

  /** `move` is an empty cell of `b` whose value for the state string of
      `b` is at least that of every other empty cell. */
  predicate GreedyCell(learner: QLearning.Agent, b: Board, move: int)
  {
    && 0 <= move < 9 && b[move] == Empty
    && forall j :: 0 <= j < 9 && b[j] == Empty ==>
         QLearning.GetQ(learner.q, Serialize(b), j) <= QLearning.GetQ(learner.q, Serialize(b), move)
  }

  /** The learner's greedy `best_action` over the available actions
      picks a greedy cell, whatever the tie-break draw. */
  lemma BestActionIsGreedyCell(learner: QLearning.Agent, b: Board, pick: nat)
    requires Empty in b
    ensures var a := QLearning.BestAction(learner, Serialize(b), AvailableActions(b), pick);
            a.Some? && GreedyCell(learner, b, a.value)
  {
    var actions := AvailableActions(b);
    var a := QLearning.BestAction(learner, Serialize(b), actions, pick).value;
    forall j | 0 <= j < 9 && b[j] == Empty
      ensures QLearning.GetQ(learner.q, Serialize(b), j) <= QLearning.GetQ(learner.q, Serialize(b), a)
    {
      assert j in actions;
      var k :| 0 <= k < |actions| && actions[k] == j;
    }
  }

  /** How `move` was played from position `e` with the draw `d`: on X's
      turn it is the learner's `best_action` on the state string (ties
      broken by the draw), which is a greedy cell; on O's turn it is the
      minimax agent's search result for the board. */
  predicate Played(learner: QLearning.Agent, d: QLearning.Draw, optimal: MinimaxAgent.Agent, e: Env, move: int)
  {
    && 0 <= move < 9 && e.board[move] == Empty
    && (e.current == X ==>
          && QLearning.BestAction(learner, Serialize(e.board), AvailableActions(e.board), d.pick) == Some(move)
          && GreedyCell(learner, e.board, move))
    && (e.current == O ==>
          MinimaxAgent.Search(optimal.player, e.board, AvailableActions(e.board)).0 == Some(move))
  }

  /** Where an evaluation game stands between moves: the minimax agent
      with its cache, the position, and the counter of the learner's
      draws. */
  datatype Match = Match(optimal: MinimaxAgent.Agent, env: Env, clock: nat)

  /** The moves that may be played from a match: nobody has won yet, and
      the move is the one the player to move chooses. */
  function PlayedBy(learner: QLearning.Agent, rng: Source): (Match, int) -> bool
  {
    (m: Match, move: int) => Winner(m.env.board).None? && Played(learner, rng(m.clock), m.optimal, m.env, move)
  }

  /** The match after `move`: on O's turn the minimax agent's cache
      remembers the move for the board unless it already held the board,
      `step` advances the position, and on X's turn the counter ticks. A
      move off the board, which `Played` rules out, leaves the position as
      it was. */
  function NextMatch(m: Match, move: int): Match
  {
    var b := m.env.board;
    var cache := m.optimal.cache;
    var optimal :=
      if m.env.current == O && b !in cache then m.optimal.(cache := cache[b := Some(move)]) else m.optimal;
    var env := if 0 <= move < 9 then Step(m.env, move).env else m.env;
    Match(optimal, env, if m.env.current == X then m.clock + 1 else m.clock)
  }

  /** Game `g` was played from match `m`: its moves were made in turn by
      the two agents, and it ends with the board, minimax agent and counter
      the last move left. */
  predicate GamePlayed(learner: QLearning.Agent, rng: Source, m: Match, g: Game)
  {
    && Traces.Follows(PlayedBy(learner, rng), NextMatch, m, g.moves)
    && var last := Traces.After(NextMatch, m, g.moves);
       last.optimal == g.optimal && last.env.board == g.board && last.clock == g.clock
  }

  /** Games played one after another from the reset position: the first
      from the given minimax agent and counter, each later one from the
      agent and counter the game before it left; `last` is the agent the
      last game left, or the given one when there were no games. */
  predicate PlayedFrom(learner: QLearning.Agent, rng: Source, optimal: MinimaxAgent.Agent, clock: nat, games: seq<Game>, last: MinimaxAgent.Agent)
    decreases |games|
  {
    if |games| == 0 then last == optimal
    else
      && GamePlayed(learner, rng, Match(optimal, Reset().0, clock), games[0])
      && PlayedFrom(learner, rng, games[0].optimal, games[0].clock, games[1..], last)
  }

  /** The body of the evaluation loop on a board with an empty cell: X
      moves by the learner's greedy `best_action` on the state string, O
      by the minimax agent's `choose_action` on the board itself (which it
      probes and restores), then `step`. The turn is the one the player to
      move chooses, and the match it leaves is the one `NextMatch`
      describes. */
  function TestPly(learner: QLearning.Agent, m: Match, d: QLearning.Draw): (r: Turn)
    requires MinimaxAgent.CacheSound(m.optimal)
    requires Empty in m.env.board
    ensures Played(learner, d, m.optimal, m.env, r.move)
    ensures r.next == NextMatch(m, r.move)
    ensures r.next.env.board == m.env.board[r.move := m.env.current]
    ensures r.next.env.current == Opponent(m.env.current)
    ensures forall j :: 0 <= j < 9 && m.env.board[j] != Empty ==> r.next.env.board[j] == m.env.board[j]
    ensures m.env.current == X ==> r.next.optimal == m.optimal
    ensures Empties(r.next.env.board) == Empties(m.env.board) - 1
    ensures MinimaxAgent.CacheSound(r.next.optimal)
    ensures r.next.optimal.player == m.optimal.player
    ensures m.optimal.cache.Keys <= r.next.optimal.cache.Keys
  {
    var e := m.env;
    var actions := AvailableActions(e.board);
    if e.current == X then
      BestActionIsGreedyCell(learner, e.board, d.pick);
      var action := QLearning.BestAction(learner, Serialize(e.board), actions, d.pick).value;
      StepFillsCell(e, action);
      LearnerNextMatch(m, action);
      Turn(Match(m.optimal, Step(e, action).env, m.clock + 1), action)
    else
      var c := MinimaxAgent.ChooseAction(m.optimal, e.board, actions);
      MinimaxAgent.ChooseActionSound(m.optimal, e.board);
      MinimaxAgent.SearchAvailableIsOptimal(m.optimal.player, e.board);
      var action := c.move.value;
      var e1 := Env(c.board, e.current);
      StepFillsCell(e1, action);
      OptimalNextMatch(m, action, c);
      Turn(Match(c.agent, Step(e1, action).env, m.clock), action)
  }

  /** On X's turn the match after a cell is the learner's `step`, with the
      counter ticked. */
  lemma LearnerNextMatch(m: Match, action: int)
    requires m.env.current == X && 0 <= action < 9
    ensures NextMatch(m, action) == Match(m.optimal, Step(m.env, action).env, m.clock + 1)
  {
  }

  /** On O's turn the match after the minimax agent's choice `c` of a cell
      is the `step` on the board `choose_action` restored, with the agent
      whose cache remembers the choice. */
  lemma OptimalNextMatch(m: Match, action: int, c: MinimaxAgent.Choice)
    requires m.env.current == O && 0 <= action < 9
    requires c.move == Some(action) && c.board == m.env.board
    requires c.agent.player == m.optimal.player
    requires c.agent.cache ==
               (if m.env.board in m.optimal.cache then m.optimal.cache else m.optimal.cache[m.env.board := c.move])
    ensures NextMatch(m, action) == Match(c.agent, Step(Env(c.board, m.env.current), action).env, m.clock)
  {
  }

  /** The move loop of one `run_test` game from a position with no
      winner: a board with no available action is a draw; otherwise one
      move is made, and the game ends as soon as that move made a line.
      Only the learner's moves use the random source. */
  function TestMoves(learner: QLearning.Agent, m: Match, rng: Source): (r: Game)
    requires MinimaxAgent.CacheSound(m.optimal)
    requires Winner(m.env.board).None?
    decreases Empties(m.env.board)
    ensures Finished(r)
    ensures forall j :: 0 <= j < 9 && m.env.board[j] != Empty ==> r.board[j] == m.env.board[j]
    ensures MinimaxAgent.CacheSound(r.optimal)
    ensures r.optimal.player == m.optimal.player
    ensures m.optimal.cache.Keys <= r.optimal.cache.Keys
  {
    if |AvailableActions(m.env.board)| == 0 then Game(m.optimal, [], m.env.board, true, m.clock)
    else
      var p := TestPly(learner, m, rng(m.clock));
      if Winner(p.next.env.board).Some? then Game(p.next.optimal, [p.move], p.next.env.board, false, p.next.clock)
      else
        var rest := TestMoves(learner, p.next, rng);
        rest.(moves := [p.move] + rest.moves)
  }

  /** The game `TestMoves` returns is the one the two agents play from
      the given match: every cell in it was chosen by the player to move
      (the learner's greedy action for X, the minimax search result for O)
      while nobody had won, each move is a `step` from the position the one
      before it left, and the final board, minimax agent and counter are
      those after the last move. Together with `Finished`, the game stops
      at the first winning move or at a full board. */
  lemma {:induction false} TestMovesPlays(learner: QLearning.Agent, m: Match, rng: Source)
    requires MinimaxAgent.CacheSound(m.optimal)
    requires Winner(m.env.board).None?
    decreases Empties(m.env.board)
    ensures GamePlayed(learner, rng, m, TestMoves(learner, m, rng))
  {
    if |AvailableActions(m.env.board)| > 0 {
      var p := TestPly(learner, m, rng(m.clock));
      if Winner(p.next.env.board).Some? {
        Traces.FollowsOne(PlayedBy(learner, rng), NextMatch, m, p.move);
      } else {
        var rest := TestMoves(learner, p.next, rng);
        TestMovesPlays(learner, p.next, rng);
        Traces.FollowsCons(PlayedBy(learner, rng), NextMatch, m, p.move, rest.moves);
      }
    }
  }

  /** A finished evaluation game: a draw exactly when the final board has
      no winner, and a drawn board is full. */
  predicate Finished(g: Game)
  {
    && (g.draw <==> Winner(g.board).None?)
    && (g.draw ==> Empty !in g.board)
  }

  /** The outcome flags of a list of games, in order. */
  function Outcomes(games: seq<Game>): (r: seq<bool>)
    ensures |r| == |games|
    ensures forall i :: 0 <= i < |games| ==> r[i] == games[i].draw
  {
    seq(|games|, i requires 0 <= i < |games| => games[i].draw)
  }

  /** The number of drawn games in a list. */
  function DrawCount(games: seq<Game>): nat
  {
    multiset(Outcomes(games))[true]
  }

  /** Putting one more game in front adds one to the count exactly when
      that game is a draw. */
  lemma DrawCountCons(g: Game, games: seq<Game>)
    ensures DrawCount([g] + games) == DrawCount(games) + (if g.draw then 1 else 0)
  {
    assert Outcomes([g] + games) == [g.draw] + Outcomes(games);
  }

  /** What the `for _ in range(num_games)` loop leaves: the minimax agent,
      the games played in order, and the running draw counter. */
  datatype Session = Session(optimal: MinimaxAgent.Agent, games: seq<Game>, draws: nat)

  /** The `for _ in range(num_games)` loop: play `n` games from the reset
      position, adding one to the counter for every draw. */
  function Games(learner: QLearning.Agent, optimal: MinimaxAgent.Agent, n: nat, rng: Source, clock: nat): (r: Session)
    requires MinimaxAgent.CacheSound(optimal)
    decreases n
    ensures |r.games| == n
    ensures forall i :: 0 <= i < n ==> Finished(r.games[i])
    ensures r.draws == DrawCount(r.games) && r.draws <= n
    ensures MinimaxAgent.CacheSound(r.optimal)
    ensures r.optimal.player == optimal.player
    ensures optimal.cache.Keys <= r.optimal.cache.Keys
  {
    if n == 0 then Session(optimal, [], 0)
    else
      var start := Reset().0;
      ResetHasNoWinner();
      var g := TestMoves(learner, Match(optimal, start, clock), rng);
      var rest := Games(learner, g.optimal, n - 1, rng, g.clock);
      DrawCountCons(g, rest.games);
      FinishedCons(g, rest.games);
      Session(rest.optimal, [g] + rest.games, rest.draws + (if g.draw then 1 else 0))
  }

  /** A finished game in front of finished games. */
  lemma FinishedCons(g: Game, games: seq<Game>)
    requires Finished(g)
    requires forall i :: 0 <= i < |games| ==> Finished(games[i])
    ensures forall i :: 0 <= i < |games| + 1 ==> Finished(([g] + games)[i])
  {
    forall i | 0 <= i < |games| + 1
      ensures Finished(([g] + games)[i])
    {
      if i > 0 {
        assert ([g] + games)[i] == games[i - 1];
      }
    }
  }

  /** The games of `Games` are played one after another, each from the
      reset position with the minimax agent and counter the game before
      it left. */
  lemma {:induction false} GamesPlayed(learner: QLearning.Agent, optimal: MinimaxAgent.Agent, n: nat, rng: Source, clock: nat)
    requires MinimaxAgent.CacheSound(optimal)
    decreases n
    ensures var r := Games(learner, optimal, n, rng, clock); PlayedFrom(learner, rng, optimal, clock, r.games, r.optimal)
  {
    if n > 0 {
      ResetHasNoWinner();
      var g := TestMoves(learner, Match(optimal, Reset().0, clock), rng);
      var rest := Games(learner, g.optimal, n - 1, rng, g.clock);
      TestMovesPlays(learner, Match(optimal, Reset().0, clock), rng);
      GamesPlayed(learner, g.optimal, n - 1, rng, g.clock);
      assert ([g] + rest.games)[1..] == rest.games;
    }
  }

  /** `draws / num_games`: the fraction of drawn games, or no result when
      there were no games (the division raises). */
  function DrawRate(draws: nat, n: nat): (r: Option<real>)
    requires draws <= n
    ensures r.None? <==> n == 0
    ensures r.Some? ==> 0.0 <= r.value <= 1.0
    ensures r.Some? ==> r.value * n as real == draws as real
  {
    if n == 0 then None
    else
      var rate := draws as real / n as real;
      RatioInUnit(draws as real, n as real, rate);
      Some(rate)
  }

  /** What `run_test` returns, with the games behind it and the minimax
      agent it leaves behind. */
  datatype TestResult = TestResult(optimal: MinimaxAgent.Agent, games: seq<Game>, draws: nat, rate: Option<real>)

  /** `run_test`: play the games and report the draw rate. */
  function RunTest(learner: QLearning.Agent, optimal: MinimaxAgent.Agent, numGames: nat, rng: Source): (r: TestResult)
    requires MinimaxAgent.CacheSound(optimal)
    ensures |r.games| == numGames
    ensures forall i :: 0 <= i < numGames ==> Finished(r.games[i])
    ensures r.draws == DrawCount(r.games) && r.draws <= numGames
    ensures r.rate == DrawRate(r.draws, numGames)
    ensures MinimaxAgent.CacheSound(r.optimal)
    ensures r.optimal.player == optimal.player
    ensures PlayedFrom(learner, rng, optimal, 0, r.games, r.optimal)
  {
    var played := Games(learner, optimal, numGames, rng, 0);
    GamesPlayed(learner, optimal, numGames, rng, 0);
    TestResult(played.optimal, played.games, played.draws, DrawRate(played.draws, numGames))
  }

  /** A count over a positive total, as a fraction, lies in [0, 1] and
      scales back to the count. */
  lemma RatioInUnit(d: real, n: real, q: real)
    requires 0.0 <= d <= n && 0.0 < n
    requires q == d / n
    ensures 0.0 <= q <= 1.0
    ensures q * n == d
  {
  }
}
