/** The exhaustive search player (`MinimaxAgent` in tictactoe.py): the
    depth-scored `minimax` recursion and the memoised top-level
    `choose_action`.  The source mutates one shared board and undoes each
    probe; here the recursion works on board values, and the probing loop
    of `choose_action` threads the board through so that the undo writes
    are modelled exactly.  The array version is in InPlaceSearch. */
module MinimaxAgent {
  import opened Wrappers
  import opened TicTacToe

  /** The mark placed at a maximising (X) or minimising (O) level. */
  function Mover(isMax: bool): (p: Player)
    ensures p == X <==> isMax
  {
    if isMax then X else O
  }

  /** `compare_op(best_val, val)` with the infinite sentinel as `None`. */
  function Combine(isMax: bool, best: Option<int>, v: int): (r: int)
    ensures best.None? ==> r == v
    ensures best.Some? ==> r == best.value || r == v
    ensures best.Some? && isMax ==> r >= best.value && r >= v
    ensures best.Some? && !isMax ==> r <= best.value && r <= v
  {
    if best.None? then v
    else if isMax then (if best.value >= v then best.value else v)
    else (if best.value <= v then best.value else v)
  }

  /** `val` is no better than `w` for the side that maximises iff `isMax`. */
  predicate NoBetter(isMax: bool, val: int, w: int)
  {
    if isMax then val <= w else val >= w
  }

  /** `val` is strictly worse than `w` for that side. */
  predicate Worse(isMax: bool, val: int, w: int)
  {
    if isMax then val < w else val > w
  }

  /** `minimax(board, is_maximizing, depth)`: 10 - depth when X has won,
      depth - 10 when O has won, 0 on a full board without a winner, and
      otherwise the best child value for the side to move. */
  function Minimax(b: Board, isMax: bool, depth: nat): (r: int)
    decreases Empties(b), 2, 0
    ensures Winner(b) == Some(X) ==> r == 10 - depth
    ensures Winner(b) == Some(O) ==> r == depth - 10
    ensures Winner(b).None? && Empty !in b ==> r == 0
  {
    match Winner(b)
    case Some(w) => if w == X then 10 - depth else depth - 10
    case None =>
      if Empty !in b then 0
      else
        Scan(b, isMax, depth, 0, None).value
  }

  /** The side to move picks its best child: on an undecided board with an
      empty cell, `minimax` is no worse than any child value and equals one. */
  lemma MinimaxIsBestChild(b: Board, isMax: bool, depth: nat)
    requires Winner(b).None? && Empty in b
    ensures forall j {:trigger Child(b, isMax, depth, j)} :: 0 <= j < 9 && b[j] == Empty ==> NoBetter(isMax, Child(b, isMax, depth, j), Minimax(b, isMax, depth))
    ensures exists j {:trigger Child(b, isMax, depth, j)} :: 0 <= j < 9 && b[j] == Empty && Minimax(b, isMax, depth) == Child(b, isMax, depth, j)
  {
    WinnerCharacterized(b);
    ScanIsBest(b, isMax, depth, 0, None);
  }

  /** The value of the child reached by the side to move marking cell `j`. */
  function Child(b: Board, isMax: bool, depth: nat, j: int): int
    requires 0 <= j < 9 && b[j] == Empty
    decreases Empties(b), 0, 0
  {
    Minimax(b[j := Mover(isMax)], !isMax, depth + 1)
  }

  /** The `for i in range(9)` loop of `minimax` from index `i` on, with
      `best` the running best value (`None` for the infinite sentinel). */
  function Scan(b: Board, isMax: bool, depth: nat, i: nat, best: Option<int>): (r: Option<int>)
    requires i <= 9
    decreases Empties(b), 1, 9 - i
    ensures r.Some? <==> best.Some? || exists j :: i <= j < 9 && b[j] == Empty
  {
    if i == 9 then best
    else if b[i] == Empty then
      Scan(b, isMax, depth, i + 1, Some(Combine(isMax, best, Child(b, isMax, depth, i))))
    else
      Scan(b, isMax, depth, i + 1, best)
  }

  /** The loop from index `i` ends with a value no worse than the running
      best and than every child it visits, and equal to the running best or
      to one of those children. */
  lemma {:induction false} ScanIsBest(b: Board, isMax: bool, depth: nat, i: nat, best: Option<int>)
    requires i <= 9
    requires best.Some? || exists j :: i <= j < 9 && b[j] == Empty
    decreases 9 - i
    ensures var r := Scan(b, isMax, depth, i, best).value;
      && (forall j {:trigger Child(b, isMax, depth, j)} :: i <= j < 9 && b[j] == Empty ==> NoBetter(isMax, Child(b, isMax, depth, j), r))
      && (best.Some? ==> NoBetter(isMax, best.value, r))
      && (Some(r) == best || exists j {:trigger Child(b, isMax, depth, j)} :: i <= j < 9 && b[j] == Empty && r == Child(b, isMax, depth, j))
  {
    if i < 9 {
      var r := Scan(b, isMax, depth, i, best).value;
      if b[i] == Empty {
        var v := Child(b, isMax, depth, i);
        var best' := Some(Combine(isMax, best, v));
        assert r == Scan(b, isMax, depth, i + 1, best').value;
        ScanIsBest(b, isMax, depth, i + 1, best');
        assert NoBetter(isMax, v, r);
        if Some(r) != best {
          if Some(r) == best' {
            assert best'.value == v;
            assert i <= i < 9 && b[i] == Empty && r == Child(b, isMax, depth, i);
            assert exists j {:trigger Child(b, isMax, depth, j)} :: i <= j < 9 && b[j] == Empty && r == Child(b, isMax, depth, j);
          }
        }
      } else {
        assert r == Scan(b, isMax, depth, i + 1, best).value;
        ScanIsBest(b, isMax, depth, i + 1, best);
      }
    }
  }

  /** Scores are bounded by the depth: a search started at `depth` with at
      most `10 - depth` empty cells below it scores in
      [depth - 10, 10 - depth]; from depth 0 this is [-10, 10]. */
  lemma {:induction false} MinimaxInRange(b: Board, isMax: bool, depth: nat)
    requires depth + Empties(b) <= 10
    decreases Empties(b)
    ensures depth - 10 <= Minimax(b, isMax, depth) <= 10 - depth
  {
    var r := Minimax(b, isMax, depth);
    var w := Winner(b);
    if w == Some(X) {
      assert r == 10 - depth;
    } else if w == Some(O) {
      assert r == depth - 10;
    } else if Empty !in b {
      assert r == 0;
    } else {
      MinimaxIsBestChild(b, isMax, depth);
      var j :| 0 <= j < 9 && b[j] == Empty && r == Child(b, isMax, depth, j);
      var c := b[j := Mover(isMax)];
      assert Empties(c) == Empties(b) - 1;
      MinimaxInRange(c, !isMax, depth + 1);
    }
  }

  /** The value `choose_action` computes for marking cell `a`. */
  function MoveValue(player: Player, b: Board, a: int): int
    requires 0 <= a < 9
  {
    Minimax(b[a := player], player != X, 0)
  }

  /** Move values lie in [-10, 10], whatever the cell probed. */
  lemma MoveValueInRange(player: Player, b: Board, a: int)
    requires 0 <= a < 9
    ensures -10 <= MoveValue(player, b, a) <= 10
  {
    var c := b[a := player];
    CountAtMostLength(c, Empty);
    MinimaxInRange(c, player != X, 0);
  }

  /** Every action is a board index. */
  predicate InRange(actions: seq<int>)
  {
    forall k :: 0 <= k < |actions| ==> 0 <= actions[k] < 9
  }

  /** Every action is the index of an empty cell of `b`. */
  predicate Legal(b: Board, actions: seq<int>)
  {
    forall k :: 0 <= k < |actions| ==> 0 <= actions[k] < 9 && b[actions[k]] == Empty
  }

  /** The probing loop of `choose_action` over `actions`, starting from
      board `c` and the running best (value, move).  Each probe writes the
      agent's mark, searches, then writes `EMPTY` back; the board left
      behind is returned with the best pair.  A later action replaces the
      best whenever its value is at least as good (`compare_op(best_val,
      val) == val`). */
  function Probe(player: Player, c: Board, actions: seq<int>, best: Option<(int, int)>): (r: (Option<(int, int)>, Board))
    requires InRange(actions)
    decreases |actions|
    ensures forall j :: 0 <= j < 9 ==> r.1[j] == (if j in actions then Empty else c[j])
    ensures r.0.Some? <==> best.Some? || |actions| > 0
  {
    if |actions| == 0 then (best, c)
    else
      var a := actions[0];
      var v := Minimax(c[a := player], player != X, 0);
      var best' := if best.None? || NoBetter(player == X, best.value.0, v) then Some((v, a)) else best;
      assert forall j :: j in actions <==> j == a || j in actions[1..] by {
        assert actions == [a] + actions[1..];
      }
      Probe(player, c[a := player][a := Empty], actions[1..], best')
  }

  /** The values `choose_action` computes for each of `actions` on `c`. */
  function MoveValues(player: Player, c: Board, actions: seq<int>): (vals: seq<int>)
    requires InRange(actions)
    ensures |vals| == |actions|
  {
    if |actions| == 0 then []
    else [MoveValue(player, c, actions[0])] + MoveValues(player, c, actions[1..])
  }

  /** Each entry of `MoveValues` is the value of the matching action. */
  lemma {:induction false} MoveValuesAt(player: Player, c: Board, actions: seq<int>, k: int)
    requires InRange(actions) && 0 <= k < |actions|
    decreases |actions|
    ensures MoveValues(player, c, actions)[k] == MoveValue(player, c, actions[k])
  {
    if k > 0 {
      MoveValuesAt(player, c, actions[1..], k - 1);
    }
  }

  /** The selection rule of the probing loop on its own: walking the
      candidates `(vals[k], moves[k])` in order, a candidate replaces the
      running best whenever its value is at least as good. */
  function PickLast(isMax: bool, vals: seq<int>, moves: seq<int>, best: Option<(int, int)>): (r: Option<(int, int)>)
    requires |vals| == |moves|
    decreases |vals|
  {
    if |vals| == 0 then best
    else
      var best' := if best.None? || NoBetter(isMax, best.value.0, vals[0]) then Some((vals[0], moves[0])) else best;
      PickLast(isMax, vals[1..], moves[1..], best')
  }

  /** Candidate `k` is picked: it carries value `w`, and every later
      candidate is strictly worse. */
  predicate LastBestAt(isMax: bool, vals: seq<int>, moves: seq<int>, k: int, w: (int, int))
    requires |vals| == |moves|
  {
    && 0 <= k < |vals|
    && w == (vals[k], moves[k])
    && forall l :: k < l < |vals| ==> Worse(isMax, vals[l], w.0)
  }

  /** The rule ends with a pair whose value is no worse than any candidate
      and than the incoming best; the pair is the incoming best when every
      candidate is strictly worse than it, and otherwise the last candidate
      reaching the final value. */
  lemma {:induction false} PickLastIsLastBest(isMax: bool, vals: seq<int>, moves: seq<int>, best: Option<(int, int)>)
    requires |vals| == |moves|
    decreases |vals|
    ensures var r := PickLast(isMax, vals, moves, best);
      && (r.Some? <==> best.Some? || |vals| > 0)
      && (r.Some? ==> forall k :: 0 <= k < |vals| ==> NoBetter(isMax, vals[k], r.value.0))
      && (best.Some? ==> NoBetter(isMax, best.value.0, r.value.0))
      && (r.Some? ==>
            || (r == best && forall k :: 0 <= k < |vals| ==> Worse(isMax, vals[k], best.value.0))
            || (exists k :: LastBestAt(isMax, vals, moves, k, r.value)))
  {
    if |vals| > 0 {
      var best' := if best.None? || NoBetter(isMax, best.value.0, vals[0]) then Some((vals[0], moves[0])) else best;
      PickLastIsLastBest(isMax, vals[1..], moves[1..], best');
      var r := PickLast(isMax, vals, moves, best);
      assert r == PickLast(isMax, vals[1..], moves[1..], best');
      assert forall k :: 0 < k < |vals| ==> vals[k] == vals[1..][k - 1];
      if r.Some? {
        if best.None? || NoBetter(isMax, best.value.0, vals[0]) {
          if r == best' && forall k :: 0 <= k < |vals[1..]| ==> Worse(isMax, vals[1..][k], best'.value.0) {
            assert LastBestAt(isMax, vals, moves, 0, r.value);
          } else {
            var k :| LastBestAt(isMax, vals[1..], moves[1..], k, r.value);
            assert LastBestAt(isMax, vals, moves, k + 1, r.value);
          }
        } else {
          assert best' == best;
          if r == best && forall k :: 0 <= k < |vals[1..]| ==> Worse(isMax, vals[1..][k], best.value.0) {
            assert forall k :: 0 <= k < |vals| ==> Worse(isMax, vals[k], best.value.0);
          } else {
            var k :| LastBestAt(isMax, vals[1..], moves[1..], k, r.value);
            assert LastBestAt(isMax, vals, moves, k + 1, r.value);
          }
        }
      }
    }
  }

  /** On legal actions the probes leave the board as it was, and the loop
      applies the selection rule to the move values. */
  lemma {:induction false} ProbeIsPickLast(player: Player, c: Board, actions: seq<int>, best: Option<(int, int)>)
    requires Legal(c, actions)
    decreases |actions|
    ensures Probe(player, c, actions, best) == (PickLast(player == X, MoveValues(player, c, actions), actions, best), c)
  {
    if |actions| > 0 {
      var a := actions[0];
      assert c[a := player][a := Empty] == c;
      ProbeIsPickLast(player, c, actions[1..], if best.None? || NoBetter(player == X, best.value.0, MoveValue(player, c, a)) then Some((MoveValue(player, c, a), a)) else best);
    }
  }

  /** `move` is `actions[k]` for a `k` whose value is optimal for the
      side of `player` among all actions, every later action being
      strictly worse: the last optimal action in enumeration order. */
  predicate LastOptimal(player: Player, b: Board, actions: seq<int>, move: int)
    requires InRange(actions)
  {
    var vals := MoveValues(player, b, actions);
    exists k :: 0 <= k < |actions| && actions[k] == move
      && (forall l :: 0 <= l < |actions| ==> NoBetter(player == X, vals[l], vals[k]))
      && (forall l :: k < l < |actions| ==> Worse(player == X, vals[l], vals[k]))
  }

  /** The probing loop from a clean start picks the last optimal action. */
  lemma ProbePicksLastOptimal(player: Player, b: Board, actions: seq<int>)
    requires Legal(b, actions) && |actions| > 0
    ensures Probe(player, b, actions, None).0.Some?
    ensures LastOptimal(player, b, actions, Probe(player, b, actions, None).0.value.1)
  {
    var vals := MoveValues(player, b, actions);
    ProbeIsPickLast(player, b, actions, None);
    PickLastIsLastBest(player == X, vals, actions, None);
    var p := Probe(player, b, actions, None);
    var k :| LastBestAt(player == X, vals, actions, k, p.0.value);
    assert actions[k] == p.0.value.1;
  }

  /** The search part of `choose_action` from a clean start: the best
      move (if any) and the board the probes leave behind.  On legal
      actions the board is restored and the move is the last optimal
      action. */
  function Search(player: Player, b: Board, actions: seq<int>): (r: (Option<int>, Board))
    requires InRange(actions)
    ensures r.0.Some? <==> |actions| > 0
    ensures forall j :: 0 <= j < 9 ==> r.1[j] == (if j in actions then Empty else b[j])
    ensures Legal(b, actions) ==> r.1 == b
    ensures Legal(b, actions) && r.0.Some? ==> LastOptimal(player, b, actions, r.0.value)
  {
    var p := Probe(player, b, actions, None);
    assert Legal(b, actions) ==> p.1 == b by {
      if Legal(b, actions) {
        ProbeIsPickLast(player, b, actions, None);
      }
    }
    assert Legal(b, actions) && p.0.Some? ==> LastOptimal(player, b, actions, p.0.value.1) by {
      if Legal(b, actions) && p.0.Some? {
        ProbePicksLastOptimal(player, b, actions);
      }
    }
    (if p.0.None? then None else Some(p.0.value.1), p.1)
  }

  /** A `MinimaxAgent`: the side it plays and its cache from exact boards
      to the move chosen there. */
  datatype Agent = Agent(player: Player, cache: map<Board, Option<int>>)

  /** A fresh agent for `player`, with an empty cache. */
  function NewAgent(player: Player): (a: Agent)
    ensures a.player == player && |a.cache| == 0
  {
    Agent(player, map[])
  }

  /** What `choose_action` returns, with the agent and board after it. */
  datatype Choice = Choice(agent: Agent, move: Option<int>, board: Board)

  /** `choose_action(board, actions)`: a cached board returns its cached
      move without searching; otherwise the search result is stored under
      the board as it was before probing.  The cache is only added to. */
  function ChooseAction(agent: Agent, b: Board, actions: seq<int>): (r: Choice)
    requires InRange(actions)
    ensures r.agent.player == agent.player
    ensures agent.cache.Keys <= r.agent.cache.Keys
    ensures forall k :: k in agent.cache ==> r.agent.cache[k] == agent.cache[k]
    ensures b in r.agent.cache && r.agent.cache[b] == r.move
    ensures r.agent.cache == (if b in agent.cache then agent.cache else agent.cache[b := r.move])
    ensures b in agent.cache ==> r == Choice(agent, agent.cache[b], b)
    ensures b !in agent.cache ==> (r.move.Some? <==> |actions| > 0)
    ensures Legal(b, actions) ==> r.board == b
    ensures b !in agent.cache ==> r.move == Search(agent.player, b, actions).0
  {
    if b in agent.cache then Choice(agent, agent.cache[b], b)
    else
      var s := Search(agent.player, b, actions);
      Choice(agent.(cache := agent.cache[b := s.0]), s.0, s.1)
  }

  /** Memoisation consistency: asking twice about the same board returns
      the same move, and the second call changes neither agent nor board. */
  lemma ChooseActionMemoised(agent: Agent, b: Board, actions1: seq<int>, actions2: seq<int>)
    requires InRange(actions1) && InRange(actions2)
    ensures var r1 := ChooseAction(agent, b, actions1);
            var r2 := ChooseAction(r1.agent, b, actions2);
            r2 == Choice(r1.agent, r1.move, b)
  {
  }

  /** The cache holds, for each board, the move a search over that board's
      own empty cells picks: what the source's callers keep true by always
      passing `available_actions`. */
  predicate CacheSound(agent: Agent)
  {
    forall k :: k in agent.cache ==> agent.cache[k] == Search(agent.player, k, AvailableActions(k)).0
  }

  /** A fresh agent's empty cache is sound. */
  lemma NewAgentSound(player: Player)
    ensures CacheSound(NewAgent(player))
  {
  }

  /** The last optimal action is one of the actions, and no action has a
      better value. */
  lemma LastOptimalIsOptimal(player: Player, b: Board, actions: seq<int>, move: int)
    requires InRange(actions) && LastOptimal(player, b, actions, move)
    ensures move in actions
    ensures forall l :: 0 <= l < |actions| ==> NoBetter(player == X, MoveValue(player, b, actions[l]), MoveValue(player, b, move))
  {
    var vals := MoveValues(player, b, actions);
    var k :| 0 <= k < |actions| && actions[k] == move
      && (forall l :: 0 <= l < |actions| ==> NoBetter(player == X, vals[l], vals[k]));
    MoveValuesAt(player, b, actions, k);
    forall l | 0 <= l < |actions|
      ensures NoBetter(player == X, MoveValue(player, b, actions[l]), MoveValue(player, b, move))
    {
      MoveValuesAt(player, b, actions, l);
    }
  }

  /** A search over the board's own empty cells restores the board and
      returns an empty cell no worse than any other empty cell. */
  lemma SearchAvailableIsOptimal(player: Player, b: Board)
    ensures var s := Search(player, b, AvailableActions(b));
            && s.1 == b
            && (s.0.Some? <==> Empty in b)
            && (s.0.Some? ==>
                  && 0 <= s.0.value < 9 && b[s.0.value] == Empty
                  && forall j :: 0 <= j < 9 && b[j] == Empty ==>
                       NoBetter(player == X, MoveValue(player, b, j), MoveValue(player, b, s.0.value)))
  {
    var actions := AvailableActions(b);
    assert Legal(b, actions);
    var s := Search(player, b, actions);
    if s.0.Some? {
      LastOptimalIsOptimal(player, b, actions, s.0.value);
      forall j | 0 <= j < 9 && b[j] == Empty
        ensures NoBetter(player == X, MoveValue(player, b, j), MoveValue(player, b, s.0.value))
      {
        assert j in actions;
        var l :| 0 <= l < |actions| && actions[l] == j;
      }
    }
  }

  /** Called with the board's available actions, `choose_action` keeps the
      cache sound, restores the board, and returns an optimal move (the
      last optimal one in index order) whether or not the board was cached. */
  lemma ChooseActionSound(agent: Agent, b: Board)
    requires CacheSound(agent)
    ensures var actions := AvailableActions(b);
            var r := ChooseAction(agent, b, actions);
            && CacheSound(r.agent)
            && r.board == b
            && r.move == Search(agent.player, b, actions).0
  {
    var actions := AvailableActions(b);
    assert Legal(b, actions);
  }
}
