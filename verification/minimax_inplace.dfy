/** The search as the source runs it: one shared mutable board, each probe
    writing a mark, recursing and writing `EMPTY` back (make/unmake).  Both
    methods are proved to compute exactly the functional model in MinimaxAgent.
    The recursion always restores the board; `choose_action` restores it
    when every action it is given is an empty cell. */
module InPlaceSearch {
  import opened Wrappers
  import opened TicTacToe
  import opened MinimaxAgent

  /** `MinimaxAgent.minimax` on a shared board: the board comes back as it
      went in, and the value is the functional `Minimax` of that board. */
  method MinimaxOnArray(board: array<Cell>, isMax: bool, depth: nat) returns (v: int)
    requires board.Length == 9
    modifies board
    decreases Empties(board[..])
    ensures board[..] == old(board[..])
    ensures v == Minimax(old(board[..]), isMax, depth)
  {
    var b: Board := board[..];
    var winner := Winner(b);
    if winner.Some? {
      v := if winner.value == X then 10 - depth else depth - 10;
      return;
    }
    if Empty !in b {
      return 0;
    }
    var best: Option<int> := None;
    var i := 0;
    while i < 9
      invariant 0 <= i <= 9
      invariant board[..] == b
      invariant Scan(b, isMax, depth, i, best) == Scan(b, isMax, depth, 0, None)
    {
      if board[i] == Empty {
        board[i] := Mover(isMax);
        assert board[..] == b[i := Mover(isMax)];
        CountUpdate(b, i, Mover(isMax), Empty);
        var val := MinimaxOnArray(board, !isMax, depth + 1);
        board[i] := Empty;
        assert board[..] == b;
        best := Some(Combine(isMax, best, val));
      }
      i := i + 1;
    }
    v := best.value;
  }

  /** `MinimaxAgent.choose_action` on a shared board: a cached board
      returns at once; otherwise each action is probed in place and the
      move is stored under the board as it was on entry.  The result is
      exactly the functional `ChooseAction`; on legal actions the board is
      restored; the cache is only added to. */
  method ChooseActionOnArray(agent: Agent, board: array<Cell>, actions: seq<int>) returns (agent': Agent, move: Option<int>)
    requires board.Length == 9
    requires InRange(actions)
    modifies board
    ensures Choice(agent', move, board[..]) == ChooseAction(agent, old(board[..]), actions)
    ensures Legal(old(board[..]), actions) ==> board[..] == old(board[..])
    ensures agent.cache.Keys <= agent'.cache.Keys
    ensures forall k :: k in agent.cache ==> agent'.cache[k] == agent.cache[k]
  {
    var key: Board := board[..];
    if key in agent.cache {
      return agent, agent.cache[key];
    }
    var player := agent.player;
    var best: Option<(int, int)> := None;
    var k := 0;
    while k < |actions|
      invariant 0 <= k <= |actions|
      invariant Probe(player, board[..], actions[k..], best) == Probe(player, key, actions, None)
    {
      var a := actions[k];
      var c: Board := board[..];
      assert actions[k..][0] == a && actions[k..][1..] == actions[k + 1..];
      board[a] := player;
      var val := MinimaxOnArray(board, player != X, 0);
      board[a] := Empty;
      assert board[..] == c[a := player][a := Empty];
      if best.None? || NoBetter(player == X, best.value.0, val) {
        best := Some((val, a));
      }
      k := k + 1;
    }
    move := if best.None? then None else Some(best.value.1);
    agent' := agent.(cache := agent.cache[key := move]);
  }
}
