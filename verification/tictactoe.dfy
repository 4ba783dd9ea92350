/** The tic-tac-toe environment: the 3x3 board, the table of winning lines,
    winner detection, the list of legal moves and the `step` transition of
    the `TicTacToe` class (tictactoe.py). */
module TicTacToe {
  import opened Wrappers

  /** A cell holds `EMPTY` (' '), `PLAYER_X` ('X') or `PLAYER_O` ('O'). */
  datatype Cell = Empty | X | O

  /** A mark a player writes; a cell that is not empty. */
  type Player = c: Cell | c != Empty witness X

  /** The board is always a list of nine cells, indexed row by row. */
  type Board = b: seq<Cell> | |b| == 9
    witness [Empty, Empty, Empty, Empty, Empty, Empty, Empty, Empty, Empty]

  /** A winning line: three board indices. */
  type Line = l: (int, int, int) | 0 <= l.0 < 9 && 0 <= l.1 < 9 && 0 <= l.2 < 9
    witness (0, 1, 2)

  const EmptyBoard: Board := [Empty, Empty, Empty, Empty, Empty, Empty, Empty, Empty, Empty]

  /** `WINNING_LINES`: rows, then columns, then the two diagonals. */
  const WinningLines: seq<Line> := [
    (0, 1, 2), (3, 4, 5), (6, 7, 8),
    (0, 3, 6), (1, 4, 7), (2, 5, 8),
    (0, 4, 8), (2, 4, 6)
  ]

  /** The other player. */
  function Opponent(p: Player): (q: Player)
    ensures q != p
  {
    if p == X then O else X
  }

  /** Number of cells of `b` holding `c`. */
  function Count(b: seq<Cell>, c: Cell): nat
  {
    multiset(b)[c]
  }

  /** Number of empty cells: the measure every move decreases. */
  function Empties(b: seq<Cell>): nat
  {
    Count(b, Empty)
  }

  /** All three cells of `l` hold the same mark. */
  predicate Filled(b: Board, l: Line)
  {
    b[l.0] != Empty && b[l.0] == b[l.1] && b[l.1] == b[l.2]
  }

  /** All three cells of `l` hold `m`. */
  predicate OwnedBy(b: Board, l: Line, m: Player)
  {
    b[l.0] == m && b[l.1] == m && b[l.2] == m
  }

  /** No winning line at index `i` or later is filled. */
  predicate NoFilledLineFrom(b: Board, i: nat)
  {
    forall j {:trigger Filled(b, WinningLines[j])} :: i <= j < |WinningLines| ==> !Filled(b, WinningLines[j])
  }

  /** Line `j` is the first filled line at or after index `i`, and `m` owns it. */
  predicate FirstOwnedFrom(b: Board, i: nat, j: int, m: Player)
  {
    && i <= j < |WinningLines|
    && OwnedBy(b, WinningLines[j], m)
    && forall k {:trigger Filled(b, WinningLines[k])} :: i <= k < j ==> !Filled(b, WinningLines[k])
  }

  /** The loop of `check_winner` from table index `i` on. */
  function WinnerFrom(b: Board, i: nat): Option<Player>
    requires i <= |WinningLines|
    decreases |WinningLines| - i
  {
    if i == |WinningLines| then None
    else if Filled(b, WinningLines[i]) then Some(b[WinningLines[i].0])
    else WinnerFrom(b, i + 1)
  }

  /** `check_winner`: the mark of the first filled line in table order, or
      `None` when no line is filled. */
  function Winner(b: Board): Option<Player>
  {
    WinnerFrom(b, 0)
  }

  /** The scan from index `i` finds nothing exactly when no line from `i`
      on is filled, and otherwise reports the owner of the first one. */
  lemma {:induction false} WinnerFromCharacterized(b: Board, i: nat)
    requires i <= |WinningLines|
    decreases |WinningLines| - i
    ensures WinnerFrom(b, i).None? <==> NoFilledLineFrom(b, i)
    ensures WinnerFrom(b, i).Some? ==> exists j :: FirstOwnedFrom(b, i, j, WinnerFrom(b, i).value)
  {
    if i < |WinningLines| {
      if Filled(b, WinningLines[i]) {
        assert FirstOwnedFrom(b, i, i, b[WinningLines[i].0]);
      } else {
        WinnerFromCharacterized(b, i + 1);
        var w := WinnerFrom(b, i + 1);
        if w.Some? {
          var j :| FirstOwnedFrom(b, i + 1, j, w.value);
          assert FirstOwnedFrom(b, i, j, w.value);
        }
      }
    }
  }

  /** `check_winner` reports nothing exactly when no winning line is
      filled, and otherwise a mark (never `EMPTY`) owning a filled line
      with no filled line before it in table order. */
  lemma WinnerCharacterized(b: Board)
    ensures Winner(b).None? <==> NoFilledLineFrom(b, 0)
    ensures Winner(b).Some? ==> exists j :: FirstOwnedFrom(b, 0, j, Winner(b).value)
  {
    WinnerFromCharacterized(b, 0);
  }

  /** The cells from index `i` on that are empty, in ascending order. */
  function EmptyCellsFrom(b: Board, i: nat): (r: seq<int>)
    requires i <= 9
    decreases 9 - i
    ensures forall k :: 0 <= k < |r| ==> i <= r[k] < 9 && b[r[k]] == Empty
    ensures forall j :: i <= j < 9 && b[j] == Empty ==> j in r
    ensures forall k, l :: 0 <= k < l < |r| ==> r[k] < r[l]
  {
    if i == 9 then []
    else if b[i] == Empty then [i] + EmptyCellsFrom(b, i + 1)
    else EmptyCellsFrom(b, i + 1)
  }

  /** `available_actions`: exactly the indices of the empty cells, ascending. */
  function AvailableActions(b: Board): (r: seq<int>)
    ensures forall j :: j in r <==> 0 <= j < 9 && b[j] == Empty
    ensures forall k, l :: 0 <= k < l < |r| ==> r[k] < r[l]
    ensures |r| == 0 <==> Empty !in b
  {
    var r := EmptyCellsFrom(b, 0);
    assert |r| == 0 <==> Empty !in b by {
      if |r| > 0 {
        assert b[r[0]] == Empty;
      }
      if Empty in b {
        var j :| 0 <= j < 9 && b[j] == Empty;
        assert j in r;
      }
    }
    r
  }

  /** The character each cell is joined as in the state string. */
  function CellChar(c: Cell): char
  {
    match c
    case Empty => ' '
    case X => 'X'
    case O => 'O'
  }

  /** `"".join(board)`: the state string the learner uses as a key. */
  function Serialize(b: Board): (s: string)
    ensures |s| == 9
    ensures forall i :: 0 <= i < 9 ==> s[i] == CellChar(b[i])
  {
    seq(9, i requires 0 <= i < 9 => CellChar(b[i]))
  }

  /** Distinct boards give distinct state strings (no symmetry reduction). */
  lemma SerializeInjective(b1: Board, b2: Board)
    ensures Serialize(b1) == Serialize(b2) <==> b1 == b2
  {
    if Serialize(b1) == Serialize(b2) {
      forall i | 0 <= i < 9
        ensures b1[i] == b2[i]
      {
        assert Serialize(b1)[i] == Serialize(b2)[i];
      }
    }
  }

  /** The blank character of the state string marks exactly the empty
      cells, so the learner's key shows where a move may go. */
  lemma SerializeShowsEmpties(b: Board)
    ensures forall j :: 0 <= j < 9 ==> (Serialize(b)[j] == CellChar(Empty) <==> b[j] == Empty)
  {
  }

  /** The environment's state: the board and the player to move. */
  datatype Env = Env(board: Board, current: Player)

  /** `reset` (and the constructor): an empty board, X to move, and the
      state string of that board. */
  function Reset(): (r: (Env, string))
    ensures r.0.current == X
    ensures forall i :: 0 <= i < 9 ==> r.0.board[i] == Empty
    ensures r.1 == Serialize(r.0.board)
  {
    (Env(EmptyBoard, X), Serialize(EmptyBoard))
  }

  /** What `step` returns, with the environment it leaves behind. */
  datatype StepResult = StepResult(env: Env, state: string, reward: int, done: bool)

  /** `step(action)`: write the mover's mark at `action`, give the mover
      reward 1 exactly when it is the winner of the new board, report
      `done` when a line is filled or no cell is empty, then hand the turn
      to the other player.  As in the source, the cell is not checked to be
      empty. */
  function Step(e: Env, action: int): (r: StepResult)
    requires 0 <= action < 9
    ensures r.env.board[action] == e.current
    ensures forall j :: 0 <= j < 9 && j != action ==> r.env.board[j] == e.board[j]
    ensures r.env.current == Opponent(e.current)
    ensures r.reward == (if Winner(r.env.board) == Some(e.current) then 1 else 0)
    ensures r.done <==> Winner(r.env.board).Some? || |AvailableActions(r.env.board)| == 0
    ensures r.state == Serialize(r.env.board)
  {
    var board := e.board[action := e.current];
    var winner := Winner(board);
    var done := winner.Some? || |AvailableActions(board)| == 0;
    var reward := if winner == Some(e.current) then 1 else 0;
    StepResult(Env(board, Opponent(e.current)), Serialize(board), reward, done)
  }

  /** Balanced positions: X has made as many moves as O, or one more, and
      it is X's turn exactly when the counts are equal. */
  predicate Balanced(e: Env)
  {
    && (Count(e.board, X) == Count(e.board, O) || Count(e.board, X) == Count(e.board, O) + 1)
    && (e.current == X <==> Count(e.board, X) == Count(e.board, O))
  }

  /** A sequence holds at most as many cells of one kind as it is long. */
  lemma {:induction false} CountAtMostLength(s: seq<Cell>, c: Cell)
    ensures Count(s, c) <= |s|
  {
    if |s| > 0 {
      assert s == s[..|s| - 1] + [s[|s| - 1]];
      CountAtMostLength(s[..|s| - 1], c);
    }
  }

  /** Writing `p` over cell `a` moves one cell out of the count of the old
      content and into the count of `p`. */
  lemma CountUpdate(b: Board, a: int, p: Cell, c: Cell)
    requires 0 <= a < 9
    ensures Count(b[a := p], c) == Count(b, c) - (if b[a] == c then 1 else 0) + (if p == c then 1 else 0)
  {
  }

  /** The reset position is balanced. */
  lemma ResetBalanced()
    ensures Balanced(Reset().0)
    ensures Empties(Reset().0.board) == 9
  {
  }

  /** The reset position has no winner. */
  lemma ResetHasNoWinner()
    ensures Winner(Reset().0.board).None?
  {
    var b := Reset().0.board;
    WinnerCharacterized(b);
    assert forall j :: 0 <= j < |WinningLines| ==> b[WinningLines[j].0] == Empty;
  }

  /** A move onto an empty cell uses up exactly that cell. */
  lemma StepFillsCell(e: Env, action: int)
    requires 0 <= action < 9 && e.board[action] == Empty
    ensures Step(e, action).env.board == e.board[action := e.current]
    ensures Empties(Step(e, action).env.board) == Empties(e.board) - 1
  {
    CountUpdate(e.board, action, e.current, Empty);
  }

  /** A move onto an empty cell keeps the position balanced and uses up
      one empty cell. */
  lemma StepPreservesBalance(e: Env, action: int)
    requires Balanced(e)
    requires 0 <= action < 9 && e.board[action] == Empty
    ensures Balanced(Step(e, action).env)
    ensures Empties(Step(e, action).env.board) == Empties(e.board) - 1
  {
    var b' := Step(e, action).env.board;
    assert b' == e.board[action := e.current];
    CountUpdate(e.board, action, e.current, X);
    CountUpdate(e.board, action, e.current, O);
    CountUpdate(e.board, action, e.current, Empty);
  }

  /** A move never gives reward 1 to a player who has not completed a line
      with it: on a board with no winner, reward 1 means some winning line
      through `action` is now owned by the mover. */
  lemma RewardNeedsOwnLine(e: Env, action: int)
    requires 0 <= action < 9
    requires Winner(e.board).None?
    ensures Step(e, action).reward == 1 ==>
      exists j :: 0 <= j < |WinningLines|
        && OwnedBy(Step(e, action).env.board, WinningLines[j], e.current)
        && action in {WinningLines[j].0, WinningLines[j].1, WinningLines[j].2}
  {
    var r := Step(e, action);
    WinnerCharacterized(e.board);
    WinnerCharacterized(r.env.board);
    if r.reward == 1 {
      var j :| FirstOwnedFrom(r.env.board, 0, j, e.current);
      var l := WinningLines[j];
      assert !Filled(e.board, l);
      assert action in {l.0, l.1, l.2};
    }
  }

  /** Terminal closure: a legal move on a board with one empty cell ends
      the game and leaves no legal move. */
  lemma LastMoveEndsGame(e: Env, action: int)
    requires 0 <= action < 9 && e.board[action] == Empty
    requires Empties(e.board) == 1
    ensures Step(e, action).done
    ensures AvailableActions(Step(e, action).env.board) == []
  {
    var b' := Step(e, action).env.board;
    assert b' == e.board[action := e.current];
    assert Empties(b') == 0;
    assert Empty !in b';
  }

  /** The board with exactly the cells of line `l` marked `m`. */
  function LineBoard(l: Line, m: Player): (b: Board)
    ensures forall i :: 0 <= i < 9 ==> (b[i] == m <==> i in {l.0, l.1, l.2})
    ensures forall i :: 0 <= i < 9 ==> (b[i] == Empty <==> i !in {l.0, l.1, l.2})
  {
    seq(9, i requires 0 <= i < 9 => if i in {l.0, l.1, l.2} then m else Empty)
  }

  /** Win-line symmetry: for every line and mark, the board holding only
      that line, filled by that mark, reports that mark as winner. */
  lemma LineBoardWins(k: int, m: Player)
    requires 0 <= k < |WinningLines|
    ensures Winner(LineBoard(WinningLines[k], m)) == Some(m)
  {
    var b := LineBoard(WinningLines[k], m);
    assert Filled(b, WinningLines[k]);
    WinnerCharacterized(b);
    var w := Winner(b);
    var j :| FirstOwnedFrom(b, 0, j, w.value);
    assert w.value == m;
  }

  /** The same board with one cell of the line left empty has no winner. */
  lemma BrokenLineHasNoWinner(k: int, m: Player, gap: int)
    requires 0 <= k < |WinningLines|
    requires gap in {WinningLines[k].0, WinningLines[k].1, WinningLines[k].2}
    ensures Winner(LineBoard(WinningLines[k], m)[gap := Empty]) == None
  {
    var b := LineBoard(WinningLines[k], m)[gap := Empty];
    forall j | 0 <= j < |WinningLines|
      ensures !Filled(b, WinningLines[j])
    {
    }
    WinnerCharacterized(b);
  }
}
