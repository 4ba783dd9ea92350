# Tic-tac-toe learning setup, modelled in Dafny

This project models the tic-tac-toe learning setup in `tictactoe.py`. It has four parts:

- **`TicTacToe`** (module `TicTacToe`, `tictactoe.dfy`) is the environment. It holds a nine-cell board, the fixed table of eight winning lines, `check_winner`, `available_actions`, `reset` and `step`.
- **`MinimaxAgent`** (module `MinimaxAgent`, `minimax.dfy`) is the exhaustive search player. It has the depth-scored `minimax` recursion and the memoised `choose_action`. Module `InPlaceSearch` (`minimax_inplace.dfy`) runs the same search the way the source does: on one mutable board, with each probe written and then undone. Both of its methods are proved to compute exactly the functional model. `MinimaxOnArray` always restores the board. `ChooseActionOnArray` restores it when every action it is given is an empty cell.
- **`QLearningAgent`** (module `QLearning`, `qlearning.dfy`) is the tabular learner. It has a sparse table that reads 0.0 for pairs never written, greedy and epsilon-greedy action choice, and the adversarial one-step update. The update subtracts the discounted best value of the next state.
- **`train` and `run_test`** (module `Harness`, `harness.dfy`) are the drivers. They are modelled as recursions over the move loops. Each move fills one empty cell, so every game ends within nine moves.

`Wrappers` (`wrappers.dfy`) holds the `Option` type. It stands for Python's `None` and for the `±inf` starting values.

`Traces` (`traces.dfy`) describes a run of steps from a state: a step relation says which step may be taken, and a successor function says where it leads. Training is such a run over the learner, the environment and the draw counter (`Harness.Replays`). Each evaluation game is one over the minimax agent, the environment and the counter (`Harness.GamePlayed`).

Randomness is passed in as parameters:

- A `Draw(u, pick)` stands for one `random.random()` value (`u`) and one `random.choice` index (`pick`, taken modulo the list length).
- The drivers take a source: a function from a step counter to a draw.

Table values are exact reals. Python raises on `max` of an empty list, on `random.choice` of an empty list, and on `draws / 0`. Each of these becomes `None`.

Behaviour of the code worth noting:

- **Ties in `MinimaxAgent.choose_action`.** A tie goes to the last optimal action, because `compare_op(best_val, val) == val` also accepts equal values.
- **Occupied cells.** `step` does not check that the cell is empty; it overwrites it. `choose_action` probes every action it is given, and its undo writes `EMPTY` even over a cell that was occupied. Both behaviours are modelled as written. The "board is restored" results are proved for actions that are empty cells, which is what every caller passes.
- **Unseen pairs.** `get_q` does not create table entries; only `update` adds a key.
- **What `run_test` reports.** It plays the learner (X, greedy `best_action`) against the minimax agent (O). It returns only the fraction of drawn games.
- **Empty action lists.** With no actions, the minimax agent's `choose_action` returns `None`. The learner's `best_action` and `choose_action` raise in Python; the model returns `None` there too.

## Model

| member | source | states |
|---|---|---|
| TicTacToe.Opponent | tictactoe.py:31 | the turn always passes to the other mark |
| TicTacToe.WinnerFromCharacterized | tictactoe.py:36-38 | the line scan from any table index reports nothing exactly when no later line is filled, and otherwise reports the owner of the first filled line |
| TicTacToe.WinnerCharacterized | tictactoe.py:34-38 | `check_winner` reports nothing iff no winning line has three equal non-empty marks; otherwise it reports a mark (never EMPTY) owning such a line, with no filled line before it in table order |
| TicTacToe.LineBoardWins | tictactoe.py:6-10 | for each of the eight lines and each mark, the board holding just that line of that mark has that mark as winner |
| TicTacToe.BrokenLineHasNoWinner | tictactoe.py:37 | the same board with any one cell of the line emptied has no winner, so all three cells are needed |
| TicTacToe.EmptyCellsFrom | tictactoe.py:24 | the list from index i holds exactly the empty cells at or after i, in strictly ascending order |
| TicTacToe.AvailableActions | tictactoe.py:23-24 | an index is listed iff it is in 0..8 and its cell is EMPTY; the list is strictly ascending; it is empty iff the board is full |
| TicTacToe.Serialize | tictactoe.py:32 | the state string has nine characters, each the mark of the matching cell |
| TicTacToe.SerializeInjective | tictactoe.py:32 | two boards have the same state string iff they are equal, so the learner's keys tell boards apart |
| TicTacToe.SerializeShowsEmpties | tictactoe.py:32 | a character of the state string is the blank exactly when the matching cell is EMPTY |
| TicTacToe.Reset | tictactoe.py:18-21 | after reset every cell is EMPTY, X is to move, and the returned string is the board's state string |
| TicTacToe.ResetBalanced | tictactoe.py:18-20 | the reset position is balanced (as many X marks as O marks, X to move) and has nine empty cells |
| TicTacToe.ResetHasNoWinner | tictactoe.py:18-21 | the reset position has no winner |
| TicTacToe.Step | tictactoe.py:26-32 | step writes the mover's mark at the action and changes no other cell; it passes the turn; the reward is 1 exactly when the new board's winner is the mover; done holds iff there is a winner or no empty cell; it returns the new state string |
| TicTacToe.StepFillsCell | tictactoe.py:27 | a move onto an empty cell uses up exactly one empty cell |
| TicTacToe.StepPreservesBalance | tictactoe.py:26-31 | a move onto an empty cell keeps the counts of X and O marks consistent with whose turn it is |
| TicTacToe.RewardNeedsOwnLine | tictactoe.py:28-30 | from a board with no winner, a reward of 1 means the mover now owns a winning line through the cell just played |
| TicTacToe.LastMoveEndsGame | tictactoe.py:29 | filling the last empty cell always ends the game and leaves no available action |
| MinimaxAgent.Mover | tictactoe.py:100 | the maximising level places X and the minimising level places O |
| MinimaxAgent.Combine | tictactoe.py:107 | compare_op keeps one of its two arguments, and that argument is the larger for max and the smaller for min; the infinite sentinel gives way to any value |
| MinimaxAgent.Minimax | tictactoe.py:93-98 | an X win scores 10 - depth, an O win scores depth - 10, and a full board with no winner scores 0 |
| MinimaxAgent.Scan | tictactoe.py:102-108 | the child loop yields a value iff it started with one or meets an empty cell |
| MinimaxAgent.ScanIsBest | tictactoe.py:102-108 | the loop's result is no worse for the side to move than every child it visits and than its starting value, and equals one of them |
| MinimaxAgent.MinimaxIsBestChild | tictactoe.py:99-108 | on an undecided board with an empty cell, minimax is the best child value for the side to move: no child is better, and some child equals it |
| MinimaxAgent.MinimaxInRange | tictactoe.py:93-108 | a search started at depth d, with at most 10 - d empty cells, scores within [d - 10, 10 - d] |
| MinimaxAgent.MoveValueInRange | tictactoe.py:85-86 | every top-level move value lies in [-10, 10], whichever cell is probed |
| MinimaxAgent.Probe | tictactoe.py:84-89 | after the probing loop, each probed cell holds EMPTY and every other cell is unchanged; a move is found iff the loop started with one or had an action |
| MinimaxAgent.MoveValues | tictactoe.py:86 | one value per action |
| MinimaxAgent.MoveValuesAt | tictactoe.py:86 | the k-th value is the minimax value of playing the k-th action |
| MinimaxAgent.PickLastIsLastBest | tictactoe.py:88-89 | the replacement rule ends with a pair no worse than every candidate and than the starting best; the pair is the starting best only if every candidate is strictly worse, and otherwise it is a candidate after which every candidate is strictly worse |
| MinimaxAgent.ProbeIsPickLast | tictactoe.py:84-89 | on actions that are empty cells, the probes leave the board exactly as it was, and the loop's choice is the replacement rule applied to the move values |
| MinimaxAgent.ProbePicksLastOptimal | tictactoe.py:79-89 | from the start values, the probing loop over non-empty legal actions picks the last optimal action |
| MinimaxAgent.Search | tictactoe.py:79-89 | a move is found iff there is an action; probed cells are left EMPTY; on legal actions the board is restored and the move is the last action of optimal value for the agent's side |
| MinimaxAgent.LastOptimalIsOptimal | tictactoe.py:84-89 | the chosen move is one of the actions, and no action is better for the agent's side |
| MinimaxAgent.SearchAvailableIsOptimal | tictactoe.py:79-91 | searching a board's own empty cells restores it, finds a move iff an empty cell exists, and the move is an empty cell no worse than any other empty cell |
| MinimaxAgent.NewAgent | tictactoe.py:70-72 | a new agent plays the given side, and its cache starts empty |
| MinimaxAgent.NewAgentSound | tictactoe.py:70-72 | a new agent's cache holds only search results |
| MinimaxAgent.ChooseAction | tictactoe.py:74-91 | a cached board returns its cached move and changes nothing; otherwise the cache afterwards is exactly the old cache plus the search result stored under the board as it was on entry; on legal actions the board is restored |
| MinimaxAgent.ChooseActionMemoised | tictactoe.py:75-77 | asking twice about the same board returns the same move, and the second call leaves agent and board unchanged |
| MinimaxAgent.ChooseActionSound | tictactoe.py:74-91 | called with the board's available actions, choose_action keeps every cache entry equal to a search result, restores the board, and returns the optimal move whether or not the board was cached |
| InPlaceSearch.MinimaxOnArray | tictactoe.py:93-108 | the make/unmake recursion on a shared board leaves the board as it was and returns exactly the minimax value |
| InPlaceSearch.ChooseActionOnArray | tictactoe.py:74-91 | the in-place choose_action returns exactly what the functional one returns; on legal actions the board comes back unchanged; the cache is only added to |
| QLearning.NewAgent | tictactoe.py:45-47 | a new learner has an empty table and the given parameters |
| QLearning.NewTableReadsZero | tictactoe.py:49-50 | every pair reads 0.0 in a new learner's table |
| QLearning.GetQAfterUpdate | tictactoe.py:62-66 | after an update, get_q of the written pair is its relaxed value, and get_q of every other pair is what it was before, 0.0 for a pair never written |
| QLearning.MaxQIsMaximum | tictactoe.py:53-54 | the maximum of the values over a non-empty action list is attained by some action and is exceeded by none |
| QLearning.Ties | tictactoe.py:55 | an action is a tie iff it is one of the actions and its value equals the given maximum |
| QLearning.MaxIsTied | tictactoe.py:54-55 | the list best_action draws from is never empty |
| QLearning.BestAction | tictactoe.py:52-55 | with no actions there is no result; otherwise the result is one of the actions and no action has a larger value |
| QLearning.BestActionReachesEveryMaximal | tictactoe.py:55 | every action of maximal value is returned for some tie-break draw |
| QLearning.ChooseAction | tictactoe.py:57-60 | the result is one of the actions (none when there are none); with a draw at or above epsilon it is the greedy choice |
| QLearning.ExplorationReachesEveryAction | tictactoe.py:58-59 | below epsilon, every action is returned for some draw |
| QLearning.RelaxGap | tictactoe.py:66 | the relaxed value's distance to the target is the old distance scaled by 1 - alpha |
| QLearning.RelaxBetween | tictactoe.py:66 | with alpha in [0, 1] the relaxed value lies between the old value and the target, and with alpha 1 it is the target |
| QLearning.Update | tictactoe.py:62-66 | update writes only the key (state, action), adding it if absent; the parameters and all other entries are unchanged; the new value relaxes the old value (0.0 if unseen) toward the target |
| QLearning.TerminalTargetIsReward | tictactoe.py:64-65 | when the game is over or no move is left, the target is the reward alone |
| QLearning.TargetFallsAsOpponentValueRises | tictactoe.py:64-65 | the adversarial sign: with gamma > 0 and moves left, a larger best next value gives a strictly smaller target, and conversely |
| QLearning.UpdateMovesTowardTarget | tictactoe.py:62-66 | with alpha in [0, 1] the new value lies between the old value and the target, and with alpha 1 it equals the target |
| QLearning.FutureWithinBound | tictactoe.py:64 | the best next value of a bounded table is within the bound |
| QLearning.TargetWithinBound | tictactoe.py:64-65 | with a reward in [0, 1], gamma >= 0, and a bound with 1 + gamma * bound <= bound, the target stays within the bound |
| QLearning.UpdateKeepsBound | tictactoe.py:62-66 | under those conditions and alpha in [0, 1], an update keeps every table value within the bound |
| QLearning.UpdateSize | tictactoe.py:66 | an update adds exactly one entry when the pair is new and none otherwise |
| QLearning.UpdateAllGrowsKeys | tictactoe.py:66 | after any run of updates, the keys are exactly the old keys plus the written pairs; the parameters are unchanged; entries never written keep their value |
| QLearning.UpdateAllNeverShrinks | tictactoe.py:66 | the table never gets smaller |
| QLearning.UpdateAllAppend | tictactoe.py:119 | updating with two runs in turn is the same as updating with their concatenation |
| QLearning.UpdateAllKeepsBound | tictactoe.py:62-66 | the bound survives any run of updates whose rewards are in [0, 1] |
| Harness.TrainPly | tictactoe.py:116-119 | one training move plays the cell the learner's choose_action picks for the current state; the new board is the old one with the mover's mark in that cell and the turn passes; the recorded reward is 1 exactly when the mover now wins; the recorded next state is the new board's string and the next actions are exactly its empty squares; done holds iff there is a winner or the board is full; the learner is updated with exactly that transition |
| Traces.FollowsCons | tictactoe.py:115-120 | a step allowed from a state, followed by a run from where it leads, is a run from that state, ending where that run ends |
| Traces.FollowsAppend | tictactoe.py:113-120 | a run followed by a run from where it ends is a run, ending where the second one ends |
| Harness.ReplaysCons | tictactoe.py:116-120 | a training move the learner makes from the current position, with the draw the counter selects, in front of moves replayed from the position, learner and counter it leads to, replays from the current one |
| Harness.TrainMovesReplays | tictactoe.py:115-120 | every move of an episode is the learner's choose_action on the current state with the draw for the current counter, its recorded reward, next state, next actions and done flag are those step returns, and the learner it is chosen by has been updated with every earlier move; after the episode the environment is reset and the learner and counter are the ones returned |
| Harness.DoneCountAppend | tictactoe.py:113 | the number of moves that end a game adds up over concatenation |
| Harness.EpisodeDoneCount | tictactoe.py:115-120 | an episode contains exactly one move that ends a game, its last |
| Harness.AppendEpisode | tictactoe.py:112-120 | one episode from the empty board followed by whole episodes is a run of whole episodes |
| Harness.TrainMoves | tictactoe.py:115-120 | an episode makes between 1 and (number of empty cells) moves, all legal; the first is taken from the starting state and each later one from the state the move before it led to; its learner is the result of applying the recorded updates in order; it stops at the first move that reports done |
| Harness.Train | tictactoe.py:111-120 | training makes at most 9 moves per episode, all legal; exactly `episodes` moves end a game; each move starts from the empty board's state when it is the first or follows a move that ended a game, and otherwise from the state the previous move led to; the last move ends a game; every move is the learner's choice from the position step has reached, scored by step, and made by the learner updated with all earlier moves; the learner is the result of applying all recorded updates in order |
| Harness.UpdatedKeysAreLegal | tictactoe.py:117-119 | every key that training writes pairs a state string with one of its empty squares |
| Harness.TrainGrowsTable | tictactoe.py:111-120 | training never removes a key or changes a parameter, and every new key pairs a state string with one of its empty squares |
| Harness.TrainKeepsDefaultBound | tictactoe.py:45 | with the default parameters, every value learned from a fresh agent stays within [-10, 10] |
| Harness.BestActionIsGreedyCell | tictactoe.py:136-137 | the learner's best_action over the available actions picks an empty cell whose value for the board's state string is at least every other empty cell's, for any tie-break draw |
| Harness.TestPly | tictactoe.py:134-139 | one evaluation move writes the mover's mark into an empty cell, changes nothing else and passes the turn; on X's turn the cell is the learner's best_action on the state string, a greedy cell, and the minimax agent is untouched; on O's turn it is the minimax search's move over the available actions and the agent's cache remembers it; the match afterwards is the one NextMatch gives; the minimax agent keeps its side and a sound cache, which is only added to |
| Harness.LearnerNextMatch | tictactoe.py:134-139 | on X's turn the match after a cell is the step from the current position, with the same minimax agent and the counter ticked |
| Harness.OptimalNextMatch | tictactoe.py:138-139 | on O's turn the match after choose_action's cell is the step on the board it restored, with the agent whose cache holds the choice |
| Harness.TestMoves | tictactoe.py:129-141 | a game is a draw iff its final board has no winner, and a drawn board is full; marks already on the board are never changed; the minimax cache stays sound and only grows |
| Harness.TestMovesPlays | tictactoe.py:129-141 | every cell of a game was chosen, while nobody had won, by the player to move: the learner's best_action on the state string for X, the minimax search over the available actions for O; each move is a step from the position the previous one left; the final board, minimax agent and counter are the ones after the last move |
| Harness.DrawCountCons | tictactoe.py:131-132 | putting one more game in front adds one to the number of drawn games exactly when that game is a draw |
| Harness.Games | tictactoe.py:126-141 | the loop plays exactly n games, each finished (a draw iff its final board has no winner, and then full); the running counter equals the number of drawn games; the minimax agent keeps its side, a sound cache, and every cached board |
| Harness.GamesPlayed | tictactoe.py:126-141 | the games are played in order, each from the reset position, with the minimax agent and counter the game before it left, and each as TestMovesPlays describes; the minimax agent returned is the one the last game left (the given one when there were no games) |
| Harness.DrawRate | tictactoe.py:142-143 | there is no rate iff there were no games; otherwise the rate lies in [0, 1] and times the game count gives the draw count |
| Harness.RunTest | tictactoe.py:123-143 | run_test plays numGames finished games, in order from the reset position, each made of the two agents' moves from the position the previous move left and stopping at the first win or a full board, and the minimax agent it leaves is the one the last game left; its draw count is the number of drawn games among them and its rate is that count over numGames (none for zero games); it leaves the minimax agent on the same side with a sound cache |

## Left out

- `TicTacToe.render`, `play_vs_agent` and the `__main__` sweep (tictactoe.py:40-41, 146-191) are left out. They are console printing, `input()` and a statistical experiment; the draw rates they print cannot be stated as proof obligations.
- The statement that the minimax agent never loses, and that two of them always draw, is not proved. It needs the value of the empty board, which is a full game-tree evaluation far beyond what the verifier can unfold.
- `run_nblast.py`, `test_run_nblast.py` and `instrumentation.py` are not part of this model. They are an R-library wrapper, its disk-based test, and a wall-clock logger.
- The probability distributions of `random.random()` and `random.choice` are not modelled. Draws are parameters, and only membership and reachability are proved.
- Floating-point rounding is not modelled: table values and the draw rate are exact reals.
- Actions are integers in 0..8. Python's negative-index wrap-around and the `IndexError` beyond the board are not modelled; every caller in the source passes `available_actions`.
- `check_winner()` called without a board (tictactoe.py:28, 140) reads `self.board` through `board or self.board`; the model passes the environment's board explicitly. An explicitly passed empty list would fall back the same way; that case is not modelled, since boards always have nine cells.
- Python's `done` in `step` can be a mark or a boolean. It is modelled by its truth value, which is all the loops test.
- The print in `run_test` is left out; its division by zero is the same failure as the returned value's, and that is modelled as `None`.
- Harness.RunTest: requires the minimax agent's cache to hold only search results over each board's available actions. A fresh agent satisfies this (NewAgentSound), and every call keeps it (ChooseActionSound). A cache filled through calls with other action lists is not covered.
- Harness.TestMoves: requires a position with no winner. This is the loop's own invariant: it starts from reset and stops at the first winning move.
- Harness.Train: takes the random source as a function of a running counter that each learner move advances, instead of an ambient generator.
