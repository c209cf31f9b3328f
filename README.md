# Tic-tac-toe self-play learner, modelled in Dafny

A model of the `GamePlay` engine of `TIC_TAC_TOE_MAIN/ttc.py`: a tic-tac-toe
board that two players `'0'` and `'1'` fill in turn, and a self-play learner
that gives each player its own table from state key (the nine cells read as a
string) to value. A turn chooses a cell epsilon-greedily: either a random free
cell, or the free cell whose next state has the largest value. It then marks
the cell, records the new state and checks for a win or a draw. At the end of
an episode each table receives a terminal reward. A backward
temporal-difference pass then runs over every state visited in the episode.

The project has four modules:

- `Board` (`board.dfy`): the board as a map from cell `0..8` to `' '`, `'0'`
  or `'1'`. It defines the state key, the eight lines, the test
  `check_winner` makes, and the free-cell list as the ascending list of blank
  cells.
- `Values` (`values.dfy`): value tables as `map<string, real>`. `Propagate` is
  a recursive reference definition of the backward pass.
- `Greedy` (`greedy.dfy`): the first-maximum scan of `get_action`, written as
  a fold with the same sentinel `-1e4` and the same strict `>`.
- `TicTacToe` (`gameplay.dfy`): the class `GamePlay`. Its fields are
  `board`, `avlbl` (`avlbl_spaces`), `currPlayer`, `epsilon`,
  `statesVisited`, `lr` and `gamma`. The methods update these fields in place
  as the source does. Alongside the class are the reward table and the lemmas
  that connect the methods to the reference definitions.

The random draws of the source are parameters:

- the starting player of `random.choice(['0', '1'])`;
- the value of `random.random()` compared with `epsilon`;
- the index chosen by `random.choice(self.avlbl_spaces)`.

Values are exact reals, so every arithmetic property holds over exact
arithmetic and not over IEEE floats.

## Model

The reference definitions `Board.WinCheck`, `Values.Lookup`,
`Values.TdStep`, `Values.Propagate` and `TicTacToe.GreedyCell` have no
contract of their own. The table lists them through the lemmas about them:
`WinCheckSound` and `WinCheckComplete`, `LookupInRange`, `TdStepInRange` and
`TdStepFromZero`, the `Propagate*` lemmas, and `GreedyCellSpec` and
`GreedyCellNextState`.

| member | source | states |
|---|---|---|
| TicTacToe.GamePlay.constructor | TIC_TAC_TOE_MAIN/ttc.py:12-13 | `__init__` leaves the state `reset_board` builds: an empty board with every cell free and no winner. |
| TicTacToe.GamePlay.ResetBoard | TIC_TAC_TOE_MAIN/ttc.py:28-32 | All nine cells are `' '`, the free list is `[0..8]` in order, `epsilon` is -1 and the given player moves first. The free list is the blank-cell list and nobody holds a line. |
| Board.EmptyBoardFromCells | TIC_TAC_TOE_MAIN/ttc.py:30-32 | The dict comprehension over `range(9)` is the nine-cell blank board. |
| Board.EmptyBoardFree | TIC_TAC_TOE_MAIN/ttc.py:30-32 | On the blank board the blank-cell list is `[0..8]` and no player holds a line. |
| Board.FullFreeList | TIC_TAC_TOE_MAIN/ttc.py:30-32 | A board whose nine cells are all free is exactly the blank board, with free list `[0..8]` and no winner. |
| Board.BlankCellsFull | TIC_TAC_TOE_MAIN/ttc.py:30-32 | A key whose blank-cell list is as long as the key holds only blanks. |
| TicTacToe.ResetState | TIC_TAC_TOE_MAIN/ttc.py:28-32 | The board `reset_board` builds is the blank board, well formed, with `[0..8]` as its blank-cell list and no winner. |
| TicTacToe.FreeNineCells | TIC_TAC_TOE_MAIN/ttc.py:30-32 | Between turns, a free list of nine cells means nobody holds a line. |
| Board.StateKey | TIC_TAC_TOE_MAIN/ttc.py:16-17 | The key has 9 characters, and character i is the symbol in cell i. |
| TicTacToe.GamePlay.CurrState | TIC_TAC_TOE_MAIN/ttc.py:16-17 | `curr_state` joins the board's values in cell order: nine characters, character i the symbol in cell i. |
| Board.StateKeyInjective | TIC_TAC_TOE_MAIN/ttc.py:16-17 | Two boards have the same key if and only if they are the same board. |
| Board.StateKeyUpdate | TIC_TAC_TOE_MAIN/ttc.py:84-85 | Writing one cell changes exactly that character of the key. |
| Board.WinCheckSound | TIC_TAC_TOE_MAIN/ttc.py:53-58 | When `check_winner`'s four tests succeed, the player holds one of the eight lines. |
| Board.WinCheckComplete | TIC_TAC_TOE_MAIN/ttc.py:53-58 | When the player holds a line through the last move, the four tests succeed. |
| Board.WinCheckAfterMove | TIC_TAC_TOE_MAIN/ttc.py:53-58 | If the mover held no line before marking m, the tests succeed exactly when the mover now holds some line. |
| Board.OtherPlayerUnaffected | TIC_TAC_TOE_MAIN/ttc.py:111 | One player's mark cannot give the other player a line. |
| TicTacToe.GamePlay.CheckWinner | TIC_TAC_TOE_MAIN/ttc.py:53-62 | Returns 1 exactly when the tests hold, and then touches nothing. Otherwise it removes the first occurrence of the move from the free list. It then returns 0 with the same player if the list is empty, or toggles the player and returns -1. |
| Board.BlankCells | TIC_TAC_TOE_MAIN/ttc.py:30 | A cell is in the blank-cell list exactly when it is blank. |
| Board.BlankCellsAscending | TIC_TAC_TOE_MAIN/ttc.py:30 | The blank-cell list is strictly ascending, in the same order as `list(range(9))`. |
| Board.BlankCellsAfterMark | TIC_TAC_TOE_MAIN/ttc.py:60 | After a blank cell is marked, the blank-cell list is the old list with that cell removed by `list.remove`. |
| Board.RemoveFirst | TIC_TAC_TOE_MAIN/ttc.py:60 | `list.remove` makes the list exactly one entry shorter. |
| Board.RemoveFirstMultiset | TIC_TAC_TOE_MAIN/ttc.py:60 | `remove` drops exactly one occurrence of the element and keeps the rest. |
| Board.RemoveFirstCells | TIC_TAC_TOE_MAIN/ttc.py:60 | `remove` keeps the list a list of cells. |
| Board.RestoreBlankCells | TIC_TAC_TOE_MAIN/ttc.py:83-89 | Writing the candidate cells back to `' '` blanks exactly those cells and keeps every other cell. |
| Board.RestoreBlankNoop | TIC_TAC_TOE_MAIN/ttc.py:83-89 | When every candidate was blank already, writing them back leaves the board as it was. |
| Board.CandidateOnBlankCells | TIC_TAC_TOE_MAIN/ttc.py:83-85 | On blank candidates, the board `get_action` scores for candidate k is the original board with the mover's mark on that cell. |
| Greedy.ScanInvariant | TIC_TAC_TOE_MAIN/ttc.py:82-88 | After i values: the running maximum bounds them all, the recorded index holds it, and every earlier value is strictly smaller. If nothing beat it, the maximum is still the sentinel. |
| Greedy.ScanFindsFirstMax | TIC_TAC_TOE_MAIN/ttc.py:82-88 | The scan picks an index exactly when some value beats -1e4, and that index is the first of maximal value. |
| Greedy.FirstMaxUnique | TIC_TAC_TOE_MAIN/ttc.py:88 | There is only one first position of the maximum, so the tie-break is determined. |
| Greedy.Scan | TIC_TAC_TOE_MAIN/ttc.py:82-88 | The recorded index is one of the positions scanned so far, or -1. It is -1 exactly when no scanned value beats the sentinel, and then the running maximum is still the sentinel. |
| TicTacToe.CandidateValuesAt | TIC_TAC_TOE_MAIN/ttc.py:83-87 | Entry j of the scanned list is the value, 0 when absent, of candidate j's board. |
| TicTacToe.CandidateIsNextState | TIC_TAC_TOE_MAIN/ttc.py:83-87 | With a matching free list, candidate k's value is the value of the state the move to that cell would reach. |
| TicTacToe.GreedyCellSpec | TIC_TAC_TOE_MAIN/ttc.py:82-91 | The greedy branch has a cell exactly when some candidate value beats the sentinel. That cell is the first candidate of maximal value. |
| TicTacToe.GreedyCellInRange | TIC_TAC_TOE_MAIN/ttc.py:82-91 | With values in [-2, 1] and a non-empty free list, the greedy branch always returns one of the free cells. |
| TicTacToe.ScannedAreNextValues | TIC_TAC_TOE_MAIN/ttc.py:83-87 | With a matching free list, the values the greedy branch scans are, in free-list order, the values (0 when absent) of the states each free cell's move reaches. |
| TicTacToe.GreedyCellNextState | TIC_TAC_TOE_MAIN/ttc.py:82-91 | The greedy branch picks the free cell whose next state has the first largest value. It has a cell exactly when some next-state value beats -1e4. |
| TicTacToe.GamePlay.GetAction | TIC_TAC_TOE_MAIN/ttc.py:77-91 | With `draw < epsilon` it returns `avlbl[pick]` and leaves the board alone. Otherwise it returns the greedy cell, and afterwards the free cells are blank and every other cell is unchanged. |
| TicTacToe.FreeListBlank | TIC_TAC_TOE_MAIN/ttc.py:83-89 | Between turns every listed free cell is blank, so `get_action` returns the board unchanged. |
| TicTacToe.GamePlay.ChooseAction | TIC_TAC_TOE_MAIN/ttc.py:108-109 | Player `'0'` asks with the true table and `'1'` with the dummy one. The result is a free cell, the random cell or the greedy cell, and the board is unchanged. |
| TicTacToe.MoveOnFreeCell | TIC_TAC_TOE_MAIN/ttc.py:111-113 | Marking a free cell of a board nobody has won has four consequences. The outcome test matches "the mover has a line". The opponent still has none. If no line was made, nobody has won. The free list minus the cell is the new blank-cell list. |
| TicTacToe.GamePlay.Step | TIC_TAC_TOE_MAIN/ttc.py:108-114 | One turn marks the chosen free cell for the mover and appends the new state's key. It returns 1 exactly when the mover now holds a line. Unless that happens, the free list stays the ascending blank-cell list, nobody has won, and one cell fewer is free. |
| TicTacToe.MoverAtNext | TIC_TAC_TOE_MAIN/ttc.py:62 | The player to move alternates from one move to the next. |
| TicTacToe.TraceAt | TIC_TAC_TOE_MAIN/ttc.py:111-112 | Entry t of a replayed trace is the key of the board after the first t + 1 moves. |
| TicTacToe.PlayedStep | TIC_TAC_TOE_MAIN/ttc.py:108-111 | Move t of a legal replay marks a cell that was blank until then, with the symbol of the player whose turn it is. |
| TicTacToe.AllLegalAt | TIC_TAC_TOE_MAIN/ttc.py:107-114 | Every move of a replay is a legal turn: on a board nobody has won, a free cell, the picked cell on a low draw and the mover's greedy cell from its own table otherwise. |
| TicTacToe.LegalTurnKept | TIC_TAC_TOE_MAIN/ttc.py:107-114 | Playing one more move leaves the earlier turns legal. |
| TicTacToe.LegalTurnNew | TIC_TAC_TOE_MAIN/ttc.py:108-111 | A free cell chosen as `get_action` chooses (the picked cell on a low draw, the mover's greedy cell otherwise) on a board nobody has won is a legal next turn. |
| TicTacToe.ReplaysExtend | TIC_TAC_TOE_MAIN/ttc.py:111-112 | A legal turn extends a replay: the board gets the mover's mark and the trace the new key. |
| TicTacToe.LastMoveUndone | TIC_TAC_TOE_MAIN/ttc.py:55-60 | On a replayed board, blanking the last move's cell gives the board before that move. With `PlayTurns`, the free list after a win is therefore the blank-cell list of the board before the winning move. |
| TicTacToe.InPlayStart | TIC_TAC_TOE_MAIN/ttc.py:103-107 | Before the first turn nothing has been played: the start board, an empty trace, the game running with the first player to move. |
| TicTacToe.TurnAdvances | TIC_TAC_TOE_MAIN/ttc.py:107-114 | One turn takes the loop from the state after the moves so far to the state after one more move. The loop goes on exactly when `check_winner` returns -1. |
| TicTacToe.GamePlay.PlayTurns | TIC_TAC_TOE_MAIN/ttc.py:107-114 | The loop ends with a win by the player to move (the other holds no line) or a draw on a full board, after at most nine turns. The ghost `moves` replay the episode from the start. The final board is the start board with the moves marked by alternating players, beginning with the first mover. The trace is the key after each move. Each move was a legal turn. The player left to move made the last move, so it is the first mover exactly when the number of moves is odd. A draw uses every free cell and leaves the free list empty. After a win the free list is the one from before the winning move, winning cell included, because `check_winner` returns before `remove`. |
| TicTacToe.GamePlay.PlayGame | TIC_TAC_TOE_MAIN/ttc.py:103-115 | The turn phase of an episode sets the episode's epsilon and an empty trace. From a board with nine free cells it ends in a win or a draw, with the replay, last-mover and free-list facts of `PlayTurns`; a draw takes nine moves and ends with the first player to move. |
| TicTacToe.TerminalRewards | TIC_TAC_TOE_MAIN/ttc.py:116-122 | The rewards (true, dummy) are: win by `'0'` gives (1, -2); win by `'1'` gives (-2, 1); draw by `'0'` gives (0.2, 0.5); draw by `'1'` gives (0.5, 0.2). All lie in [-2, 1]. |
| TicTacToe.GamePlay.FinishEpisode | TIC_TAC_TOE_MAIN/ttc.py:116-126 | The terminal rewards of the result for the player who moved last. Each table gets the reference pass over the trace with its own reward, dummy first, and stays in [-2, 1]. The board is then reset for the given next player. |
| Values.PropagateKeys | TIC_TAC_TOE_MAIN/ttc.py:65-74 | After the pass, the keys are the old keys plus every visited state. |
| Values.PropagateFrame | TIC_TAC_TOE_MAIN/ttc.py:65-74 | A key not in the trace keeps its value. |
| Values.PropagateBackStep | TIC_TAC_TOE_MAIN/ttc.py:66-74 | One loop iteration inserts 0 for an unseen state and applies `v + lr*(gamma*signal - v)`. The rest of the reversed walk continues from the value just written. |
| Values.PropagateLastWrite | TIC_TAC_TOE_MAIN/ttc.py:66-74 | A state that does not occur earlier in the trace keeps the value its own step wrote. |
| Values.PropagateSingleUnseen | TIC_TAC_TOE_MAIN/ttc.py:65-74 | For a single unseen state, the result is `lr*gamma*r`. |
| Values.PropagateFreshTrace | TIC_TAC_TOE_MAIN/ttc.py:65-74 | Over a trace of distinct unseen states, the state k places before the end receives `(lr*gamma)^(k+1) * r`. |
| Values.PropagateInRange | TIC_TAC_TOE_MAIN/ttc.py:65-74 | With a reward in [-2, 1] and `lr`, `gamma` in [0, 1], every value stays in [-2, 1]. |
| Values.TdStepInRange | TIC_TAC_TOE_MAIN/ttc.py:73 | One update step stays in [-2, 1]. |
| Values.TdStepFromZero | TIC_TAC_TOE_MAIN/ttc.py:69-73 | A state inserted at 0 and updated once holds `lr*gamma*signal`. |
| Values.LookupInRange | TIC_TAC_TOE_MAIN/ttc.py:67-70 | `states_values.get` with 0 for a missing state reads a value in [-2, 1] from a table whose values lie there. |
| TicTacToe.GamePlay.UpdateStatesValues | TIC_TAC_TOE_MAIN/ttc.py:65-74 | The loop's table is the reference pass over `states_visited`. Every visited state gets an entry, and no other key is added or changed. |
| TicTacToe.GamePlay.PlayEpisode | TIC_TAC_TOE_MAIN/ttc.py:103-126 | From a board with nine free cells, the episode ends in a win or a draw. The ghost moves replay the whole episode from the start board and the first mover, as in `PlayTurns`. The last mover is the mover of the last move; after a draw it is the episode's first player, after nine moves. Both tables get the reference pass over the whole trace, with the terminal rewards of the last mover, and stay in [-2, 1]. The board is then reset. |

## Left out

- `save_policy` / `load_policy` (ttc.py:35-50): pickle file I/O on a module-level path.
- `print_board`, the `tqdm` progress bars, the `__main__` block and its commented-out interactive loop: console output and orchestration.
- Randomness: the starting player, the exploration draw and `random.choice` over the free cells are parameters.
- The epsilon schedule `0.95 - i/iterns` (ttc.py:105) is not computed. `PlayEpisode` takes the episode's epsilon as a parameter.
- The outer `for` loop of `train` over many episodes, the initial empty tables, and the final `del` of `states_visited`, `lr` and `gamma` are not modelled. `PlayEpisode` is one iteration of that loop.
- `test` (ttc.py:132-147) is random play with printing. Note: its check `self.curr_player == 1` compares a string with an integer, so `win_count` never increases.
- `TIC_TAC_TOE_MAIN/ttt_gui.py` is not part of this model. It is a GUI, whose only logic is the occupied-cell guard; here that guard is the "free cell" precondition of a move.
- Floating point: values are exact reals. Rounding of `lr*(gamma*r - v)` in IEEE doubles is not modelled.
- UpdateStatesValues returns the updated table instead of mutating the dict argument in place. `train` never aliases the two tables, so nothing observable is lost.
- GetAction returns `None` where the source would raise `UnboundLocalError`, which happens when no candidate value exceeds `-1e4`. Training keeps values in [-2, 1], so this never happens there (`GreedyCellInRange`).
- GetAction's random branch requires a valid index. `random.choice` on an empty list raises `IndexError`, and that error path is not modelled.
- TicTacToe.GamePlay.Valid: the invariant does not state that every cell holds `' '`, `'0'` or `'1'`. Only the board's shape is kept, and the marks written are the two player symbols.
- PlayEpisode starts from a board with nine free cells. By `FullFreeList` this is exactly the board `reset_board` builds; the state left by a previous episode is that board too (the ResetBoard postcondition).
- TicTacToe.GamePlay.CheckWinner: the precondition `0 <= lastMove < 9` stands for the `KeyError` a cell outside the board raises (ttc.py:55), and the precondition that a move without a line is on the free list stands for the `ValueError` of `list.remove` (ttc.py:60). Neither error path is modelled.
- `train`'s assignments `self.gamma = decay_factor` and `self.lr = learning_rate` (ttc.py:94-96), with defaults 0.9 and 0.5, are not modelled. The caller sets `lr` and `gamma`: the constructor leaves them arbitrary, and `PlayEpisode` requires both in [0, 1].
