# Tic-tac-toe minimax, modelled in Dafny

This project models the tic-tac-toe player in `Trabalho/tictactoe/tictactoe.py` and proves
properties of the model. The player works on a 3×3 board whose cells are `X`, `O` or empty, and
answers these questions:

- whose turn it is (`player`);
- which moves are open (`actions`);
- what board a move leads to (`result`, which raises "Invalid action" for an off-board move or a
  taken cell);
- who has won (`winner`);
- whether the game is over (`terminal`), and what it is worth to X (`utility`);
- the best move for the side to move (`minimax`), found by an exhaustive game-tree search
  (`max_value`, `min_value`).

Two modules:

- `tictactoe.dfy`, module `TicTacToe`, holds the rules of the game.
  - The board is a value: a `seq<seq<Cell>>` constrained to 3×3.
  - Marks are counted row by row, as the source sums `row.count(...)`.
  - The open moves are collected by a double loop in row-major order (`Actions`). That loop is
    proved equal to the function `ActionList`, and lemmas show that this list holds exactly the
    legal moves, once each, in order.
  - `Result` returns either the new board or the `InvalidAction` error.
  - `Winner` scans eight lines in the order the source checks them: rows, columns, main
    diagonal, anti-diagonal.
- `minimax.dfy`, module `Minimax`, holds the search.
  - `MaxScore` and `MinScore` define the value of a board for X, who maximises, and for O, who
    minimises. They recurse over the moves, and the number of empty cells is the termination
    measure.
  - The methods `MaxValue`, `MinValue` and `Minimax` keep the source's loops, with an
    accumulator and a best-so-far move. They are proved to compute that value.
  - `Minimax` is proved to pick the first best move in enumeration order, because it replaces its
    choice only on a strictly better score.

## Model

| member | source | states |
|---|---|---|
| TicTacToe.InitialState | Trabalho/tictactoe/tictactoe.py:17-24 | the initial board has every one of its nine cells empty |
| TicTacToe.EmptyBoardFacts | Trabalho/tictactoe/tictactoe.py:17-54 | on a board with no marks (such as the initial one): nine empty cells, no X or O, X to move, every on-board move legal, nine moves available |
| TicTacToe.Player | Trabalho/tictactoe/tictactoe.py:27-40 | O moves exactly when X has more marks than O, X otherwise (equal counts give X); on boards with as many X as O or one more, X moves iff the counts are equal and O moves iff X has one more |
| TicTacToe.PlayerAlternates | Trabalho/tictactoe/tictactoe.py:27-85 | on a board with as many X as O or one more, a legal move keeps that balance and passes the turn to the other player |
| TicTacToe.Actions | Trabalho/tictactoe/tictactoe.py:43-54 | the double loop over rows and columns yields the list of legal moves in row-major order |
| TicTacToe.ActionList | Trabalho/tictactoe/tictactoe.py:49-54 | every listed move is on the board and on an empty cell |
| TicTacToe.ActionListIsLegalMoves | Trabalho/tictactoe/tictactoe.py:49-54 | a move is listed exactly when it is on the board and its cell is empty, and there are as many moves as empty cells |
| TicTacToe.ActionListSorted | Trabalho/tictactoe/tictactoe.py:49-54 | the moves come in strictly increasing row-major order, so no move is listed twice, as in a set |
| TicTacToe.NoActionsIffFull | Trabalho/tictactoe/tictactoe.py:49-54 | there is no move exactly when every cell is taken |
| TicTacToe.Result | Trabalho/tictactoe/tictactoe.py:57-85 | applying a move fails with the invalid-action error exactly when a coordinate is outside 0..2 or the cell is not empty |
| TicTacToe.ResultPlacesMark | Trabalho/tictactoe/tictactoe.py:79-85 | a legal move succeeds; its cell now holds the mark of the player to move before the move, every other cell is unchanged, the empty cells drop by one, the mover has one more mark and the other mark count is unchanged |
| TicTacToe.ScanLinesFindsFirst | Trabalho/tictactoe/tictactoe.py:94-113 | scanning from line k finds nothing iff no line from k on is complete (three equal non-empty cells); otherwise it returns the mark of the first complete line |
| TicTacToe.WinnerIsFirstCompleteLine | Trabalho/tictactoe/tictactoe.py:88-113 | there is no winner iff none of the eight lines is complete; otherwise the winner's mark fills the first complete line, in the order rows, columns, main diagonal, anti-diagonal |
| TicTacToe.TerminalIffWinOrFull | Trabalho/tictactoe/tictactoe.py:116-125 | the game is over exactly when someone has won or every cell is taken |
| TicTacToe.Utility | Trabalho/tictactoe/tictactoe.py:128-143 | the score lies in -1..1; it is 1 iff X has won, -1 iff O has won, 0 iff there is no winner |
| TicTacToe.FullWithoutLineIsDraw | Trabalho/tictactoe/tictactoe.py:116-143 | a full board without a complete line is a finished game with no winner and utility 0 |
| TicTacToe.CountByRows | Trabalho/tictactoe/tictactoe.py:34-35 | the mark count of a board is the sum of the counts of its three rows |
| TicTacToe.PlaceCounts | Trabalho/tictactoe/tictactoe.py:83 | writing a mark into an empty cell takes one from the empty cells, adds one to that mark and leaves the other mark alone |
| Minimax.MaxOfIsMax | Trabalho/tictactoe/tictactoe.py:159-163 | the running maximum, which starts below every score, bounds all scores seen and is one of them once one has been seen |
| Minimax.MinOfIsMin | Trabalho/tictactoe/tictactoe.py:178-182 | the running minimum, which starts above every score, bounds all scores seen from below and is one of them once one has been seen |
| Minimax.MaxScore | Trabalho/tictactoe/tictactoe.py:146-163 | the value of a board for X is always -1, 0 or 1 |
| Minimax.MinScore | Trabalho/tictactoe/tictactoe.py:165-182 | the value of a board for O is always -1, 0 or 1 |
| Minimax.ScoresAtTerminal | Trabalho/tictactoe/tictactoe.py:157-158 | on a finished game both values are the utility |
| Minimax.MaxScoreIsBestChild | Trabalho/tictactoe/tictactoe.py:159-163 | on a board in play, no legal move scores above the value for X, and some legal move reaches it |
| Minimax.MinScoreIsBestChild | Trabalho/tictactoe/tictactoe.py:178-182 | on a board in play, no legal move scores below the value for O, and some legal move reaches it |
| Minimax.XWinningMove | Trabalho/tictactoe/tictactoe.py:157-163 | if X has a move that wins on the spot, that move and the board are both worth 1 |
| Minimax.OWinningMove | Trabalho/tictactoe/tictactoe.py:176-182 | if O has a move that wins on the spot, that move and the board are both worth -1 |
| Minimax.XScoreOfResult | Trabalho/tictactoe/tictactoe.py:160-162 | the board a listed move leads to exists, has one empty cell fewer, and its value for O is that move's score for X |
| Minimax.OScoreOfResult | Trabalho/tictactoe/tictactoe.py:179-181 | the board a listed move leads to exists, has one empty cell fewer, and its value for X is that move's score for O |
| Minimax.MaxValue | Trabalho/tictactoe/tictactoe.py:146-163 | the search loop returns exactly the value of the board for X, a number in -1..1 |
| Minimax.MinValue | Trabalho/tictactoe/tictactoe.py:165-182 | the search loop returns exactly the value of the board for O, a number in -1..1 |
| Minimax.FirstMaxStep | Trabalho/tictactoe/tictactoe.py:213-216 | replacing the best index only on a strictly larger score keeps it at the first maximum so far |
| Minimax.FirstMinStep | Trabalho/tictactoe/tictactoe.py:226-229 | replacing the best index only on a strictly smaller score keeps it at the first minimum so far |
| Minimax.FirstMaxIsFirstLargest | Trabalho/tictactoe/tictactoe.py:207-217 | the first maximum is at least every score and strictly above every score before it |
| Minimax.FirstMinIsFirstSmallest | Trabalho/tictactoe/tictactoe.py:220-230 | the first minimum is at most every score and strictly below every score before it |
| Minimax.SearchForX | Trabalho/tictactoe/tictactoe.py:207-217 | X's loop ends with the first index whose score is the largest, and that largest score |
| Minimax.SearchForO | Trabalho/tictactoe/tictactoe.py:220-230 | O's loop ends with the first index whose score is the smallest, and that smallest score |
| Minimax.FirstBestFromScoresX | Trabalho/tictactoe/tictactoe.py:207-217 | the first best index of X's scores gives the first move whose score is the largest over all moves, and its score is the board's value for X |
| Minimax.FirstBestFromScoresO | Trabalho/tictactoe/tictactoe.py:220-230 | the first best index of O's scores gives the first move whose score is the smallest over all moves, and its score is the board's value for O |
| Minimax.Minimax | Trabalho/tictactoe/tictactoe.py:185-230 | no move iff the game is over; otherwise a legal, listed move. For X it is the first in row-major order whose score is the largest over all moves, and that score is the board's value; for O, the first whose score is the smallest |

## Left out

- `DeveresDeCasa/Dever-04/dever_de_casa04.py` is not part of this model. It writes and reads a text file, draws random numbers and displays a table, and has no game logic.
- `actions` returns a Python `set`, and `max_value`, `min_value` and `minimax` iterate over it. The set's iteration order follows the hashes of the coordinate tuples. The model fixes row-major order instead, so the tie-break that `Minimax` proves (the first best move wins) is stated for that order.
- The `math.inf` and `-math.inf` starting values, which are floats, are modelled as the integers 2 and -2. These lie outside every score, which is all the loops rely on.
- `copy.deepcopy` followed by the assignment into the copy is modelled as an update of an immutable sequence. The input board is therefore unchanged by construction, and aliasing between boards is not modelled.
- TicTacToe.Result: modelled as a function on values rather than as a copy mutated in place, for the reason in the previous line.
- Boards of any shape other than 3×3, and cells holding anything but `X`, `O` or empty, are excluded by the `Board` type. The source only ever builds 3×3 boards of these values.
- The `elif current_player == O` test in `minimax` becomes a plain `else`, because `Player` returns only `X` or `O`; the source's fall-through `return None` after it cannot be reached.
- TicTacToe.EmptyBoardFacts: stated for every board with no marks, `InitialState()` among them, rather than for the literal initial board itself.
- Which move the search picks on the empty board is not stated: it would require evaluating the whole game tree.
- Running time, recursion depth and the absence of memoisation are not modelled.
