# Checkers core in Dafny

A model of the rules core of a small Python checkers game with a minimax AI.

- **Pieces** (`checkers/piece.py`): a piece knows its cell, its colour and its forward direction. It also keeps its distance to the promotion row and the pixel centre of its cell, and it can be crowned.
- **Board** (`checkers/board.py`): a `rows` x `cols` grid of cells that are empty or hold a piece, with per-side piece and king counters. It covers the starting layout, relocating a piece with promotion, the bounds test, and the one-step diagonal move generator for men (non-kings).
- **Search** (`minimax/algorithm.py`):
  - Depth-limited minimax with alpha-beta pruning, WHITE maximising and BLACK minimising, over an abstract game tree. A successor function per colour and an evaluation function are parameters.
  - Scores are integers extended with -infinity and +infinity.
  - `get_all_moves` becomes a generator that produces one successor position per (piece, destination) entry of a move map. Positions are values, and applying a move is a parameter.
- **Game controller** (`checkers/game.py`): whose turn it is, the selected piece and its steps. A click either moves the selected piece (the non-capturing path) and passes the turn, or selects a piece of the side to move.

Files:
- `piece.dfy`: module `Pieces`.
- `board.dfy`: module `Boards`.
- `score.dfy`: module `Scores`.
- `search.dfy`: module `Search`, which holds the search as the source runs it and its specification functions.
- `search_props.dfy`: module `SearchProps`, which holds what the search guarantees.
- `successors.dfy`: module `Successors`.
- `game.dfy`: module `Games`.

The rule constants (`ROWS`, `COLS`, `SQUARE_SIZE`) live in a `checkers/constants.py` that is not part of this model. They enter as a `Config` value, and the colours as the two-valued `Color`.

How the model is built:
- Python's `0` for an empty cell is `Cell.Empty`.
- A board cell holds a reference to a `Piece` object, as in the source, so moving a piece updates both the grid and the piece.
- The board invariant `Board.Valid` ties every occupied cell (r, c) to a valid piece standing at row r, column c.

Two behaviours of `select` are kept as written:
- After a successful move the turn has already passed. The clicked cell then holds a piece of the side that just moved, so `select` reports false.
- After a failed move on a cell that does not hold an own piece, the selection is dropped but the old list of steps stays.

For the search:
- The method `Search.Minimax` (split into `MaxTurn` and `MinTurn` for its two branches) runs the loops with their early `break`.
- It is proved equal to the specification function `Search.AlphaBeta`.
- About that function, `SearchProps` proves:
  - what a call returns and which successor it picks;
  - where the loop stops;
  - the fail-soft bracket against the plain minimax value `Search.MinimaxValue`;
  - that with the full window the result is exactly the minimax value.

## Model

| member | source | states |
|---|---|---|
| Pieces.Opponent | checkers/game.py:80-83 | the other colour, never the colour itself |
| Pieces.Direction | checkers/piece.py:16-20 | a piece moves in row direction -1 exactly when it is WHITE and +1 otherwise |
| Pieces.DistToKing | checkers/piece.py:18-21 | on the board the distance to the promotion row lies in [0, rows-1]; it is 0 exactly on that row; the row is the promotion row minus direction times the distance |
| Pieces.Centre | checkers/piece.py:27-29 | the pixel coordinate of a cell's centre lies inside that cell's span of `squareSize` pixels and divides back to the cell index |
| Pieces.Piece.constructor | checkers/piece.py:10-25 | a new piece stands at the given cell with the given colour, is not a king, and has direction, distance to king and centre consistent with them |
| Pieces.Piece.CalculatePosition | checkers/piece.py:27-33 | recomputes the centre and distance to king from the cell and colour, and touches nothing else |
| Pieces.Piece.MakeKing | checkers/piece.py:35-36 | the piece is a king afterwards, and only the king flag may change, so a second call changes nothing |
| Pieces.Piece.Move | checkers/piece.py:47-50 | the piece stands at the new cell, the derived fields are recomputed, and the king flag, colour and direction are unchanged |
| Boards.Diagonals | checkers/board.py:73-76 | the four candidate steps are distinct diagonal neighbours, the first two one row forward and the last two one row back |
| Boards.SwapCells | checkers/board.py:31 | the grid keeps its shape, the two cells exchange their contents and every other cell is unchanged |
| Boards.CreateBoard | checkers/board.py:46-58 | the grid is rows x cols; each cell is as the layout prescribes; every piece is fresh, not a king and stands at its own cell |
| Boards.InitialPlacement | checkers/board.py:50-58 | at the start a cell is occupied iff (row + col) is odd and the row is outside the two middle rows; pieces above row rows/2 - 1 are BLACK, below row rows/2 WHITE |
| Boards.Board.constructor | checkers/board.py:9-18 | a new board has the starting layout, 20 pieces and 0 kings per side, only dark squares occupied, and a consistent grid |
| Boards.Board.IsOutsideBoard | checkers/board.py:96-99 | true iff the row or the column is negative or at least the board's size |
| Boards.Board.GetPiece | checkers/board.py:42-43 | a piece found on a cell belongs to the board and stands on that cell |
| Boards.Board.Move | checkers/board.py:29-40 | the piece lands on the empty destination and its old cell becomes empty; no other cell changes; only dark squares stay occupied; a man reaching its promotion row is crowned and that colour's king count rises by exactly 1; kings and piece counts never change otherwise |
| Boards.Board.Relocate | checkers/board.py:31-32 | the swap and the piece's own move together keep the grid consistent: destination holds the piece, origin is empty, everything else is as before |
| Boards.Board.AppendIfFree | checkers/board.py:78-89 | one candidate step is kept iff it is on the board and its cell is empty, preserving the order of the candidates |
| Boards.Board.GetValidMoves | checkers/board.py:68-92 | for a man, the result lists in order forward-left, forward-right, back-left, back-right exactly those diagonal neighbours that are on the board and empty, at most four |
| Scores.Max | minimax/algorithm.py:28-29 | the larger of two scores: an upper bound of both and equal to one of them |
| Scores.Min | minimax/algorithm.py:46-47 | the smaller of two scores: a lower bound of both and equal to one of them |
| Scores.MaxSeqBounds | minimax/algorithm.py:22-28 | the running maximum bounds its start value and every score folded in, and equals one of them |
| Scores.MinSeqBounds | minimax/algorithm.py:40-46 | the running minimum is below its start value and every score folded in, and equals one of them |
| Search.AlphaBeta | minimax/algorithm.py:16-54 | the specification of a search call: a leaf is scored by the evaluation; otherwise the maximiser's or minimiser's loop over the successors runs with the recursive call one level deeper. What it guarantees is proved in the SearchProps rows |
| Search.Minimax | minimax/algorithm.py:16-54 | the search returns the score and choice AlphaBeta specifies; at depth 0 it returns the position's own evaluation and the position itself |
| Search.MaxTurn | minimax/algorithm.py:21-36 | the maximiser's loop, with its early break, computes the score and choice of MaxLoop from (-infinity, None) |
| Search.MinTurn | minimax/algorithm.py:39-54 | the minimiser's loop, with its early break, computes the score and choice of MinLoop from (+infinity, None) |
| SearchProps.LastIndexOfFinds | minimax/algorithm.py:30-31 | the index found holds the score, no later examined score equals it, and none is found iff the score was not examined |
| SearchProps.MaxSeqPrefixMonotone | minimax/algorithm.py:28 | the maximiser's running maximum never decreases as scores are examined |
| SearchProps.MinSeqPrefixMonotone | minimax/algorithm.py:46 | the minimiser's running minimum never increases as scores are examined |
| SearchProps.MaxLoopResult | minimax/algorithm.py:24-36 | the maximiser examines at least one successor when there is one and no more than there are; it returns the running maximum of the examined scores and the last examined successor holding it, or the incoming choice if none does |
| SearchProps.MinLoopResult | minimax/algorithm.py:42-54 | the minimiser examines at least one successor when there is one and no more than there are; it returns the running minimum of the examined scores and the last examined successor holding it, or the incoming choice if none does |
| SearchProps.MaxLoopChild | minimax/algorithm.py:25-29 | the i-th examined score is the minimising search of the i-th successor with the alpha raised by the scores examined before it |
| SearchProps.MinLoopChild | minimax/algorithm.py:43-47 | the i-th examined score is the maximising search of the i-th successor with the beta lowered by the scores examined before it |
| SearchProps.MaxLoopNoEarlyCut | minimax/algorithm.py:29-34 | no examined successor before the last one left beta <= alpha |
| SearchProps.MaxLoopStop | minimax/algorithm.py:29-34 | when successors remain unexamined, the last examined one left beta <= alpha, so the loop stopped right after the first cut |
| SearchProps.MinLoopNoEarlyCut | minimax/algorithm.py:47-52 | no examined successor before the last one left beta <= alpha |
| SearchProps.MinLoopStop | minimax/algorithm.py:47-52 | when successors remain unexamined, the last examined one left beta <= alpha |
| SearchProps.AlphaNeverDecreases | minimax/algorithm.py:29 | alpha never decreases while the maximiser's loop runs |
| SearchProps.BetaNeverIncreases | minimax/algorithm.py:47 | beta never increases while the minimiser's loop runs |
| SearchProps.MaximiserCall | minimax/algorithm.py:21-36 | a maximising call with no successors returns (-infinity, None); otherwise it returns the maximum of the scores it examined, which is one of them, and the last examined successor holding it |
| SearchProps.MinimiserCall | minimax/algorithm.py:39-54 | a minimising call with no successors returns (+infinity, None); otherwise it returns the minimum of the scores it examined, which is one of them, and the last examined successor holding it |
| SearchProps.MaxStepCut | minimax/algorithm.py:28-34 | a successor that cuts the maximiser's loop off leaves a result that is a lower bound of the true value |
| SearchProps.MaxStepOn | minimax/algorithm.py:28-34 | a successor that does not cut the loop off keeps the maximiser's bracket for the rest of the loop |
| SearchProps.MinStepCut | minimax/algorithm.py:46-52 | a successor that cuts the minimiser's loop off leaves a result that is an upper bound of the true value |
| SearchProps.MinStepOn | minimax/algorithm.py:46-52 | a successor that does not cut the loop off keeps the minimiser's bracket for the rest of the loop |
| SearchProps.MaxLoopFailSoft | minimax/algorithm.py:24-36 | against the maximum of the successors' true values, the loop's result is exact strictly inside the window, an upper bound below beta and a lower bound at or above beta |
| SearchProps.MinLoopFailSoft | minimax/algorithm.py:42-54 | against the minimum of the successors' true values, the loop's result is exact strictly inside the window, a lower bound above alpha and an upper bound at or below alpha |
| SearchProps.FailSoft | minimax/algorithm.py:16-54 | for alpha < beta, a search result at or below alpha bounds the plain minimax value from above, one at or above beta bounds it from below, and one strictly between them equals it |
| SearchProps.FullWindow | minimax/algorithm.py:16-54 | with the window (-infinity, +infinity) the search returns exactly the unpruned depth-limited minimax value |
| Successors.EntriesOfMap | minimax/algorithm.py:91-92 | the entries of a move map are exactly its (piece, move) pairs, one per move |
| Successors.GetAllMoves | minimax/algorithm.py:87-106 | one successor position per (piece, move) entry, in map order, each the result of applying that move to the given position |
| Games.OpponentTwice | checkers/game.py:77-83 | passing the turn twice gives it back to the same side |
| Games.Game.constructor | checkers/game.py:18-22 | a new game has a fresh starting board: the starting layout, no kings, 20 pieces and 0 kings per side. WHITE is to move, with nothing selected and no steps |
| Games.Game.Reset | checkers/game.py:24-25 | a reset game is exactly like a new one: a fresh starting board with no kings and the starting counters, WHITE to move, nothing selected |
| Games.Game.ChangeTurn | checkers/game.py:77-83 | the turn goes to the other side, and the selection and steps are cleared |
| Games.Game.MoveSelected | checkers/game.py:42-68 | the move happens iff a piece is selected, the destination is empty and the destination is one of its steps. Then the piece is relocated and crowned iff it is a man reaching its promotion row. That colour's king count rises by exactly 1 when it is crowned, and no other counter changes. The turn passes and the selection is cleared. No other piece changes. Otherwise nothing changes and the result is false |
| Games.Game.SelectPiece | checkers/game.py:34-40 | a click on a piece of the side to move selects it, together with its steps, and reports true. Otherwise nothing changes and it reports false |
| Games.Game.Select | checkers/game.py:27-40 | a click with a selection first tries the move. A successful move relocates the piece, crowns it and counts the king exactly as `MoveSelected` does, passes the turn and reports false. Otherwise the board (cells and counters), every piece and the turn are unchanged, and the click reports true iff it selects a piece of the side to move (with its steps). If it does not, nothing is selected |

## Left out

- Rendering: all pygame drawing, the numpy background grid, `Piece.draw`, `Game.update`, `draw_valid_moves` and the game's window. These only draw.
- `main.py`: the event loop and the mouse-to-cell conversion. These are input plumbing.
- The LRU caching experiment on `minimax`, which is commented out and relies on an outside library.
- Captures:
  - The capture branch of `_move` (checkers/game.py:48-61) and the capture chain of `simulate_move` are not modelled.
  - The board methods they call are not defined in `checkers/board.py`: `remove_piece`, `evaluate`, `make_king(piece, row)`, and `get_valid_moves(color)` returning a move map and a skip flag.
  - The search takes successor generation and evaluation as parameters of `Search.Tree`.
  - `Successors.GetAllMoves` takes the per-move simulation as a parameter.
- The steps of the selected piece:
  - `board.py`'s `get_valid_moves` returns a list of `[row, col]` pairs.
  - `game.py` starts with an empty dictionary and then looks destinations up as keys `str([row, col])`. The value is a string holding the skipped piece's coordinates, which is decoded with `literal_eval`, and it is falsy when nothing is skipped. A list has no keys.
  - The model keeps the list of positions, reads "is a key" as membership, and reads the value as falsy ("nothing skipped"), which is the non-capturing path.
- The evaluation: the search takes `evaluate` as a deterministic function of the position, so `SearchProps.FullWindow` can compare the search against a second evaluation of the same leaves. An evaluation that varies between calls on the same position is not captured. `evaluate` is not defined in `checkers/board.py`.
- Scores: Python floats are modelled as `Scores.Score`, integers with -infinity and +infinity. The search only compares and copies scores. NaN is not modelled.
- `deepcopy` of boards: in `Successors` a position is a value, so the input position cannot be altered by construction.
- Colours: they are RGB tuples in the source and the two-valued `Color` here. The source's "any colour other than WHITE" is BLACK.
- `INITIAL_PIECES`: the counters start at 20 per side whatever `ROWS` and `COLS` are, as the code does. They are not the number of pieces actually placed.
- Boards.Board.GetValidMoves: requires a man, because the source's king branch is `pass` and then uses undefined variables.
- Games.Game.Select: requires that the clicked cell not hold a king of the side to move, because selecting one calls `get_valid_moves` on a king and fails in the same way.
- Games.Game.SelectPiece: requires the same of the clicked cell, for the same reason.
- Boards.Board.Move: requires the destination to be empty. With an occupied destination the swap would leave the displaced piece recording its old cell, and every caller moves onto an empty cell.
- Boards.Board.GetPiece: requires an in-bounds cell. Python's negative indices wrap around and indices that are too large raise.
- Games.Game.Select: requires an in-bounds cell, for the same reason.
- Games.Game.MoveSelected: requires an in-bounds cell, for the same reason.
- Search.Minimax: depth is a natural number. With a negative depth the source never reaches depth 0. At a position without successors it returns -infinity or +infinity with no move. Otherwise it recurses until Python's recursion limit raises an error. Calls that start from a non-negative depth never reach a negative one.
- Scores.Max: on equal scores Python's `max` returns its first argument and the model returns the second. The two are equal, so only the value is stated.
