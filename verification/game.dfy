/**
 * The game controller: whose turn it is, which piece is selected and where
 * it may step, on top of one board. A click on a cell either moves the
 * selected piece there or (re)selects a piece of the side to move.
 */
module Games {
  import opened Pieces
  import opened Boards

  lemma OpponentTwice(c: Color)
    ensures Opponent(Opponent(c)) == c
    ensures c == White <==> Opponent(c) == Black
  {
  }

  class Game {
    const cfg: Config
    var board: Board
    var turn: Color
    var selected: Piece?
    var validMoves: seq<Pos>

    /**
     * The board is consistent and every occupied cell is a dark square; a
     * selected piece stands on the board, belongs to the side to move and
     * may only step diagonally.
     */
    ghost predicate Valid()
      reads this, board, board.pieces
    {
      board.Valid() && board.cfg == cfg && board.Playable() &&
      (selected != null ==>
        selected in board.pieces && selected.color == turn &&
        !board.IsOutsideBoard(selected.row, selected.col) &&
        board.grid[selected.row][selected.col] == Occupied(selected) &&
        forall d :: d in validMoves ==> d in Diagonals(selected.row, selected.col, Direction(selected.color)))
    }

    /**
     * A new game: a fresh starting board with no kings and the starting
     * counters, WHITE to move, nothing selected.
     */
    constructor (cfg: Config)
      ensures Valid() && fresh(board) && fresh(board.pieces)
      ensures this.cfg == cfg && Shaped(cfg, board.grid) && InitialLayout(cfg, board.grid)
      ensures turn == White && selected == null && validMoves == []
      ensures forall r, c :: 0 <= r < cfg.rows && 0 <= c < cfg.cols && board.grid[r][c].Occupied? ==>
        !board.grid[r][c].piece.king
      ensures board.whiteLeft == board.blackLeft == INITIAL_PIECES && board.whiteKings == board.blackKings == 0
    {
      this.cfg := cfg;
      selected := null;
      board := new Board(cfg);
      turn := White;
      validMoves := [];
    }

    /** Starts over exactly as a new game does. */
    method Reset()
      modifies this
      ensures Valid() && fresh(board) && fresh(board.pieces)
      ensures Shaped(cfg, board.grid) && InitialLayout(cfg, board.grid)
      ensures turn == White && selected == null && validMoves == []
      ensures forall r, c :: 0 <= r < cfg.rows && 0 <= c < cfg.cols && board.grid[r][c].Occupied? ==>
        !board.grid[r][c].piece.king
      ensures board.whiteLeft == board.blackLeft == INITIAL_PIECES && board.whiteKings == board.blackKings == 0
    {
      selected := null;
      board := new Board(cfg);
      turn := White;
      validMoves := [];
    }

    /** Passes the turn to the other side and drops the selection. */
    method ChangeTurn()
      modifies this`validMoves, this`selected, this`turn
      ensures turn == Opponent(old(turn))
      ensures selected == null && validMoves == []
    {
      validMoves := [];
      selected := null;
      if turn == White {
        turn := Black;
      } else {
        turn := White;
      }
    }

    /**
     * Moves the selected piece to (row, col) when that cell is empty and one
     * of the selected piece's moves, then passes the turn; otherwise changes
     * nothing and reports false.
     */
    method MoveSelected(row: int, col: int) returns (ok: bool)
      requires Valid() && !board.IsOutsideBoard(row, col)
      modifies this, board, board.pieces
      ensures Valid() && board == old(board) && board.pieces == old(board.pieces)
      ensures ok == (old(selected) != null && old(board.grid[row][col]) == Empty && (row, col) in old(validMoves))
      ensures !ok ==> unchanged(this) && unchanged(board) && unchanged(board.pieces)
      ensures ok ==> Relocated(old(selected), old(selected.row), old(selected.col), row, col, old(board.grid))
      ensures ok ==> board.Promoted(old(selected), row, old(selected.king), old(board.whiteLeft), old(board.blackLeft),
                              old(board.whiteKings), old(board.blackKings))
      ensures ok ==> turn == Opponent(old(turn)) && selected == null && validMoves == []
      ensures forall p :: p in old(board.pieces) && p != old(selected) ==> unchanged(p)
    {
      var piece := board.GetPiece(row, col);
      if selected != null && piece == Empty && (row, col) in validMoves {
        var mover := selected;
        assert (row, col) in Diagonals(mover.row, mover.col, Direction(mover.color));
        assert (mover.row + mover.col) % 2 == 1;
        assert (row + col) % 2 == 1;
        board.Move(mover, row, col);
        ChangeTurn();
        ok := true;
      } else {
        ok := false;
      }
    }

    /**
     * The board after `piece` moved from (fromRow, fromCol) to the empty cell
     * (row, col) of `before`: it stands at (row, col), its old cell is empty
     * and every other cell is as it was.
     */
    ghost predicate Relocated(piece: Piece?, fromRow: int, fromCol: int, row: int, col: int,
                              before: seq<seq<Cell>>)
      reads this, board, piece
    {
      piece != null &&
      Shaped(cfg, board.grid) && Shaped(cfg, before) &&
      0 <= row < cfg.rows && 0 <= col < cfg.cols &&
      0 <= fromRow < cfg.rows && 0 <= fromCol < cfg.cols &&
      piece.row == row && piece.col == col &&
      board.grid[row][col] == Occupied(piece) && board.grid[fromRow][fromCol] == Empty &&
      forall r, c ::
        0 <= r < cfg.rows && 0 <= c < cfg.cols && (r, c) != (row, col) && (r, c) != (fromRow, fromCol)
        ==> board.grid[r][c] == before[r][c]
    }

    /**
     * A click on (row, col). With a piece selected, it first tries to move
     * there; a failed move drops the selection and the click is handled as a
     * fresh selection. A successful move passes the turn, and since the cell
     * now holds a piece of the side that just moved, the click selects
     * nothing and reports false. Otherwise the click selects a piece of the
     * side to move, with its steps, and reports true, or reports false with
     * nothing selected.
     */
    method Select(row: int, col: int) returns (ok: bool)
      requires Valid() && !board.IsOutsideBoard(row, col)
      requires board.grid[row][col].Occupied? && board.grid[row][col].piece.color == turn ==>
        !board.grid[row][col].piece.king
      modifies this, board, board.pieces
      ensures Valid() && board == old(board) && board.pieces == old(board.pieces)
      ensures var moved := old(selected) != null && old(board.grid[row][col]) == Empty && (row, col) in old(validMoves);
        (moved ==>
          Relocated(old(selected), old(selected.row), old(selected.col), row, col, old(board.grid)) &&
          board.Promoted(old(selected), row, old(selected.king), old(board.whiteLeft), old(board.blackLeft),
                   old(board.whiteKings), old(board.blackKings)) &&
          turn == Opponent(old(turn)) && selected == null && validMoves == [] && !ok) &&
        (!moved ==>
          unchanged(board) && unchanged(board.pieces) && turn == old(turn) &&
          ok == (board.grid[row][col].Occupied? && board.grid[row][col].piece.color == turn) &&
          (ok ==> selected == board.grid[row][col].piece && board.StepsFor(selected, validMoves)) &&
          (!ok ==> selected == null && validMoves == old(validMoves)))
      ensures forall p :: p in old(board.pieces) && p != old(selected) ==> unchanged(p)
      decreases if selected == null then 0 else 1
    {
      if selected != null {
        var result := MoveSelected(row, col);
        if !result {
          selected := null;
          var _ := Select(row, col);
        }
      }
      ok := SelectPiece(row, col);
    }

    /**
     * The selection half of a click: a piece of the side to move on
     * (row, col) becomes the selection, with its steps; otherwise nothing
     * changes and the click reports false.
     */
    method SelectPiece(row: int, col: int) returns (ok: bool)
      requires Valid() && !board.IsOutsideBoard(row, col)
      requires board.grid[row][col].Occupied? && board.grid[row][col].piece.color == turn ==>
        !board.grid[row][col].piece.king
      modifies this`selected, this`validMoves
      ensures Valid()
      ensures ok == (board.grid[row][col].Occupied? && board.grid[row][col].piece.color == turn)
      ensures ok ==> selected == board.grid[row][col].piece && board.StepsFor(selected, validMoves)
      ensures !ok ==> selected == old(selected) && validMoves == old(validMoves)
    {
      var cell := board.GetPiece(row, col);
      if cell.Occupied? && cell.piece.color == turn {
        selected := cell.piece;
        validMoves := board.GetValidMoves(cell.piece);
        return true;
      }
      return false;
    }
  }
}
