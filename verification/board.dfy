/**
 * The board: a `rows` x `cols` grid whose cells are empty or hold a piece,
 * with the piece and king counters of each side. Cells are addressed by
 * (row, col); a piece always knows the cell it stands on.
 */
module Boards {
  import opened Pieces

  /** A grid cell. The source stores the number 0 for an empty cell. */
  datatype Cell = Empty | Occupied(piece: Piece)

  /** A (row, col) coordinate, as produced by the move generator. */
  type Pos = (int, int)

  /** Number of pieces each side starts with, whatever the board size. */
  const INITIAL_PIECES: int := 20

  /** True iff `a` can be obtained from `b` by deleting elements. */
  predicate IsSubsequence<T(==)>(a: seq<T>, b: seq<T>)
    decreases |b|
  {
    if a == [] then true
    else if b == [] then false
    else (a[0] == b[0] && IsSubsequence(a[1..], b[1..])) || IsSubsequence(a, b[1..])
  }

  lemma {:induction false} SubsequenceExtend<T>(a: seq<T>, b: seq<T>, x: T)
    requires IsSubsequence(a, b)
    ensures IsSubsequence(a, b + [x])
    ensures IsSubsequence(a + [x], b + [x])
    decreases |b|
  {
    if a == [] {
      assert a + [x] == [x] && [x][1..] == [];
      assert IsSubsequence([x], [x]);
      assert (b + [x])[|b|..] == [x];
      SubsequenceOfSuffix([x], b + [x], |b|);
    } else {
      assert b != [];
      assert (b + [x])[1..] == b[1..] + [x];
      assert (a + [x])[1..] == a[1..] + [x];
      if a[0] == b[0] && IsSubsequence(a[1..], b[1..]) {
        SubsequenceExtend(a[1..], b[1..], x);
      } else {
        SubsequenceExtend(a, b[1..], x);
      }
    }
  }

  /** A subsequence of a suffix of `b` is a subsequence of `b`. */
  lemma {:induction false} SubsequenceOfSuffix<T>(a: seq<T>, b: seq<T>, k: nat)
    requires k <= |b| && IsSubsequence(a, b[k..])
    ensures IsSubsequence(a, b)
    decreases k
  {
    if k > 0 {
      assert b[k - 1..][1..] == b[k..];
      SubsequenceOfSuffix(a, b, k - 1);
    }
  }

  /** A subsequence is no longer than the sequence and draws only from it. */
  lemma {:induction false} SubsequenceMembers<T>(a: seq<T>, b: seq<T>)
    requires IsSubsequence(a, b)
    ensures |a| <= |b|
    ensures forall x :: x in a ==> x in b
    decreases |b|
  {
    if a != [] {
      if a[0] == b[0] && IsSubsequence(a[1..], b[1..]) {
        SubsequenceMembers(a[1..], b[1..]);
        assert forall x :: x in a ==> x == a[0] || x in a[1..];
      } else {
        SubsequenceMembers(a, b[1..]);
      }
    }
  }

  /**
   * The four diagonal neighbours of (row, col) for a piece moving in row
   * direction `dir`, in the order forward-left, forward-right, back-left,
   * back-right.
   */
  function Diagonals(row: int, col: int, dir: int): (ds: seq<Pos>)
    requires dir == 1 || dir == -1
    ensures |ds| == 4
    ensures forall i :: 0 <= i < 4 ==>
      (ds[i].0 - row == 1 || ds[i].0 - row == -1) && (ds[i].1 - col == 1 || ds[i].1 - col == -1)
    ensures forall i, j :: 0 <= i < j < 4 ==> ds[i] != ds[j]
    ensures ds[0].0 == ds[1].0 == row + dir && ds[2].0 == ds[3].0 == row - dir
  {
    [(row + dir, col + dir), (row + dir, col - dir), (row - dir, col + dir), (row - dir, col - dir)]
  }

  /** A square that holds a piece at the start: `col % 2 == (row + 1) % 2`. */
  predicate StartSquare(row: nat, col: nat)
  {
    col % 2 == (row + 1) % 2
  }

  /** What create_board puts in cell (row, col). */
  ghost predicate InitialCell(cfg: Config, cell: Cell, row: nat, col: nat)
  {
    if StartSquare(row, col) && row < cfg.rows / 2 - 1 then
      cell.Occupied? && cell.piece.color == Black
    else if StartSquare(row, col) && row > cfg.rows / 2 then
      cell.Occupied? && cell.piece.color == White
    else
      cell == Empty
  }

  ghost predicate Shaped(cfg: Config, grid: seq<seq<Cell>>)
  {
    |grid| == cfg.rows && forall r :: 0 <= r < |grid| ==> |grid[r]| == cfg.cols
  }

  ghost predicate InitialLayout(cfg: Config, grid: seq<seq<Cell>>)
    requires Shaped(cfg, grid)
  {
    forall r, c :: 0 <= r < cfg.rows && 0 <= c < cfg.cols ==> InitialCell(cfg, grid[r][c], r, c)
  }

  /** The piece in `cell`, if any, is a valid piece of `pieces` standing at (row, col). */
  ghost predicate Holds(cfg: Config, pieces: set<Piece>, cell: Cell, row: int, col: int)
    reads pieces`row, pieces`col, pieces`distToKing, pieces`x, pieces`y
  {
    cell.Occupied? ==>
      cell.piece in pieces && cell.piece.cfg == cfg &&
      cell.piece.row == row && cell.piece.col == col && cell.piece.Valid()
  }

  /**
   * The layout create_board produces: pieces only on squares with (row + col)
   * odd, BLACK above row rows/2 - 1, WHITE below row rows/2, every other cell
   * empty.
   */
  lemma InitialPlacement(cfg: Config, grid: seq<seq<Cell>>)
    requires Shaped(cfg, grid) && InitialLayout(cfg, grid)
    ensures forall r, c :: 0 <= r < cfg.rows && 0 <= c < cfg.cols ==>
      (grid[r][c].Occupied? <==> (r + c) % 2 == 1 && (r < cfg.rows / 2 - 1 || r > cfg.rows / 2))
    ensures forall r, c :: 0 <= r < cfg.rows && 0 <= c < cfg.cols && grid[r][c].Occupied? ==>
      (grid[r][c].piece.color == Black <==> r < cfg.rows / 2 - 1) &&
      (grid[r][c].piece.color == White <==> r > cfg.rows / 2)
  {
    forall r, c | 0 <= r < cfg.rows && 0 <= c < cfg.cols
      ensures StartSquare(r, c) <==> (r + c) % 2 == 1
    {
      ParityOfStartSquare(r, c);
    }
  }

  lemma ParityOfStartSquare(r: nat, c: nat)
    ensures StartSquare(r, c) <==> (r + c) % 2 == 1
  {
  }

  /** `grid` with cells (r1, c1) and (r2, c2) exchanged. */
  function SwapCells(grid: seq<seq<Cell>>, r1: int, c1: int, r2: int, c2: int): (g: seq<seq<Cell>>)
    requires 0 <= r1 < |grid| && 0 <= c1 < |grid[r1]|
    requires 0 <= r2 < |grid| && 0 <= c2 < |grid[r2]|
    ensures |g| == |grid| && forall r :: 0 <= r < |g| ==> |g[r]| == |grid[r]|
    ensures g[r1][c1] == grid[r2][c2] && g[r2][c2] == grid[r1][c1]
    ensures forall r, c ::
      0 <= r < |g| && 0 <= c < |g[r]| && (r, c) != (r1, c1) && (r, c) != (r2, c2)
      ==> g[r][c] == grid[r][c]
  {
    var first, second := grid[r1][c1], grid[r2][c2];
    var g1 := grid[r1 := grid[r1][c1 := second]];
    g1[r2 := g1[r2][c2 := first]]
  }

  /** Fills a fresh grid row by row, as create_board does. */
  method CreateBoard(cfg: Config) returns (grid: seq<seq<Cell>>, ghost pieces: set<Piece>)
    ensures Shaped(cfg, grid) && InitialLayout(cfg, grid)
    ensures fresh(pieces)
    ensures forall r, c :: 0 <= r < cfg.rows && 0 <= c < cfg.cols ==>
      Holds(cfg, pieces, grid[r][c], r, c) && (grid[r][c].Occupied? ==> !grid[r][c].piece.king)
  {
    grid, pieces := [], {};
    var row := 0;
    while row < cfg.rows
      invariant 0 <= row <= cfg.rows && |grid| == row
      invariant forall r :: 0 <= r < row ==> |grid[r]| == cfg.cols
      invariant fresh(pieces)
      invariant forall r, c :: 0 <= r < row && 0 <= c < cfg.cols ==>
        InitialCell(cfg, grid[r][c], r, c) && Holds(cfg, pieces, grid[r][c], r, c) &&
        (grid[r][c].Occupied? ==> !grid[r][c].piece.king)
    {
      var line: seq<Cell> := [];
      var col := 0;
      while col < cfg.cols
        invariant 0 <= col <= cfg.cols && |line| == col
        invariant fresh(pieces)
        invariant forall r, c :: 0 <= r < row && 0 <= c < cfg.cols ==>
          Holds(cfg, pieces, grid[r][c], r, c) && (grid[r][c].Occupied? ==> !grid[r][c].piece.king)
        invariant forall c :: 0 <= c < col ==>
          InitialCell(cfg, line[c], row, c) && Holds(cfg, pieces, line[c], row, c) &&
          (line[c].Occupied? ==> !line[c].piece.king)
      {
        var cell := Empty;
        if col % 2 == (row + 1) % 2 {
          if row < cfg.rows / 2 - 1 {
            var p := new Piece(row, col, Black, cfg);
            pieces := pieces + {p};
            cell := Occupied(p);
          } else if row > cfg.rows / 2 {
            var p := new Piece(row, col, White, cfg);
            pieces := pieces + {p};
            cell := Occupied(p);
          }
        }
        line := line + [cell];
        col := col + 1;
      }
      grid := grid + [line];
      row := row + 1;
    }
  }

  class Board {
    const cfg: Config
    var grid: seq<seq<Cell>>
    var whiteLeft: int
    var blackLeft: int
    var whiteKings: int
    var blackKings: int
    /** Every piece that has been placed on this board. */
    ghost var pieces: set<Piece>

    /** The grid has the configured shape and every piece stands where its cell is. */
    ghost predicate Valid()
      reads this`grid, this`pieces, pieces`row, pieces`col, pieces`distToKing, pieces`x, pieces`y
    {
      Shaped(cfg, grid) &&
      forall r, c :: 0 <= r < cfg.rows && 0 <= c < cfg.cols ==> Holds(cfg, pieces, grid[r][c], r, c)
    }

    /** Every occupied cell is a dark square, (row + col) odd. */
    ghost predicate Playable()
      reads this`grid
      requires Shaped(cfg, grid)
    {
      forall r, c :: 0 <= r < cfg.rows && 0 <= c < cfg.cols && grid[r][c].Occupied? ==> (r + c) % 2 == 1
    }

    constructor (cfg: Config)
      ensures Valid() && this.cfg == cfg && fresh(pieces)
      ensures InitialLayout(cfg, grid) && Playable()
      ensures forall r, c :: 0 <= r < cfg.rows && 0 <= c < cfg.cols && grid[r][c].Occupied? ==>
        !grid[r][c].piece.king
      ensures whiteLeft == blackLeft == INITIAL_PIECES && whiteKings == blackKings == 0
    {
      this.cfg := cfg;
      whiteLeft, blackLeft := INITIAL_PIECES, INITIAL_PIECES;
      whiteKings, blackKings := 0, 0;
      var g;
      ghost var ps;
      g, ps := CreateBoard(cfg);
      grid, pieces := g, ps;
      new;
      InitialPlacement(cfg, grid);
    }

    /** The bounds check guarding every grid access. */
    predicate IsOutsideBoard(row: int, col: int)
      reads this
      ensures Shaped(cfg, grid) ==>
        (IsOutsideBoard(row, col) <==> !(0 <= row < |grid| && 0 <= col < |grid[row]|))
    {
      row < 0 || col < 0 || row >= cfg.rows || col >= cfg.cols
    }

    /** The cell at (row, col); a piece found there stands at (row, col). */
    function GetPiece(row: int, col: int): (cell: Cell)
      reads this, pieces
      requires Valid() && !IsOutsideBoard(row, col)
      ensures cell.Occupied? ==> cell.piece in pieces && cell.piece.row == row && cell.piece.col == col
    {
      grid[row][col]
    }

    /** (row, col) is on the board and empty. */
    ghost predicate Free(row: int, col: int)
      reads this
    {
      Shaped(cfg, grid) && !IsOutsideBoard(row, col) && grid[row][col] == Empty
    }

    /**
     * Relocates `piece` to the empty cell (newRow, newCol) by swapping the two
     * cells, then crowns a WHITE piece reaching row 0 or a BLACK piece reaching
     * the last row, counting the new king.
     */
    method Move(piece: Piece, newRow: int, newCol: int)
      requires Valid() && piece.Valid()
      requires !IsOutsideBoard(piece.row, piece.col) && grid[piece.row][piece.col] == Occupied(piece)
      requires !IsOutsideBoard(newRow, newCol) && grid[newRow][newCol] == Empty
      modifies this, piece
      ensures Valid() && pieces == old(pieces)
      ensures old(Playable()) && (newRow + newCol) % 2 == 1 ==> Playable()
      ensures grid[newRow][newCol] == Occupied(piece) && grid[old(piece.row)][old(piece.col)] == Empty
      ensures forall r, c ::
        0 <= r < cfg.rows && 0 <= c < cfg.cols &&
        (r, c) != (newRow, newCol) && (r, c) != (old(piece.row), old(piece.col))
        ==> grid[r][c] == old(grid[r][c])
      ensures piece.row == newRow && piece.col == newCol
      ensures Promoted(piece, newRow, old(piece.king), old(whiteLeft), old(blackLeft), old(whiteKings), old(blackKings))
    {
      Relocate(piece, newRow, newCol);
      if newRow == 0 && piece.color == White && !piece.king {
        piece.MakeKing();
        whiteKings := whiteKings + 1;
      } else if newRow == cfg.rows - 1 && piece.color == Black && !piece.king {
        piece.MakeKing();
        blackKings := blackKings + 1;
      }
    }

    /**
     * The crowning and the counters after `piece`, a king before iff
     * `wasKing`, moved to `row` on a board whose counters were (wl, bl, wk,
     * bk): it is a king iff it was one or `row` is its promotion row, the
     * king counter of its colour rises by one iff it was crowned now, and
     * no other counter changes.
     */
    ghost predicate Promoted(piece: Piece, row: int, wasKing: bool, wl: int, bl: int, wk: int, bk: int)
      reads this`whiteLeft, this`blackLeft, this`whiteKings, this`blackKings, piece`king
    {
      piece.king == (wasKing || row == PromotionRow(cfg, piece.color)) &&
      whiteKings == wk + (if !wasKing && piece.color == White && row == 0 then 1 else 0) &&
      blackKings == bk + (if !wasKing && piece.color == Black && row == cfg.rows - 1 then 1 else 0) &&
      whiteLeft == wl && blackLeft == bl
    }

    /** The grid and position half of Move: swap the two cells and move the piece. */
    method Relocate(piece: Piece, newRow: int, newCol: int)
      requires Valid() && piece.Valid()
      requires !IsOutsideBoard(piece.row, piece.col) && grid[piece.row][piece.col] == Occupied(piece)
      requires !IsOutsideBoard(newRow, newCol) && grid[newRow][newCol] == Empty
      modifies this`grid, piece`row, piece`col, piece`x, piece`y, piece`distToKing
      ensures Valid()
      ensures old(Playable()) && (newRow + newCol) % 2 == 1 ==> Playable()
      ensures grid[newRow][newCol] == Occupied(piece) && grid[old(piece.row)][old(piece.col)] == Empty
      ensures forall r, c ::
        0 <= r < cfg.rows && 0 <= c < cfg.cols &&
        (r, c) != (newRow, newCol) && (r, c) != (old(piece.row), old(piece.col))
        ==> grid[r][c] == old(grid[r][c])
      ensures piece.row == newRow && piece.col == newCol
    {
      var oldRow, oldCol := piece.row, piece.col;
      ghost var before: seq<seq<Cell>> := grid;
      assert forall r, c ::
        0 <= r < cfg.rows && 0 <= c < cfg.cols && (r, c) != (oldRow, oldCol) && before[r][c].Occupied?
        ==> before[r][c].piece != piece;
      grid := SwapCells(grid, oldRow, oldCol, newRow, newCol);
      piece.Move(newRow, newCol);
      forall r, c | 0 <= r < cfg.rows && 0 <= c < cfg.cols
        ensures Holds(cfg, pieces, grid[r][c], r, c)
      {
        if (r, c) != (newRow, newCol) && (r, c) != (oldRow, oldCol) {
          assert grid[r][c] == before[r][c];
          assert old(Holds(cfg, pieces, before[r][c], r, c));
        }
      }
    }

    /**
     * `moves` lists, in the order forward-left, forward-right, back-left,
     * back-right, exactly those diagonal neighbours of `piece` that are on the
     * board and empty.
     */
    ghost predicate StepsFor(piece: Piece, moves: seq<Pos>)
      reads this, piece
      requires piece.direction == 1 || piece.direction == -1
    {
      ghost var ds := Diagonals(piece.row, piece.col, piece.direction);
      IsSubsequence(moves, ds) && forall d :: d in moves <==> d in ds && Free(d.0, d.1)
    }

    /** One step of the move generator: keep candidate `d` iff it is on the board and empty. */
    method AppendIfFree(moves: seq<Pos>, ghost seen: seq<Pos>, d: Pos) returns (result: seq<Pos>)
      requires Valid()
      requires IsSubsequence(moves, seen)
      requires forall x :: x in moves <==> x in seen && Free(x.0, x.1)
      ensures IsSubsequence(result, seen + [d])
      ensures forall x :: x in result <==> x in seen + [d] && Free(x.0, x.1)
    {
      SubsequenceExtend(moves, seen, d);
      result := moves;
      if !IsOutsideBoard(d.0, d.1) && GetPiece(d.0, d.1) == Empty {
        result := moves + [d];
      }
    }

    /** The cells a non-king piece may step to. */
    method GetValidMoves(piece: Piece) returns (moves: seq<Pos>)
      requires Valid() && piece.Valid() && !piece.king
      ensures StepsFor(piece, moves)
      ensures |moves| <= 4
    {
      var forwardLeft := (piece.row + piece.direction, piece.col + piece.direction);
      var forwardRight := (piece.row + piece.direction, piece.col - piece.direction);
      var backLeft := (piece.row - piece.direction, piece.col + piece.direction);
      var backRight := (piece.row - piece.direction, piece.col - piece.direction);
      ghost var ds := Diagonals(piece.row, piece.col, piece.direction);
      moves := [];
      ghost var seen: seq<Pos> := [];
      moves := AppendIfFree(moves, seen, forwardLeft);
      seen := seen + [forwardLeft];
      moves := AppendIfFree(moves, seen, forwardRight);
      seen := seen + [forwardRight];
      moves := AppendIfFree(moves, seen, backLeft);
      seen := seen + [backLeft];
      moves := AppendIfFree(moves, seen, backRight);
      seen := seen + [backRight];
      assert seen == ds;
      SubsequenceMembers(moves, ds);
    }
  }
}
