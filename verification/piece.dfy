/**
 * A checkers piece: its colour, its cell, whether it is a king, and the
 * bookkeeping derived from the cell (distance to the promotion row and the
 * pixel centre used for drawing).
 */
module Pieces {

  /** The two sides. WHITE moves towards row 0, BLACK towards the last row. */
  datatype Color = White | Black

  /** The board dimensions and the pixel size of one square. */
  datatype Config = Config(rows: nat, cols: nat, squareSize: nat)

  function Opponent(c: Color): (o: Color)
    ensures o != c
  {
    if c == White then Black else White
  }

  /** The row on which a piece of colour `c` is crowned. */
  function PromotionRow(cfg: Config, c: Color): int
  {
    if c == White then 0 else cfg.rows - 1
  }

  /** Row step of a forward move: -1 for WHITE, +1 for every other colour. */
  function Direction(c: Color): (d: int)
    ensures d == 1 || d == -1
    ensures d == -1 <==> c == White
  {
    if c == White then -1 else 1
  }

  /** Number of rows still to travel before reaching the promotion row. */
  function DistToKing(cfg: Config, c: Color, row: int): (d: int)
    ensures 0 <= row < cfg.rows ==> 0 <= d <= cfg.rows - 1
    ensures d == 0 <==> row == PromotionRow(cfg, c)
    ensures row == PromotionRow(cfg, c) - Direction(c) * d
  {
    if c == White then row else cfg.rows - row - 1
  }

  /**
   * Pixel coordinate of the centre of square number `i`; dividing it by the
   * square size (as the mouse handler does) gives `i` back.
   */
  function Centre(cfg: Config, i: int): (p: int)
    ensures cfg.squareSize > 0 ==> i * cfg.squareSize <= p < (i + 1) * cfg.squareSize
    ensures cfg.squareSize > 0 ==> p / cfg.squareSize == i
  {
    var p := cfg.squareSize * i + cfg.squareSize / 2;
    if cfg.squareSize > 0 then
      DivInside(p, i, cfg.squareSize, cfg.squareSize / 2);
      p
    else
      p
  }

  /** `q * s + h` with `0 <= h < s` lies in square `q` and divides back to `q`. */
  lemma DivInside(p: int, q: int, s: int, h: int)
    requires s > 0 && 0 <= h < s && p == s * q + h
    ensures q * s <= p < (q + 1) * s
    ensures p / s == q
  {
    var k := p / s - q;
    assert k * s == h - p % s;
    MulBounds(k, s);
  }

  lemma MulBounds(k: int, s: int)
    requires s > 0
    ensures k >= 1 ==> k * s >= s
    ensures k <= -1 ==> k * s <= -s
  {
  }

  class Piece {
    const cfg: Config
    const color: Color
    const direction: int
    var row: int
    var col: int
    var king: bool
    var distToKing: int
    var x: int
    var y: int

    /** The derived fields agree with the colour and the cell. */
    ghost predicate Valid()
      reads this`row, this`col, this`distToKing, this`x, this`y
    {
      direction == Direction(color) &&
      distToKing == DistToKing(cfg, color, row) &&
      x == Centre(cfg, col) && y == Centre(cfg, row)
    }

    constructor (row: int, col: int, color: Color, cfg: Config)
      ensures Valid()
      ensures this.row == row && this.col == col
      ensures this.color == color && this.cfg == cfg
      ensures !king
    {
      this.row := row;
      this.col := col;
      this.color := color;
      this.cfg := cfg;
      this.king := false;
      this.direction := Direction(color);
      this.distToKing := DistToKing(cfg, color, row);
      this.x := 0;
      this.y := 0;
      new;
      CalculatePosition();
    }

    /** Recomputes the pixel centre and the distance to the promotion row. */
    method CalculatePosition()
      requires direction == Direction(color)
      modifies this`x, this`y, this`distToKing
      ensures Valid()
    {
      x := Centre(cfg, col);
      y := Centre(cfg, row);
      distToKing := DistToKing(cfg, color, row);
    }

    method MakeKing()
      modifies this`king
      ensures king
    {
      king := true;
    }

    /** Relocates the piece; colour, king flag and direction are untouched. */
    method Move(newRow: int, newCol: int)
      requires Valid()
      modifies this`row, this`col, this`x, this`y, this`distToKing
      ensures Valid()
      ensures row == newRow && col == newCol && king == old(king)
    {
      row := newRow;
      col := newCol;
      CalculatePosition();
    }
  }
}
