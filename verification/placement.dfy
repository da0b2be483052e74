/**
 * The falling piece and the one predicate every move is checked against
 * (`Game.is_valid_move`), baking a piece into the grid, and where a hard drop lands.
 */
module Placement {
  import opened Common
  import opened Shapes
  import opened Board

  /** A `Block` used as a falling piece: grid position of its pattern's top-left square, colour, shape. */
  datatype Piece = Piece(x: int, y: int, color: Color, shape: Option<BlockShape>)

  /** `Block.moved`: the same piece shifted by (dx, dy). */
  function Moved(b: Piece, dx: int, dy: int): Piece
  {
    b.(x := b.x + dx, y := b.y + dy)
  }

  /** The piece's pattern has at least one occupied square. */
  predicate HasSquare(b: Piece)
  {
    b.shape.Some? &&
    var p := b.shape.value.blocks;
    exists i, j | 0 <= i < |p| && 0 <= j < |p[i]| :: At(p, i, j)
  }

  /** Square (i, j) of the piece, shifted by (dx, dy), lies on the grid. */
  predicate Inside(cfg: Config, b: Piece, i: int, j: int, dx: int, dy: int)
  {
    0 <= b.x + j + dx < cfg.width && 0 <= b.y + i + dy < cfg.height
  }

  /** Square (i, j) of the piece, shifted by (dx, dy), lies on the grid on an empty slot. */
  predicate FreeAt(cfg: Config, g: Grid, b: Piece, i: int, j: int, dx: int, dy: int)
    requires Shaped(g, cfg)
  {
    Inside(cfg, b, i, j, dx, dy) && g[b.y + i + dy][b.x + j + dx].None?
  }

  /** The piece has a shape and each of its occupied squares, shifted by (dx, dy), lies on the grid. */
  predicate InBounds(cfg: Config, b: Piece, dx: int, dy: int)
  {
    b.shape.Some? &&
    var p := b.shape.value.blocks;
    forall i, j | 0 <= i < |p| && 0 <= j < |p[i]| && p[i][j] :: Inside(cfg, b, i, j, dx, dy)
  }

  /**
   * What `is_valid_move(block, dx, dy)` decides: the piece has a shape and
   * every occupied square, shifted by (dx, dy), is an empty slot of the grid.
   */
  predicate IsValidMove(cfg: Config, g: Grid, b: Piece, dx: int, dy: int)
    requires Shaped(g, cfg)
  {
    b.shape.Some? &&
    var p := b.shape.value.blocks;
    forall i, j | 0 <= i < |p| && 0 <= j < |p[i]| && p[i][j] :: FreeAt(cfg, g, b, i, j, dx, dy)
  }

  /**
   * `is_valid_move` as the source runs it: scan the pattern row by row and
   * stop at the first occupied square that is off the grid or on a taken slot.
   */
  method CheckMove(cfg: Config, g: Grid, b: Piece, dx: int, dy: int) returns (ok: bool)
    requires Shaped(g, cfg)
    ensures ok <==> IsValidMove(cfg, g, b, dx, dy)
  {
    if b.shape.None? {
      return false;
    }
    var p := b.shape.value.blocks;
    var i := 0;
    while i < |p|
      invariant 0 <= i <= |p|
      invariant forall i', j | 0 <= i' < i && 0 <= j < |p[i']| && p[i'][j] :: FreeAt(cfg, g, b, i', j, dx, dy)
    {
      var j := 0;
      while j < |p[i]|
        invariant 0 <= j <= |p[i]|
        invariant forall i', j' | 0 <= i' < i && 0 <= j' < |p[i']| && p[i'][j'] ::
          FreeAt(cfg, g, b, i', j', dx, dy)
        invariant forall j' | 0 <= j' < j && p[i][j'] :: FreeAt(cfg, g, b, i, j', dx, dy)
      {
        if p[i][j] {
          var newX := b.x + j + dx;
          var newY := b.y + i + dy;
          if !(0 <= newX < cfg.width && 0 <= newY < cfg.height) {
            assert !FreeAt(cfg, g, b, i, j, dx, dy);
            return false;
          }
          if newY >= 0 && g[newY][newX].Some? {
            assert !FreeAt(cfg, g, b, i, j, dx, dy);
            return false;
          }
        }
        j := j + 1;
      }
      i := i + 1;
    }
    return true;
  }

  /** Checking a shifted piece is checking the piece at the summed offset. */
  lemma ValidMoveShift(cfg: Config, g: Grid, b: Piece, dx: int, dy: int, ex: int, ey: int)
    requires Shaped(g, cfg)
    ensures IsValidMove(cfg, g, Moved(b, dx, dy), ex, ey) <==> IsValidMove(cfg, g, b, dx + ex, dy + ey)
  {
    var b' := Moved(b, dx, dy);
    if b.shape.Some? {
      var p := b.shape.value.blocks;
      forall i, j | 0 <= i < |p| && 0 <= j < |p[i]| && p[i][j]
        ensures FreeAt(cfg, g, b', i, j, ex, ey) <==> FreeAt(cfg, g, b, i, j, dx + ex, dy + ey)
      {
        assert b'.x + j + ex == b.x + j + (dx + ex);
        assert b'.y + i + ey == b.y + i + (dy + ey);
      }
    }
  }

  /**
   * The squares of row `i` of the piece's pattern, from column `j` on, written
   * into the grid as cells of the piece's colour that record where they are.
   */
  function BakeRow(cfg: Config, g: Grid, b: Piece, i: nat, j: nat): (r: Grid)
    requires Shaped(g, cfg) && InBounds(cfg, b, 0, 0)
    requires i < |b.shape.value.blocks| && j <= |b.shape.value.blocks[i]|
    ensures Shaped(r, cfg)
    ensures forall gy, gx | 0 <= gy < cfg.height && 0 <= gx < cfg.width ::
      r[gy][gx] ==
        if gy == b.y + i && b.x + j <= gx && At(b.shape.value.blocks, i, gx - b.x)
        then Some(Cell(gx, gy, b.color)) else g[gy][gx]
    decreases |b.shape.value.blocks[i]| - j
  {
    var p := b.shape.value.blocks;
    if j == |p[i]| then g
    else
      var g' :=
        if p[i][j] then
          assert Inside(cfg, b, i, j, 0, 0);
          g[b.y + i := g[b.y + i][b.x + j := Some(Cell(b.x + j, b.y + i, b.color))]]
        else g;
      BakeRow(cfg, g', b, i, j + 1)
  }

  /** Rows `i..` of the piece's pattern written into the grid. */
  function BakeRows(cfg: Config, g: Grid, b: Piece, i: nat): (r: Grid)
    requires Shaped(g, cfg) && InBounds(cfg, b, 0, 0)
    requires i <= |b.shape.value.blocks|
    ensures Shaped(r, cfg)
    ensures forall gy, gx | 0 <= gy < cfg.height && 0 <= gx < cfg.width ::
      r[gy][gx] ==
        if gy - b.y >= i && At(b.shape.value.blocks, gy - b.y, gx - b.x)
        then Some(Cell(gx, gy, b.color)) else g[gy][gx]
    decreases |b.shape.value.blocks| - i
  {
    if i == |b.shape.value.blocks| then g
    else BakeRows(cfg, BakeRow(cfg, g, b, i, 0), b, i + 1)
  }

  /**
   * The first half of `place_block`: every occupied square of the piece
   * becomes a cell of the piece's colour at its absolute position; every
   * other slot is left as it was.
   */
  function Bake(cfg: Config, g: Grid, b: Piece): (r: Grid)
    requires Shaped(g, cfg) && InBounds(cfg, b, 0, 0)
    ensures Shaped(r, cfg)
    ensures forall gy, gx | 0 <= gy < cfg.height && 0 <= gx < cfg.width ::
      r[gy][gx] ==
        if At(b.shape.value.blocks, gy - b.y, gx - b.x)
        then Some(Cell(gx, gy, b.color)) else g[gy][gx]
    ensures SelfLocated(g) ==> SelfLocated(r)
  {
    BakeRows(cfg, g, b, 0)
  }

  /**
   * Where the `hard_drop` loop leaves the piece: it moves straight down while
   * the next row down is valid, so every row passed on the way is valid and
   * one more row down is not.
   */
  function Landing(cfg: Config, g: Grid, b: Piece): (l: Piece)
    requires Shaped(g, cfg) && HasSquare(b)
    ensures l.x == b.x && l.y >= b.y && l.color == b.color && l.shape == b.shape
    ensures !IsValidMove(cfg, g, l, 0, 1)
    ensures forall d :: 0 < d <= l.y - b.y ==> IsValidMove(cfg, g, b, 0, d)
    ensures IsValidMove(cfg, g, b, 0, 0) ==> IsValidMove(cfg, g, l, 0, 0)
    decreases cfg.height - b.y
  {
    if IsValidMove(cfg, g, b, 0, 1) then
      assert cfg.height - b.y > 1 by {
        var p := b.shape.value.blocks;
        var i, j :| 0 <= i < |p| && 0 <= j < |p[i]| && At(p, i, j);
        assert FreeAt(cfg, g, b, i, j, 0, 1);
      }
      var below := Moved(b, 0, 1);
      var l := Landing(cfg, g, below);
      ValidMoveShift(cfg, g, b, 0, 1, 0, 0);
      forall d | 0 < d <= l.y - b.y
        ensures IsValidMove(cfg, g, b, 0, d)
      {
        ValidMoveShift(cfg, g, b, 0, 1, 0, d - 1);
      }
      l
    else b
  }
}
