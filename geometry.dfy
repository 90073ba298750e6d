/**
  * Board geometry: the configuration constants of the LED board, the pixel
  * sizes derived from them, where each tile and each dot is placed, and how a
  * click position is mapped back to a cell.
  */
module Geometry {
  import opened Wrappers

  // ---------- grid / tile constants ----------
  const ROWS: int := 4
  const COLS: int := 10
  const DOT_W: int := 5
  const DOT_H: int := 7
  const DOT_SIZE: int := 10
  const DOT_GAP: int := 4
  const TILE_PAD: int := 6
  const TILE_GAP: int := 6
  const OUTER_PAD: int := 10

  /** Height, in pixels, of the frame the host page reserves for the board. */
  const HOST_FRAME_HEIGHT: int := 462

  // ---------- derived sizes ----------
  // The sizes below are derived from the constants above by the formulas of
  // TileInnerW .. TileH and BoardW/BoardH. They are stated here by value, so
  // that the solver sees plain numbers; lemma DerivedSizes proves each value
  // equal to its formula.

  function TileInnerW(): int { DOT_W * DOT_SIZE + (DOT_W - 1) * DOT_GAP }
  function TileInnerH(): int { DOT_H * DOT_SIZE + (DOT_H - 1) * DOT_GAP }
  function TileW(): int { TileInnerW() + TILE_PAD * 2 }
  function TileH(): int { TileInnerH() + TILE_PAD * 2 }
  function BoardW(): int { OUTER_PAD * 2 + COLS * TileW() + (COLS - 1) * TILE_GAP }
  function BoardH(): int { OUTER_PAD * 2 + ROWS * TileH() + (ROWS - 1) * TILE_GAP }

  const TILE_WIDTH: int := 78
  const TILE_HEIGHT: int := 106

  const BOARD_WIDTH: int := 854
  const BOARD_HEIGHT: int := 462

  /** The canvas is allocated 8 pixels larger than the board in each direction. */
  const CANVAS_WIDTH: int := 862
  const CANVAS_HEIGHT: int := 470

  /** Horizontal and vertical distance between the origins of neighbouring tiles. */
  const COL_STEP: int := 84
  const ROW_STEP: int := 112

  // ---------- placement ----------

  /** A board cell, addressed by row and column; (-1, -1) stands for "no cell". */
  datatype Cell = Cell(r: int, c: int)

  const UNSET: Cell := Cell(-1, -1)

  predicate InBounds(cell: Cell) {
    0 <= cell.r < ROWS && 0 <= cell.c < COLS
  }

  /** Left edge of the tiles of column c. */
  function TileX(c: int): int { OUTER_PAD + c * COL_STEP }

  /** Top edge of the tiles of row r. */
  function TileY(r: int): int { OUTER_PAD + r * ROW_STEP }

  /** Left edge of dot column gx inside a tile whose left edge is x. */
  function DotX(x: int, gx: int): int { x + TILE_PAD + gx * (DOT_SIZE + DOT_GAP) }

  /** Top edge of dot row gy inside a tile whose top edge is y. */
  function DotY(y: int, gy: int): int { y + TILE_PAD + gy * (DOT_SIZE + DOT_GAP) }

  /**
    * The slot of a cell: its tile together with the gap to its right and
    * below it. Slots tile the board without overlap.
    */
  predicate InSlot(px: int, py: int, cell: Cell) {
    TileX(cell.c) <= px < TileX(cell.c) + COL_STEP &&
    TileY(cell.r) <= py < TileY(cell.r) + ROW_STEP
  }

  /** The rectangle covered by the slots of all cells. */
  predicate InGrid(px: int, py: int) {
    OUTER_PAD <= px < OUTER_PAD + COLS * COL_STEP &&
    OUTER_PAD <= py < OUTER_PAD + ROWS * ROW_STEP
  }

  /**
    * The cell a click at canvas-local pixel (px, py) lands on: the outer
    * padding is subtracted and each offset is floor-divided by the tile pitch;
    * a result outside the grid selects nothing. Dafny's `/` with a positive
    * divisor is floor division, as Math.floor of the quotient is.
    */
  function CellAt(px: int, py: int): (hit: Option<Cell>)
    ensures hit.Some? <==> InGrid(px, py)
    ensures hit.Some? ==> InBounds(hit.value) && InSlot(px, py, hit.value)
  {
    var c := (px - OUTER_PAD) / COL_STEP;
    var r := (py - OUTER_PAD) / ROW_STEP;
    if 0 <= r < ROWS && 0 <= c < COLS then Some(Cell(r, c)) else None
  }

  // ---------- properties of the geometry ----------

  /**
    * The stated sizes are the derived ones: a tile's dot area is DOT_W dots
    * and DOT_W - 1 gaps wide (66 x 94), a tile adds TILE_PAD on each side
    * (78 x 106), the board is COLS tiles, COLS - 1 gaps and OUTER_PAD on each
    * side (854 x 462), the canvas adds 8, and the host frame is exactly as
    * tall as the board.
    */
  lemma DerivedSizes()
    ensures TileInnerW() == 66 && TileInnerH() == 94
    ensures TILE_WIDTH == TileW() && TILE_HEIGHT == TileH()
    ensures BOARD_WIDTH == BoardW() && BOARD_HEIGHT == BoardH()
    ensures CANVAS_WIDTH == BOARD_WIDTH + 8 && CANVAS_HEIGHT == BOARD_HEIGHT + 8
    ensures COL_STEP == TILE_WIDTH + TILE_GAP && ROW_STEP == TILE_HEIGHT + TILE_GAP
    ensures BOARD_HEIGHT == HOST_FRAME_HEIGHT
  {
  }

  /**
    * The board is exactly its outer padding around the tiles: the last tile of
    * a row (column) ends OUTER_PAD pixels before the board's edge, and every
    * tile lies inside that padding.
    */
  lemma TilesFillBoard(cell: Cell)
    requires InBounds(cell)
    ensures TileX(COLS - 1) + TILE_WIDTH + OUTER_PAD == BOARD_WIDTH
    ensures TileY(ROWS - 1) + TILE_HEIGHT + OUTER_PAD == BOARD_HEIGHT
    ensures OUTER_PAD <= TileX(cell.c) && TileX(cell.c) + TILE_WIDTH <= BOARD_WIDTH - OUTER_PAD
    ensures OUTER_PAD <= TileY(cell.r) && TileY(cell.r) + TILE_HEIGHT <= BOARD_HEIGHT - OUTER_PAD
  {
  }

  /**
    * Dot (gx, gy) of a tile with origin (x, y) lies in the tile's padded inner
    * area; the last dot of a row (column) ends exactly at the inner area's edge,
    * which is TILE_PAD pixels inside the tile.
    */
  lemma DotsInsideTile(x: int, y: int, gx: int, gy: int)
    requires 0 <= gx < DOT_W && 0 <= gy < DOT_H
    ensures x + TILE_PAD <= DotX(x, gx) && DotX(x, gx) + DOT_SIZE <= x + TILE_PAD + TileInnerW()
    ensures y + TILE_PAD <= DotY(y, gy) && DotY(y, gy) + DOT_SIZE <= y + TILE_PAD + TileInnerH()
    ensures DotX(x, DOT_W - 1) + DOT_SIZE == x + TILE_PAD + TileInnerW()
    ensures DotY(y, DOT_H - 1) + DOT_SIZE == y + TILE_PAD + TileInnerH()
    ensures x + TILE_PAD + TileInnerW() + TILE_PAD == x + TILE_WIDTH
    ensures y + TILE_PAD + TileInnerH() + TILE_PAD == y + TILE_HEIGHT
  {
  }

  /** Click mapping inverts tile placement: every point of a cell's slot maps back to that cell. */
  lemma ClickRoundTrip(cell: Cell, dx: int, dy: int)
    requires InBounds(cell)
    requires 0 <= dx < COL_STEP && 0 <= dy < ROW_STEP
    ensures CellAt(TileX(cell.c) + dx, TileY(cell.r) + dy) == Some(cell)
  {
    var px, py := TileX(cell.c) + dx, TileY(cell.r) + dy;
    assert InGrid(px, py);
    var hit := CellAt(px, py).value;
    SlotsDisjoint(px, py, hit, cell);
  }

  /** A point lies in the slot of at most one cell. */
  lemma SlotsDisjoint(px: int, py: int, a: Cell, b: Cell)
    requires InSlot(px, py, a) && InSlot(px, py, b)
    ensures a == b
  {
  }
}
