/**
  * Rendering, as the sequence of paint operations a redraw issues: the
  * canvas background, then for every cell, row by row, the tile's face and its
  * DOT_H x DOT_W dots, each lit or unlit as the character's pattern says, and
  * the highlight outline right after the active cell's tile. Colours, arcs and
  * line widths are not modelled; the positions and the lit flags are.
  */
module Render {
  import opened Geometry
  import opened Font
  import opened Input

  datatype Paint =
    | Background(w: int, h: int)           // the whole canvas filled with the background colour
    | TileFace(x: int, y: int)             // a TILE_WIDTH x TILE_HEIGHT tile filled and outlined
    | Dot(x: int, y: int, on: bool)        // one DOT_SIZE dot whose bounding box starts at (x, y)
    | Highlight(x: int, y: int, w: int, h: int)  // the outline drawn around the active tile

  /** Dot (gx, gy) of glyph g in a tile with origin (x, y). */
  function DotPaint(g: Glyph, x: int, y: int, gy: int, gx: int): Paint
    requires WellFormed(g) && 0 <= gy < DOT_H && 0 <= gx < DOT_W
  {
    Dot(DotX(x, gx), DotY(y, gy), g[gy][gx] == '1')
  }

  /** The first n dots of dot row gy, left to right. */
  function DotRow(g: Glyph, x: int, y: int, gy: int, n: int): (ops: seq<Paint>)
    requires WellFormed(g) && 0 <= gy < DOT_H && 0 <= n <= DOT_W
    ensures |ops| == n
    ensures forall i :: 0 <= i < n ==> ops[i].Dot?
  {
    if n == 0 then [] else DotRow(g, x, y, gy, n - 1) + [DotPaint(g, x, y, gy, n - 1)]
  }

  /** The dots of the first m dot rows, top to bottom. */
  function DotRows(g: Glyph, x: int, y: int, m: int): (ops: seq<Paint>)
    requires WellFormed(g) && 0 <= m <= DOT_H
    ensures |ops| == m * DOT_W
    ensures forall i :: 0 <= i < |ops| ==> ops[i].Dot?
  {
    if m == 0 then [] else DotRows(g, x, y, m - 1) + DotRow(g, x, y, m - 1, DOT_W)
  }

  /** A tile for character ch with origin (x, y): its face, then all its dots. */
  function TilePaint(ch: char, x: int, y: int): seq<Paint> {
    [TileFace(x, y)] + DotRows(Pattern(ch), x, y, DOT_H)
  }

  /** The outline drawn around a tile with origin (x, y): one pixel outside it all round. */
  function HighlightAround(x: int, y: int): Paint {
    Highlight(x - 1, y - 1, TILE_WIDTH + 2, TILE_HEIGHT + 2)
  }

  /** The outline drawn around the tile of a cell. */
  function HighlightOf(cell: Cell): Paint {
    HighlightAround(TileX(cell.c), TileY(cell.r))
  }

  /** The highlight of cell (r, c) when it is the active cell, and nothing otherwise. */
  function HighlightIf(active: Cell, r: int, c: int): seq<Paint> {
    if active == Cell(r, c) then [HighlightAround(TileX(c), TileY(r))] else []
  }

  /** A ROWS x COLS grid of paint sequences, one per cell. */
  predicate IsTileGrid(tiles: seq<seq<seq<Paint>>>) {
    |tiles| == ROWS && forall r :: 0 <= r < |tiles| ==> |tiles[r]| == COLS
  }

  /** The tile of every cell of the board: the cell's character drawn at the cell's origin. */
  function Tiles(v: View): (tiles: seq<seq<seq<Paint>>>)
    requires Shaped(v)
    ensures IsTileGrid(tiles)
  {
    seq(ROWS, r requires 0 <= r < ROWS =>
      seq(COLS, c requires 0 <= c < COLS => TilePaint(v.grid[r][c], TileX(c), TileY(r))))
  }

  /** The tile of cell (r, c) is the cell's character drawn at the cell's tile origin. */
  lemma TileOfBoard(v: View, r: int, c: int)
    requires Shaped(v) && 0 <= r < ROWS && 0 <= c < COLS
    ensures Tiles(v)[r][c] == TilePaint(v.grid[r][c], TileX(c), TileY(r))
  {
  }

  /** One cell: its tile, then the highlight when it is the active cell. */
  function CellPaint(tiles: seq<seq<seq<Paint>>>, active: Cell, r: int, c: int): seq<Paint>
    requires IsTileGrid(tiles) && 0 <= r < ROWS && 0 <= c < COLS
  {
    tiles[r][c] + HighlightIf(active, r, c)
  }

  /** The first n cells of row r. */
  function RowPaint(tiles: seq<seq<seq<Paint>>>, active: Cell, r: int, n: int): seq<Paint>
    requires IsTileGrid(tiles) && 0 <= r < ROWS && 0 <= n <= COLS
  {
    if n == 0 then [] else RowPaint(tiles, active, r, n - 1) + CellPaint(tiles, active, r, n - 1)
  }

  /** The first m rows. */
  function RowsPaint(tiles: seq<seq<seq<Paint>>>, active: Cell, m: int): seq<Paint>
    requires IsTileGrid(tiles) && 0 <= m <= ROWS
  {
    if m == 0 then [] else RowsPaint(tiles, active, m - 1) + RowPaint(tiles, active, m - 1, COLS)
  }

  /** A redraw of a grid of tiles: the background, then every cell row by row. */
  function Layout(tiles: seq<seq<seq<Paint>>>, active: Cell): seq<Paint>
    requires IsTileGrid(tiles)
  {
    [Background(CANVAS_WIDTH, CANVAS_HEIGHT)] + RowsPaint(tiles, active, ROWS)
  }

  /** A full redraw of the board. */
  function Frame(v: View): seq<Paint>
    requires Shaped(v)
  {
    Layout(Tiles(v), v.active)
  }

  /**
    * Draws one tile: the face, then the dots row by row and, within a row,
    * column by column.
    */
  method DrawTile(ch: char, x: int, y: int) returns (ops: seq<Paint>)
    ensures ops == TilePaint(ch, x, y)
  {
    var pattern := Pattern(ch);
    ops := [TileFace(x, y)];
    for gy := 0 to DOT_H
      invariant ops == [TileFace(x, y)] + DotRows(pattern, x, y, gy)
    {
      var row := DrawDotRow(pattern, x, y, gy);
      TileStep(pattern, x, y, gy, ops, row);
      ops := ops + row;
    }
  }

  /** Dot row gy of a tile: each dot, left to right, lit where the pattern has a '1'. */
  method DrawDotRow(pattern: Glyph, x: int, y: int, gy: int) returns (row: seq<Paint>)
    requires WellFormed(pattern) && 0 <= gy < DOT_H
    ensures row == DotRow(pattern, x, y, gy, DOT_W)
  {
    row := [];
    for gx := 0 to DOT_W
      invariant row == DotRow(pattern, x, y, gy, gx)
    {
      var on := pattern[gy][gx] == '1';
      var dx := x + TILE_PAD + gx * (DOT_SIZE + DOT_GAP);
      var dy := y + TILE_PAD + gy * (DOT_SIZE + DOT_GAP);
      row := row + [Dot(dx, dy, on)];
    }
  }

  /** Appending one dot row extends the tile drawn so far by that row. */
  lemma TileStep(g: Glyph, x: int, y: int, gy: int, ops: seq<Paint>, row: seq<Paint>)
    requires WellFormed(g) && 0 <= gy < DOT_H
    requires ops == [TileFace(x, y)] + DotRows(g, x, y, gy) && row == DotRow(g, x, y, gy, DOT_W)
    ensures ops + row == [TileFace(x, y)] + DotRows(g, x, y, gy + 1)
  {
  }

  /** Appending one cell's tile and optional highlight extends the row by that cell. */
  lemma RowStep(tiles: seq<seq<seq<Paint>>>, active: Cell, r: int, c: int, tile: seq<Paint>, mark: seq<Paint>)
    requires IsTileGrid(tiles) && 0 <= r < ROWS && 0 <= c < COLS
    requires tile == tiles[r][c] && mark == HighlightIf(active, r, c)
    ensures RowPaint(tiles, active, r, c + 1) == RowPaint(tiles, active, r, c) + (tile + mark)
  {
  }

  // ---------- properties of a tile ----------

  lemma {:induction false} DotRowAt(g: Glyph, x: int, y: int, gy: int, n: int, gx: int)
    requires WellFormed(g) && 0 <= gy < DOT_H && 0 <= gx < n <= DOT_W
    ensures DotRow(g, x, y, gy, n)[gx] == DotPaint(g, x, y, gy, gx)
    decreases n
  {
    if gx < n - 1 {
      DotRowAt(g, x, y, gy, n - 1, gx);
    }
  }

  lemma {:induction false} DotRowsAt(g: Glyph, x: int, y: int, m: int, gy: int, gx: int)
    requires WellFormed(g) && 0 <= gy < m <= DOT_H && 0 <= gx < DOT_W
    ensures DotRows(g, x, y, m)[gy * DOT_W + gx] == DotPaint(g, x, y, gy, gx)
    decreases m
  {
    if gy < m - 1 {
      DotRowsAt(g, x, y, m - 1, gy, gx);
    } else {
      DotRowAt(g, x, y, gy, DOT_W, gx);
    }
  }

  /**
    * A tile is its face followed by DOT_W * DOT_H dots; the dot at index
    * 1 + gy * DOT_W + gx sits at dot column gx, dot row gy, and is lit exactly
    * when the character's pattern has a '1' there. Every dot lies inside the
    * tile's padded inner area.
    */
  lemma TileDotAt(ch: char, x: int, y: int, gy: int, gx: int)
    requires 0 <= gy < DOT_H && 0 <= gx < DOT_W
    ensures |TilePaint(ch, x, y)| == 1 + DOT_W * DOT_H
    ensures TilePaint(ch, x, y)[0] == TileFace(x, y)
    ensures TilePaint(ch, x, y)[1 + gy * DOT_W + gx] == Dot(DotX(x, gx), DotY(y, gy), Pattern(ch)[gy][gx] == '1')
    ensures x + TILE_PAD <= DotX(x, gx) && DotX(x, gx) + DOT_SIZE <= x + TILE_WIDTH - TILE_PAD
    ensures y + TILE_PAD <= DotY(y, gy) && DotY(y, gy) + DOT_SIZE <= y + TILE_HEIGHT - TILE_PAD
  {
    DotRowsAt(Pattern(ch), x, y, DOT_H, gy, gx);
    DotsInsideTile(x, y, gx, gy);
  }

  /** A character without a table entry is drawn with every dot unlit. */
  lemma UnknownCharDark(ch: char, x: int, y: int, k: int)
    requires ch !in FONT && 1 <= k < |TilePaint(ch, x, y)|
    ensures TilePaint(ch, x, y)[k].Dot? && !TilePaint(ch, x, y)[k].on
  {
    var gy, gx := (k - 1) / DOT_W, (k - 1) % DOT_W;
    TileDotAt(ch, x, y, gy, gx);
  }

  /** A tile is its face at the tile origin followed by dots only: it holds no highlight and no other face. */
  lemma TileShape(ch: char, x: int, y: int)
    ensures |TilePaint(ch, x, y)| > 0 && TilePaint(ch, x, y)[0] == TileFace(x, y)
    ensures forall k :: 1 <= k < |TilePaint(ch, x, y)| ==> TilePaint(ch, x, y)[k].Dot?
  {
    var dots := DotRows(Pattern(ch), x, y, DOT_H);
    forall k | 1 <= k < |TilePaint(ch, x, y)|
      ensures TilePaint(ch, x, y)[k].Dot?
    {
      assert TilePaint(ch, x, y)[k] == dots[k - 1];
    }
  }

  // ---------- highlights in a redraw ----------

  /** Every tile of the grid is the face at its cell's origin followed by dots only. */
  predicate WellDrawn(tiles: seq<seq<seq<Paint>>>)
    requires IsTileGrid(tiles)
  {
    forall r, c :: 0 <= r < ROWS && 0 <= c < COLS ==>
      |tiles[r][c]| > 0 && tiles[r][c][0] == TileFace(TileX(c), TileY(r)) &&
      forall k :: 1 <= k < |tiles[r][c]| ==> tiles[r][c][k].Dot?
  }

  /** The board's tiles are well drawn. */
  lemma TilesWellDrawn(v: View)
    requires Shaped(v)
    ensures WellDrawn(Tiles(v))
  {
    forall r, c | 0 <= r < ROWS && 0 <= c < COLS
      ensures |Tiles(v)[r][c]| > 0 && Tiles(v)[r][c][0] == TileFace(TileX(c), TileY(r))
      ensures forall k :: 1 <= k < |Tiles(v)[r][c]| ==> Tiles(v)[r][c][k].Dot?
    {
      TileOfBoard(v, r, c);
      TileShape(v.grid[r][c], TileX(c), TileY(r));
    }
  }

  lemma {:induction false} RowHighlights(tiles: seq<seq<seq<Paint>>>, active: Cell, r: int, n: int, h: Paint)
    requires IsTileGrid(tiles) && WellDrawn(tiles) && 0 <= r < ROWS && 0 <= n <= COLS && h.Highlight?
    ensures h in RowPaint(tiles, active, r, n) <==> active.r == r && 0 <= active.c < n && h == HighlightOf(active)
    decreases n
  {
    if n > 0 {
      RowHighlights(tiles, active, r, n - 1, h);
      var tile, mark := tiles[r][n - 1], HighlightIf(active, r, n - 1);
      assert RowPaint(tiles, active, r, n) == RowPaint(tiles, active, r, n - 1) + tile + mark;
      assert tile[0] == TileFace(TileX(n - 1), TileY(r)) && forall k :: 1 <= k < |tile| ==> tile[k].Dot?;
      forall k | 0 <= k < |tile|
        ensures tile[k] != h
      {
      }
      assert h in mark <==> active == Cell(r, n - 1) && h == HighlightOf(active);
    }
  }

  lemma {:induction false} RowsHighlights(tiles: seq<seq<seq<Paint>>>, active: Cell, m: int, h: Paint)
    requires IsTileGrid(tiles) && WellDrawn(tiles) && 0 <= m <= ROWS && h.Highlight?
    ensures h in RowsPaint(tiles, active, m) <==> 0 <= active.r < m && 0 <= active.c < COLS && h == HighlightOf(active)
    decreases m
  {
    if m > 0 {
      RowsHighlights(tiles, active, m - 1, h);
      RowHighlights(tiles, active, m - 1, COLS, h);
    }
  }

  /**
    * A redraw outlines the active cell and nothing else: a highlight is
    * painted exactly when a cell is selected, and only around that cell's tile.
    */
  lemma HighlightOnlyOnActive(v: View, h: Paint)
    requires Shaped(v) && h.Highlight?
    ensures h in Frame(v) <==> InBounds(v.active) && h == HighlightOf(v.active)
  {
    TilesWellDrawn(v);
    RowsHighlights(Tiles(v), v.active, ROWS, h);
  }

  // ---------- every cell is drawn ----------

  /** An element of a + b is an element of a or of b, by its index. */
  lemma Split(s: seq<Paint>, a: seq<Paint>, b: seq<Paint>, i: int)
    requires s == a + b && 0 <= i < |s|
    ensures i < |a| ==> s[i] == a[i]
    ensures |a| <= i ==> s[i] == b[i - |a|]
  {
  }

  /** A prefix of b is a prefix of b extended. */
  lemma PrefixExtend(a: seq<Paint>, b: seq<Paint>, x: seq<Paint>, c: seq<Paint>)
    requires a <= b && c == b + x
    ensures a <= c
  {
    assert c[..|a|] == b[..|a|];
  }

  /**
    * Where t sits in whole = h + rows, when rows starts with a + row, row
    * starts with b + cell, and cell starts with t: at k = |h| + |a| + |b|.
    */
  lemma Nested(whole: seq<Paint>, k: int, h: seq<Paint>, a: seq<Paint>, row: seq<Paint>, rows: seq<Paint>,
               b: seq<Paint>, cell: seq<Paint>, t: seq<Paint>)
    requires whole == h + rows && k == |h| + |a| + |b|
    requires a + row <= rows && b + cell <= row && t <= cell
    ensures 0 <= k && k + |t| <= |whole| && whole[k..k + |t|] == t
  {
    forall i | 0 <= i < |t|
      ensures whole[k + i] == t[i]
    {
      calc {
        whole[k + i];
        rows[|a| + |b| + i];
        (a + row)[|a| + |b| + i];
        row[|b| + i];
        (b + cell)[|b| + i];
        cell[i];
      }
    }
  }

  lemma {:induction false} CellInRow(tiles: seq<seq<seq<Paint>>>, active: Cell, r: int, c: int, n: int)
    requires IsTileGrid(tiles) && 0 <= r < ROWS && 0 <= c < n <= COLS
    ensures RowPaint(tiles, active, r, c) + CellPaint(tiles, active, r, c) <= RowPaint(tiles, active, r, n)
    decreases n
  {
    if c < n - 1 {
      CellInRow(tiles, active, r, c, n - 1);
      PrefixExtend(RowPaint(tiles, active, r, c) + CellPaint(tiles, active, r, c), RowPaint(tiles, active, r, n - 1),
                   CellPaint(tiles, active, r, n - 1), RowPaint(tiles, active, r, n));
    }
  }

  lemma {:induction false} RowInRows(tiles: seq<seq<seq<Paint>>>, active: Cell, r: int, m: int)
    requires IsTileGrid(tiles) && 0 <= r < m <= ROWS
    ensures RowsPaint(tiles, active, r) + RowPaint(tiles, active, r, COLS) <= RowsPaint(tiles, active, m)
    decreases m
  {
    if r < m - 1 {
      RowInRows(tiles, active, r, m - 1);
      PrefixExtend(RowsPaint(tiles, active, r) + RowPaint(tiles, active, r, COLS), RowsPaint(tiles, active, m - 1),
                   RowPaint(tiles, active, m - 1, COLS), RowsPaint(tiles, active, m));
    }
  }

  /** Paint sequence t occurs in whole from index k on. */
  predicate SitsAt(whole: seq<Paint>, k: int, t: seq<Paint>) {
    0 <= k && k + |t| <= |whole| && whole[k..k + |t|] == t
  }

  /** An element of t is the element of whole at t's offset. */
  lemma Embedded(whole: seq<Paint>, k: int, t: seq<Paint>, i: int)
    requires SitsAt(whole, k, t) && 0 <= i < |t|
    ensures whole[k + i] == t[i]
  {
    assert whole[k..k + |t|][i] == whole[k + i];
  }

  /** Index where the tile of cell (r, c) starts in a redraw: after the background and every earlier cell. */
  function Start(tiles: seq<seq<seq<Paint>>>, active: Cell, r: int, c: int): nat
    requires IsTileGrid(tiles) && 0 <= r < ROWS && 0 <= c < COLS
  {
    1 + |RowsPaint(tiles, active, r)| + |RowPaint(tiles, active, r, c)|
  }

  /** In a redraw of any grid of tiles, the tile of cell (r, c) sits at Start(tiles, active, r, c). */
  lemma CellInLayout(tiles: seq<seq<seq<Paint>>>, active: Cell, r: int, c: int)
    requires IsTileGrid(tiles) && 0 <= r < ROWS && 0 <= c < COLS
    ensures SitsAt(Layout(tiles, active), Start(tiles, active, r, c), tiles[r][c])
  {
    CellInRow(tiles, active, r, c, COLS);
    RowInRows(tiles, active, r, ROWS);
    var bg := [Background(CANVAS_WIDTH, CANVAS_HEIGHT)];
    Nested(Layout(tiles, active), Start(tiles, active, r, c),
           bg, RowsPaint(tiles, active, r), RowPaint(tiles, active, r, COLS), RowsPaint(tiles, active, ROWS),
           RowPaint(tiles, active, r, c), CellPaint(tiles, active, r, c), tiles[r][c]);
  }

  /** Index in Frame(v) where the tile of cell (r, c) starts. */
  function TileStart(v: View, r: int, c: int): nat
    requires Shaped(v) && 0 <= r < ROWS && 0 <= c < COLS
  {
    Start(Tiles(v), v.active, r, c)
  }

  /**
    * Every cell is drawn: from TileStart(v, r, c) on, the frame holds the
    * tile of the cell's character at the cell's tile origin.
    */
  lemma TileInFrame(v: View, r: int, c: int)
    requires Shaped(v) && 0 <= r < ROWS && 0 <= c < COLS
    ensures SitsAt(Frame(v), TileStart(v, r, c), TilePaint(v.grid[r][c], TileX(c), TileY(r)))
  {
    CellInLayout(Tiles(v), v.active, r, c);
    TileOfBoard(v, r, c);
  }

  /**
    * The message is on the board: the tile of cell (r, c) starts with its face
    * at the cell's origin, and its dot (gx, gy) is lit exactly where the
    * pattern of the cell's character has a '1'.
    */
  lemma CellShown(v: View, r: int, c: int, gy: int, gx: int)
    requires Shaped(v) && 0 <= r < ROWS && 0 <= c < COLS
    requires 0 <= gy < DOT_H && 0 <= gx < DOT_W
    ensures TileStart(v, r, c) + 1 + gy * DOT_W + gx < |Frame(v)|
    ensures Frame(v)[TileStart(v, r, c)] == TileFace(TileX(c), TileY(r))
    ensures Frame(v)[TileStart(v, r, c) + 1 + gy * DOT_W + gx] ==
              Dot(DotX(TileX(c), gx), DotY(TileY(r), gy), Pattern(v.grid[r][c])[gy][gx] == '1')
  {
    var tile := TilePaint(v.grid[r][c], TileX(c), TileY(r));
    TileInFrame(v, r, c);
    TileDotAt(v.grid[r][c], TileX(c), TileY(r), gy, gx);
    Embedded(Frame(v), TileStart(v, r, c), tile, 0);
    Embedded(Frame(v), TileStart(v, r, c), tile, 1 + gy * DOT_W + gx);
  }

  // ---------- the outline is never painted over ----------

  /**
    * Whether the outline h and the tile face f are at least a pixel apart,
    * horizontally or vertically, so that painting f leaves h intact.
    */
  predicate Clear(h: Paint, f: Paint)
    requires h.Highlight? && f.TileFace?
  {
    h.x + h.w < f.x || f.x + TILE_WIDTH < h.x || h.y + h.h < f.y || f.y + TILE_HEIGHT < h.y
  }

  /** Tile face f is drawn later than the tile of cell a: in a later row, or in a's row and a later column. */
  predicate After(f: Paint, a: Cell)
    requires f.TileFace?
  {
    f.y >= TileY(a.r + 1) || (f.y == TileY(a.r) && f.x >= TileX(a.c + 1))
  }

  /** The outline of a cell is clear of the tile of every other cell: the tile gap is wider than the outline's margin. */
  lemma HighlightClearOfOtherTiles(a: Cell, b: Cell)
    requires InBounds(a) && InBounds(b) && a != b
    ensures Clear(HighlightOf(a), TileFace(TileX(b.c), TileY(b.r)))
  {
  }

  /** A cell's paint holds exactly one tile face, first. */
  lemma CellFace(tiles: seq<seq<seq<Paint>>>, active: Cell, r: int, c: int, k: int)
    requires IsTileGrid(tiles) && WellDrawn(tiles) && 0 <= r < ROWS && 0 <= c < COLS
    requires 0 <= k < |CellPaint(tiles, active, r, c)|
    ensures CellPaint(tiles, active, r, c)[k].TileFace? <==> k == 0
    ensures CellPaint(tiles, active, r, c)[0] == TileFace(TileX(c), TileY(r))
  {
    var tile, mark := tiles[r][c], HighlightIf(active, r, c);
    assert tile[0] == TileFace(TileX(c), TileY(r)) && forall i :: 1 <= i < |tile| ==> tile[i].Dot?;
    Split(CellPaint(tiles, active, r, c), tile, mark, k);
    Split(CellPaint(tiles, active, r, c), tile, mark, 0);
  }

  /** Every tile face of row r is at the row's height. */
  lemma {:induction false} RowFaceY(tiles: seq<seq<seq<Paint>>>, active: Cell, r: int, n: int, j: int)
    requires IsTileGrid(tiles) && WellDrawn(tiles) && 0 <= r < ROWS && 0 <= n <= COLS
    requires 0 <= j < |RowPaint(tiles, active, r, n)| && RowPaint(tiles, active, r, n)[j].TileFace?
    ensures RowPaint(tiles, active, r, n)[j].y == TileY(r)
    decreases n
  {
    var row, left, cell := RowPaint(tiles, active, r, n), RowPaint(tiles, active, r, n - 1), CellPaint(tiles, active, r, n - 1);
    Split(row, left, cell, j);
    if j < |left| {
      RowFaceY(tiles, active, r, n - 1, j);
    } else {
      CellFace(tiles, active, r, n - 1, j - |left|);
    }
  }

  /** Within a row, a tile face painted after a highlight belongs to a later column than the active cell. */
  lemma {:induction false} RowOrder(tiles: seq<seq<seq<Paint>>>, active: Cell, r: int, n: int, i: int, j: int)
    requires IsTileGrid(tiles) && WellDrawn(tiles) && 0 <= r < ROWS && 0 <= n <= COLS
    requires 0 <= i < j < |RowPaint(tiles, active, r, n)|
    requires RowPaint(tiles, active, r, n)[i].Highlight? && RowPaint(tiles, active, r, n)[j].TileFace?
    ensures InBounds(active) && RowPaint(tiles, active, r, n)[i] == HighlightOf(active)
    ensures After(RowPaint(tiles, active, r, n)[j], active)
    decreases n
  {
    var row, left, cell := RowPaint(tiles, active, r, n), RowPaint(tiles, active, r, n - 1), CellPaint(tiles, active, r, n - 1);
    Split(row, left, cell, i);
    Split(row, left, cell, j);
    if j < |left| {
      RowOrder(tiles, active, r, n - 1, i, j);
    } else {
      CellFace(tiles, active, r, n - 1, j - |left|);
      RowHighlights(tiles, active, r, n - 1, row[i]);
    }
  }

  /** Over the rows, a tile face painted after a highlight belongs to a cell after the active one. */
  lemma {:induction false} RowsOrder(tiles: seq<seq<seq<Paint>>>, active: Cell, m: int, i: int, j: int)
    requires IsTileGrid(tiles) && WellDrawn(tiles) && 0 <= m <= ROWS
    requires 0 <= i < j < |RowsPaint(tiles, active, m)|
    requires RowsPaint(tiles, active, m)[i].Highlight? && RowsPaint(tiles, active, m)[j].TileFace?
    ensures InBounds(active) && RowsPaint(tiles, active, m)[i] == HighlightOf(active)
    ensures After(RowsPaint(tiles, active, m)[j], active)
    decreases m
  {
    var rows, top, row := RowsPaint(tiles, active, m), RowsPaint(tiles, active, m - 1), RowPaint(tiles, active, m - 1, COLS);
    Split(rows, top, row, i);
    Split(rows, top, row, j);
    if j < |top| {
      RowsOrder(tiles, active, m - 1, i, j);
    } else if i >= |top| {
      RowOrder(tiles, active, m - 1, COLS, i - |top|, j - |top|);
    } else {
      RowsHighlights(tiles, active, m - 1, rows[i]);
      RowFaceY(tiles, active, m - 1, COLS, j - |top|);
    }
  }

  /**
    * The highlight stays visible: the outline is drawn right after the active
    * tile, and every tile face the redraw paints after it is clear of it.
    */
  lemma OutlineNotCovered(v: View, i: int, j: int)
    requires Shaped(v) && 0 <= i < j < |Frame(v)|
    requires Frame(v)[i].Highlight? && Frame(v)[j].TileFace?
    ensures InBounds(v.active) && Frame(v)[i] == HighlightOf(v.active)
    ensures Clear(Frame(v)[i], Frame(v)[j])
  {
    var rows := RowsPaint(Tiles(v), v.active, ROWS);
    TilesWellDrawn(v);
    Split(Frame(v), [Background(CANVAS_WIDTH, CANVAS_HEIGHT)], rows, i);
    Split(Frame(v), [Background(CANVAS_WIDTH, CANVAS_HEIGHT)], rows, j);
    RowsOrder(Tiles(v), v.active, ROWS, i - 1, j - 1);
  }
}
