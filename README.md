# Interactive LED message board, in Dafny

This project models the engine of the interactive LED message board. The board is a
Streamlit page that embeds one JavaScript program. That program draws a grid of
ROWS × COLS tiles on a canvas. Each tile shows one character as a 5 × 7 dot-matrix
pattern taken from a fixed font table. Clicking a tile makes it the active tile, and
typing writes into the active tile.

The model covers four parts of that program:

- **Geometry** (`geometry.dfy`, module `Geometry`):
  - the configuration constants;
  - the tile and board sizes derived from them;
  - where each tile and each dot is placed;
  - the floor-division mapping from a click position back to a cell.
- **Font** (`font.dfy`, module `Font`):
  - the 38-entry 5 × 7 font table;
  - the lookup that falls back to the blank pattern;
  - the upper-casing applied to a typed key.
- **Input** (`input.dfy`, module `Input`): the board state as a value. This is the grid of
  characters plus the active cell, where (-1, -1) means "none". It also holds the two
  event handlers as pure functions `OnClick` and `OnKey`.
- **Rendering** (`render.dfy`, module `Render`): a redraw is modelled as the sequence of
  paint operations it issues:
  - the background;
  - per tile, its face and its 35 dots, each lit or unlit;
  - the highlight outline drawn right after the active tile.

  `DrawTile` is the imperative tile drawer, proved against the specification function
  `TilePaint`. A redraw `Frame` lays out `Tiles`, the grid of every cell's tile. The
  lemmas about order and position are proved for any grid of tiles in which each tile is
  its face followed only by dots (`WellDrawn`), and are then applied to the board's tiles.
- **The live board** (`board.dfy`, module `LedBoard`): class `Board` holds the grid in
  place as an `array2<char>` plus the active cell. Its methods are the click handler, the
  keydown handler and `drawBoard`. Each is proved to follow the matching function of
  `Input`, or `Render.Frame`, and to keep the board invariant: every cell holds a key of
  the font table, and the active cell is unset or in bounds.

Behaviour worth knowing:

- After a typed character, the cursor moves right and is clamped at the last column of
  the same row. It never wraps to the next row (`NoWrapAtRowEnd`).
- Backspace clears the active cell in place and does not move the cursor
  (`BackspaceClears`).
- There are no navigation keys, no deselect, no dynamic glyph rasterisation and no glyph
  cache.

## Model

| member | source | states |
|---|---|---|
| Geometry.DerivedSizes | interactive_led_board.py:46-55 | tile inner area 66 × 94 from DOT_W·DOT_SIZE + (DOT_W−1)·DOT_GAP; tile 78 × 106 (inner + 2·TILE_PAD); board 854 × 462 from the OUTER_PAD/COLS/TILE_GAP formula; canvas = board + 8; tile pitch = tile + gap; board height equals the host frame height 462 |
| Geometry.CellAt | interactive_led_board.py:158-162 | the floor-division click mapping yields a cell exactly when the point lies in the grid's slots, and that cell is in bounds and contains the point |
| Geometry.TilesFillBoard | interactive_led_board.py:54-55 | every tile lies inside the board's outer padding, and the last row and column end exactly OUTER_PAD before the board edge |
| Geometry.DotsInsideTile | interactive_led_board.py:129-130 | dot (gx, gy) lies in the tile's padded inner area; the last dot of a row or column ends exactly at that area's edge, TILE_PAD inside the tile |
| Geometry.ClickRoundTrip | interactive_led_board.py:160-161 | click mapping inverts tile placement: every point of a cell's slot (tile plus trailing gap) maps back to that cell |
| Geometry.SlotsDisjoint | interactive_led_board.py:142-143 | the slots of two different cells never overlap |
| Font.FontWellFormed | interactive_led_board.py:67-106 | every table entry has 7 rows of 5 characters, each '0' or '1' |
| Font.FontKeys | interactive_led_board.py:67-106 | the table's keys are exactly space, '-', 'A'..'Z' and '0'..'9' |
| Font.Pattern | interactive_led_board.py:125 | the drawn pattern is always well formed, and for a character without an entry it is all off (the blank fallback) |
| Font.PatternOfKey | interactive_led_board.py:125 | a character with an entry is drawn with its own entry |
| Font.BlankIsAllOff | interactive_led_board.py:68 | the blank entry exists and has every dot off |
| Font.AcceptedKeys | interactive_led_board.py:177-179 | a typed character upper-cases into the table exactly when it is a table key, a lower-case letter, dotless i or long s; upper-casing keeps table keys unchanged |
| Input.Put | interactive_led_board.py:173 | writing one cell keeps the grid's shape, sets that cell, and leaves every other cell as it was |
| Input.InitialValid | interactive_led_board.py:108-109 | the start-up board has every cell blank, the active cell is (-1, -1), and it satisfies the invariant |
| Input.OnKeyShaped | interactive_led_board.py:169-186 | a key press keeps the grid ROWS × COLS and the cursor unset or in bounds |
| Input.InvariantPreserved | interactive_led_board.py:156-186 | clicks and key presses keep every cell a key of the font table and the cursor unset or in bounds |
| Input.ClickSelects | interactive_led_board.py:158-165 | a click inside a cell's slot makes that cell active and changes nothing else |
| Input.ClickOutsideIgnored | interactive_led_board.py:162-165 | a click outside every slot leaves the board unchanged |
| Input.KeyIgnoredWhenUnset | interactive_led_board.py:170 | with no active cell, no key changes the grid or the cursor, and none redraws |
| Input.BackspaceClears | interactive_led_board.py:172-176 | Backspace blanks exactly the active cell and keeps the cursor |
| Input.TypingWrites | interactive_led_board.py:177-183 | a typable key writes its upper case at the active cell only; the cursor keeps its row and moves to min(c+1, COLS−1) |
| Input.OtherKeysIgnored | interactive_led_board.py:177-179 | any key other than Backspace and the typable one-character keys leaves the board unchanged |
| Input.NoWrapAtRowEnd | interactive_led_board.py:181 | typing in the last column overwrites it and the cursor stays there, with no wrap to the next row |
| Input.TypeRun | interactive_led_board.py:177-183 | typing a run of typable characters that fits in the row writes their upper cases into consecutive cells, changes no other cell, and leaves the cursor after the run (or on the last column) |
| Input.ClickAndTypeScenario | interactive_led_board.py:156-186 | on a fresh board, clicking the first tile and typing "hi" shows "H", "I" in cells (0,0), (0,1), leaves the other cells blank, and puts the cursor at (0,2) |
| Render.DotRow | interactive_led_board.py:127-131 | one dot row is DOT_W paint operations, all dots |
| Render.DotRows | interactive_led_board.py:126-133 | the dot rows of a tile are DOT_W per row, all dots |
| Render.DrawTile | interactive_led_board.py:119-134 | the nested dot loops emit exactly TilePaint: the face, then every dot row by row |
| Render.DrawDotRow | interactive_led_board.py:127-131 | the inner dot loop emits exactly one dot row, left to right |
| Render.TileDotAt | interactive_led_board.py:125-131 | a tile is its face plus 35 dots; the dot at index 1 + gy·DOT_W + gx sits at dot (gx, gy), is lit exactly where the pattern has '1', and lies inside the tile's padded area |
| Render.UnknownCharDark | interactive_led_board.py:125 | a character without a table entry is drawn with every dot unlit |
| Render.TileShape | interactive_led_board.py:119-134 | a drawn tile is its face at the tile origin followed only by dots: it holds no highlight and no second face |
| Render.RowHighlights | interactive_led_board.py:141-150 | a row's paint holds a given highlight exactly when the active cell is in that row and the highlight is its outline |
| Render.RowsHighlights | interactive_led_board.py:140-151 | the rows drawn so far hold a given highlight exactly when the active cell is among them and the highlight is its outline |
| Render.HighlightOnlyOnActive | interactive_led_board.py:145-149 | a redraw outlines exactly the active cell: a highlight appears iff a cell is active, and only around that cell's tile |
| Render.TileOfBoard | interactive_led_board.py:140-144 | the tile of cell (r, c) is the cell's character drawn at OUTER_PAD + c·(TILE_WIDTH + TILE_GAP), OUTER_PAD + r·(TILE_HEIGHT + TILE_GAP) |
| Render.CellInLayout | interactive_led_board.py:137-151 | in a redraw, the tile of cell (r, c) sits right after the background and every cell before it in row-major order, highlight included |
| Render.TileInFrame | interactive_led_board.py:140-144 | every in-bounds cell is drawn: the frame holds the tile of the cell's character at the cell's origin, starting at TileStart(v, r, c) |
| Render.CellShown | interactive_led_board.py:125-131 | in the frame, cell (r, c) shows its face at the cell's origin and each of its 35 dots at its place, lit exactly where the pattern of the cell's character has '1' |
| Render.HighlightClearOfOtherTiles | interactive_led_board.py:142-148 | the outline of one cell is at least one pixel clear of the tile of every other cell, because the gap between tiles is wider than the outline's margin |
| Render.RowsOrder | interactive_led_board.py:140-151 | a tile face painted after a highlight belongs to a cell after the active one in row-major order, and that highlight is the active cell's outline |
| Render.OutlineNotCovered | interactive_led_board.py:140-151 | every tile face the redraw paints after the outline is clear of it, so the outline of the active cell stays visible |
| LedBoard.Board.constructor | interactive_led_board.py:108-109 | a fresh board is all blank with no active cell and satisfies the invariant |
| LedBoard.Board.Click | interactive_led_board.py:156-166 | the click handler follows OnClick, keeps the invariant, and redraws the new board exactly when the click lands on a cell |
| LedBoard.Board.KeyDown | interactive_led_board.py:169-186 | the keydown handler writes the grid in place as OnKey says, keeps the invariant, and redraws the new board exactly when a cell is active and the key is Backspace or typable |
| LedBoard.Board.DrawBoard | interactive_led_board.py:136-152 | a redraw emits the background and then every row of tiles, i.e. Frame of the current board |
| LedBoard.Board.DrawRow | interactive_led_board.py:141-150 | one row of the redraw emits each tile left to right, with the highlight right after the active one |

## Left out

- Colours, the circular dot shape (`arc` with 2π), stroke styles and line widths (lines
  30-34, 112-117, 120-123, 137-138 and 146-148). These are floating-point canvas
  rendering. A paint operation records only its position, its size and, for a dot,
  whether it is lit. The line width is canvas state that carries over: `ctx.lineWidth = 2`
  at line 146 is never reset, so once a highlight has been drawn, every later tile border
  stroked at line 123 is 2 px wide instead of 1 px, in that redraw and the next ones. The
  model does not record stroke widths, so it does not show this.
- The Streamlit page, its CSS and the `components.html` embedding (lines 1-27 and
  187-191). This is host plumbing. The frame height 462 is kept as `HOST_FRAME_HEIGHT`
  and proved equal to the board height.
- Canvas creation and sizing through the DOM (lines 57-64). Only the canvas size, board
  + 8, is kept, as the size of the background paint.
- `getBoundingClientRect` and the event listener registration (lines 156-157 and 169).
  `Board.Click` takes the click position already relative to the canvas, and
  `Board.KeyDown` takes the key string.
- The initial `drawBoard()` call at line 153. It is `Board.DrawBoard` called on a freshly
  constructed board; a constructor cannot return the paint sequence.
- Geometry.CellAt: pixel coordinates are integers. Fractional client coordinates are not
  modelled.
- Font.ToUpper: not the full Unicode `toUpperCase`. It maps 'a'..'z', dotless i
  (U+0131) and long s (U+017F) to their capitals and keeps every other character. Only
  whether the result is a key of the table matters, and no other character upper-cases
  to a single table key. A multi-character upper case such as "SS" is not a key either.
- Input.IsTypable: a key's length is counted in characters, not in UTF-16 code units. A
  character outside the Basic Multilingual Plane has length 2 in the source and is
  ignored there. It is ignored here too, because it is not a table key.
- The derived sizes (TILE_WIDTH, BOARD_WIDTH, the tile pitch and the others) are
  declared by their values. Lemma `DerivedSizes` proves each value equal to its formula.
  `Board.Click` and `Board.DrawRow` use the pitch constants COL_STEP and ROW_STEP where
  the source writes `TILE_WIDTH + TILE_GAP` and `TILE_HEIGHT + TILE_GAP`.
