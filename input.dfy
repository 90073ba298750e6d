/**
  * The board state and the input state machine, on values: a ROWS x COLS grid
  * of characters and the active cell, and what a click and a key press do to
  * them. The class Board in module LedBoard holds the same state in place and
  * is proved to follow these functions.
  */
module Input {
  import opened Wrappers
  import opened Geometry
  import opened Font

  /** A snapshot of the board: the character of every cell and the active cell. */
  datatype View = View(grid: seq<seq<char>>, active: Cell)

  /** The active cell is either unset, (-1, -1), or a cell of the board. */
  predicate ActiveOk(active: Cell) {
    active == UNSET || InBounds(active)
  }

  /** The grid has ROWS rows of COLS cells and the active cell is unset or in bounds. */
  predicate Shaped(v: View) {
    |v.grid| == ROWS &&
    (forall r :: 0 <= r < |v.grid| ==> |v.grid[r]| == COLS) &&
    ActiveOk(v.active)
  }

  /** The board invariant: well shaped, and every cell holds a key of the font table. */
  predicate Valid(v: View) {
    Shaped(v) &&
    forall r, c :: 0 <= r < |v.grid| && 0 <= c < |v.grid[r]| ==> v.grid[r][c] in FONT
  }

  /** Cursor selected: the guard the key handler tests before it does anything. */
  predicate IsSet(active: Cell) {
    active.r >= 0 && active.c >= 0
  }

  /** The start-up board: every cell blank, no active cell. */
  function Initial(): View {
    View(seq(ROWS, _ => seq(COLS, _ => BLANK)), UNSET)
  }

  /** The grid with one cell replaced. */
  function Put(grid: seq<seq<char>>, cell: Cell, ch: char): (g: seq<seq<char>>)
    requires 0 <= cell.r < |grid| && 0 <= cell.c < |grid[cell.r]|
    ensures |g| == |grid|
    ensures forall r :: 0 <= r < |g| ==> |g[r]| == |grid[r]|
    ensures g[cell.r][cell.c] == ch
    ensures forall r, c :: 0 <= r < |g| && 0 <= c < |g[r]| && Cell(r, c) != cell ==>
              g[r][c] == grid[r][c]
  {
    grid[cell.r := grid[cell.r][cell.c := ch]]
  }

  /**
    * Click at canvas-local pixel (px, py): selects the cell under the pointer
    * when there is one; the grid is never changed.
    */
  function OnClick(v: View, px: int, py: int): View {
    match CellAt(px, py)
    case Some(cell) => v.(active := cell)
    case None => v
  }

  /** The key that erases the active cell. */
  const BACKSPACE: string := "Backspace"

  /** A one-character key whose upper case has a pattern in the font table. */
  predicate IsTypable(key: string) {
    |key| == 1 && ToUpper(key[0]) in FONT
  }

  /**
    * Key press. With no active cell nothing happens. Backspace blanks the
    * active cell and leaves the cursor where it is. A typable key writes its
    * upper case into the active cell and moves the cursor one column right,
    * staying at the last column of the same row. Any other key does nothing.
    */
  function OnKey(v: View, key: string): View
    requires Shaped(v)
  {
    if IsSet(v.active) then
      if key == BACKSPACE then
        v.(grid := Put(v.grid, v.active, BLANK))
      else if IsTypable(key) then
        View(Put(v.grid, v.active, ToUpper(key[0])), Cell(v.active.r, Min(v.active.c + 1, COLS - 1)))
      else
        v
    else
      v
  }

  function Min(a: int, b: int): int { if a <= b then a else b }

  /** Whether a key press makes the handler redraw the board. */
  predicate KeyRedraws(v: View, key: string) {
    IsSet(v.active) && (key == BACKSPACE || IsTypable(key))
  }

  /** Types each character of text as a one-character key, in order. */
  function TypeText(v: View, text: string): View
    requires Shaped(v)
    decreases |text|
  {
    if text == [] then v
    else
      OnKeyShaped(v, [text[0]]);
      TypeText(OnKey(v, [text[0]]), text[1..])
  }

  // ---------- properties of the state machine ----------

  /** A key press keeps the grid's shape and the cursor unset or in bounds. */
  lemma OnKeyShaped(v: View, key: string)
    requires Shaped(v)
    ensures Shaped(OnKey(v, key))
  {
  }

  /** The start-up board is all blank with no active cell, and satisfies the invariant. */
  lemma InitialValid()
    ensures Valid(Initial())
    ensures Initial().active == UNSET
    ensures forall r, c :: 0 <= r < ROWS && 0 <= c < COLS ==> Initial().grid[r][c] == ' '
  {
    BlankIsAllOff();
  }

  /** Clicks and key presses preserve the invariant: every cell holds a font key. */
  lemma InvariantPreserved(v: View, px: int, py: int, key: string)
    requires Valid(v)
    ensures Valid(OnClick(v, px, py))
    ensures Valid(OnKey(v, key))
  {
    BlankIsAllOff();
    var w := OnKey(v, key);
    forall r, c | 0 <= r < |w.grid| && 0 <= c < |w.grid[r]|
      ensures w.grid[r][c] in FONT
    {
      if IsSet(v.active) && Cell(r, c) == v.active && key != BACKSPACE && IsTypable(key) {
        assert w.grid[r][c] == ToUpper(key[0]);
      }
    }
  }

  /**
    * A click inside the slot of a cell selects that cell; a click outside the
    * grid's slots leaves the board as it was. The grid is never modified.
    */
  lemma ClickSelects(v: View, cell: Cell, dx: int, dy: int)
    requires InBounds(cell)
    requires 0 <= dx < COL_STEP && 0 <= dy < ROW_STEP
    ensures OnClick(v, TileX(cell.c) + dx, TileY(cell.r) + dy) == v.(active := cell)
  {
    ClickRoundTrip(cell, dx, dy);
  }

  lemma ClickOutsideIgnored(v: View, px: int, py: int)
    requires !InGrid(px, py)
    ensures OnClick(v, px, py) == v
  {
  }

  /** With no active cell, no key changes the grid or the cursor. */
  lemma KeyIgnoredWhenUnset(v: View, key: string)
    requires Shaped(v) && v.active == UNSET
    ensures OnKey(v, key) == v
    ensures !KeyRedraws(v, key)
  {
  }

  /** Backspace blanks exactly the active cell; the cursor stays. */
  lemma BackspaceClears(v: View)
    requires Shaped(v) && InBounds(v.active)
    ensures OnKey(v, BACKSPACE).active == v.active
    ensures Shaped(OnKey(v, BACKSPACE))
    ensures forall r, c :: 0 <= r < ROWS && 0 <= c < COLS ==>
              OnKey(v, BACKSPACE).grid[r][c] == if Cell(r, c) == v.active then ' ' else v.grid[r][c]
  {
  }

  /**
    * A typable key writes its upper case at the active cell and changes no
    * other cell; the cursor keeps its row and moves one column right, except
    * in the last column, where it stays.
    */
  lemma TypingWrites(v: View, key: string)
    requires Shaped(v) && InBounds(v.active) && IsTypable(key)
    ensures Shaped(OnKey(v, key))
    ensures forall r, c :: 0 <= r < ROWS && 0 <= c < COLS ==>
              OnKey(v, key).grid[r][c] == if Cell(r, c) == v.active then ToUpper(key[0]) else v.grid[r][c]
    ensures OnKey(v, key).active.r == v.active.r
    ensures OnKey(v, key).active.c == if v.active.c == COLS - 1 then COLS - 1 else v.active.c + 1
  {
  }

  /** Every key other than Backspace and the typable ones leaves the board as it was. */
  lemma OtherKeysIgnored(v: View, key: string)
    requires Shaped(v) && key != BACKSPACE && !IsTypable(key)
    ensures OnKey(v, key) == v
  {
  }

  /** The characters text writes when typed from column c of row r, for a run that fits in the row. */
  predicate RunWritten(before: View, after: View, r0: int, c0: int, text: string)
    requires Shaped(before) && Shaped(after)
  {
    forall r, c :: 0 <= r < ROWS && 0 <= c < COLS ==>
      after.grid[r][c] ==
        if r == r0 && c0 <= c < c0 + |text| then ToUpper(text[c - c0]) else before.grid[r][c]
  }

  /**
    * Typing a run of typable characters from the active cell (r, c), when the
    * run fits in the row, writes their upper cases into cells c, c+1, ... of
    * row r, changes no other cell, and leaves the cursor after the run, or on
    * the last column when the run ends there.
    */
  lemma {:induction false} TypeRun(v: View, text: string)
    requires Shaped(v) && InBounds(v.active)
    requires v.active.c + |text| <= COLS
    requires forall i :: 0 <= i < |text| ==> ToUpper(text[i]) in FONT
    ensures Shaped(TypeText(v, text))
    ensures TypeText(v, text).active == Cell(v.active.r, Min(v.active.c + |text|, COLS - 1))
    ensures RunWritten(v, TypeText(v, text), v.active.r, v.active.c, text)
    decreases |text|
  {
    if text != [] {
      var w := OnKey(v, [text[0]]);
      TypingWrites(v, [text[0]]);
      var rest := text[1..];
      assert TypeText(v, text) == TypeText(w, rest);
      if rest == [] {
        assert TypeText(w, rest) == w;
      } else {
        assert w.active == Cell(v.active.r, v.active.c + 1);
        TypeRun(w, rest);
        RunStep(v, w, TypeText(w, rest), text);
      }
    }
  }

  /** One typed character followed by the rest of the run writes the whole run. */
  lemma RunStep(v: View, w: View, u: View, text: string)
    requires Shaped(v) && Shaped(w) && Shaped(u) && InBounds(v.active) && |text| > 1
    requires RunWritten(v, w, v.active.r, v.active.c, text[..1])
    requires RunWritten(w, u, v.active.r, v.active.c + 1, text[1..])
    ensures RunWritten(v, u, v.active.r, v.active.c, text)
  {
    forall r, c | 0 <= r < ROWS && 0 <= c < COLS
      ensures u.grid[r][c] ==
                if r == v.active.r && v.active.c <= c < v.active.c + |text|
                then ToUpper(text[c - v.active.c])
                else v.grid[r][c]
    {
      if r == v.active.r && v.active.c < c < v.active.c + |text| {
        assert text[1..][c - (v.active.c + 1)] == text[c - v.active.c];
      }
    }
  }

  /** Typing in the last column overwrites that cell and the cursor stays there: no wrap to the next row. */
  lemma NoWrapAtRowEnd(v: View, key: string)
    requires Shaped(v) && InBounds(v.active) && v.active.c == COLS - 1 && IsTypable(key)
    ensures OnKey(v, key).active == v.active
    ensures OnKey(v, key).grid[v.active.r][COLS - 1] == ToUpper(key[0])
  {
  }

  /** Fresh board, click on the first tile, type "hi": cells (0,0), (0,1) read "H", "I", cursor at (0,2). */
  lemma ClickAndTypeScenario()
    ensures var v := TypeText(OnClick(Initial(), TileX(0) + 1, TileY(0) + 1), "hi");
            v.grid[0][0] == 'H' && v.grid[0][1] == 'I' && v.active == Cell(0, 2) &&
            forall r, c :: 0 <= r < ROWS && 0 <= c < COLS && Cell(r, c) != Cell(0, 0) && Cell(r, c) != Cell(0, 1) ==>
              v.grid[r][c] == ' '
  {
    var s := OnClick(Initial(), TileX(0) + 1, TileY(0) + 1);
    ClickSelects(Initial(), Cell(0, 0), 1, 1);
    AcceptedKeys('h');
    AcceptedKeys('i');
    TypeRun(s, "hi");
  }
}
