/**
  * The live board: the character grid, updated in place, and the active
  * cell, with the click and key handlers and the redraw they trigger. Each
  * handler is proved to follow the corresponding function of module Input,
  * and each redraw to paint Render.Frame of the new state.
  */
module LedBoard {
  import opened Wrappers
  import opened Geometry
  import opened Font
  import opened Input
  import opened Render

  class Board {
    /** The character shown by every tile, ROWS x COLS, written in place. */
    const chars: array2<char>
    /** The selected cell, or UNSET. */
    var active: Cell
    /** The grid as a value, kept equal to the contents of chars. */
    ghost var grid: seq<seq<char>>

    /** The whole board state as a value. */
    ghost function Snapshot(): View
      reads this
    {
      View(grid, active)
    }

    /**
      * The grid is ROWS x COLS, grid mirrors chars, and the active cell is
      * unset or in bounds.
      */
    ghost predicate WellShaped()
      reads this, chars
    {
      chars.Length0 == ROWS && chars.Length1 == COLS && Shaped(Snapshot()) &&
      forall r, c :: 0 <= r < ROWS && 0 <= c < COLS ==> grid[r][c] == chars[r, c]
    }

    /** The board invariant: well shaped, and every cell holds a key of the font table. */
    ghost predicate Valid()
      reads this, chars
    {
      WellShaped() && Input.Valid(Snapshot())
    }

    /** A blank board with no active cell. */
    constructor ()
      ensures Valid() && fresh(chars)
      ensures Snapshot() == Initial()
    {
      chars := new char[ROWS, COLS]((_, _) => BLANK);
      active := UNSET;
      grid := Initial().grid;
      new;
      InitialValid();
    }

    /**
      * Click at canvas-local pixel (px, py): selects the cell under the
      * pointer and redraws, or does nothing when no cell is under it.
      */
    method Click(px: int, py: int) returns (repaint: Option<seq<Paint>>)
      requires Valid()
      modifies this
      ensures Valid()
      ensures Snapshot() == OnClick(old(Snapshot()), px, py)
      ensures repaint.Some? <==> CellAt(px, py).Some?
      ensures repaint.Some? ==> repaint.value == Frame(Snapshot())
    {
      ghost var before := Snapshot();
      var x := px - OUTER_PAD;
      var y := py - OUTER_PAD;
      var c := x / COL_STEP;
      var r := y / ROW_STEP;
      if r >= 0 && r < ROWS && c >= 0 && c < COLS {
        active := Cell(r, c);
        assert Snapshot() == OnClick(before, px, py);
        var ops := DrawBoard();
        repaint := Some(ops);
      } else {
        repaint := None;
      }
      InvariantPreserved(before, px, py, "");
    }

    /**
      * Key press: with an active cell, Backspace blanks it, and a typable key
      * writes its upper case there and moves the cursor right, clamped to the
      * last column; each of these redraws. Anything else does nothing.
      */
    method KeyDown(key: string) returns (repaint: Option<seq<Paint>>)
      requires Valid()
      modifies this, chars
      ensures Valid()
      ensures Snapshot() == OnKey(old(Snapshot()), key)
      ensures repaint.Some? <==> KeyRedraws(old(Snapshot()), key)
      ensures repaint.Some? ==> repaint.value == Frame(Snapshot())
    {
      ghost var before := Snapshot();
      InvariantPreserved(before, 0, 0, key);
      repaint := None;
      if active.r >= 0 && active.c >= 0 {
        if key == BACKSPACE {
          chars[active.r, active.c] := BLANK;
          grid := Put(grid, active, BLANK);
          var ops := DrawBoard();
          repaint := Some(ops);
          return;
        }
        if |key| == 1 {
          var upper := ToUpper(key[0]);
          if upper in FONT {
            chars[active.r, active.c] := upper;
            grid := Put(grid, active, upper);
            active := active.(c := Min(active.c + 1, COLS - 1));
            var ops := DrawBoard();
            repaint := Some(ops);
          }
        }
      }
    }

    /**
      * Redraws the whole board: the background, then every tile row by row,
      * and the highlight right after the active tile.
      */
    method DrawBoard() returns (ops: seq<Paint>)
      requires WellShaped()
      ensures ops == Frame(Snapshot())
    {
      var drawn := [];
      for r := 0 to ROWS
        invariant drawn == RowsPaint(Tiles(Snapshot()), active, r)
      {
        var row := DrawRow(r);
        drawn := drawn + row;
      }
      ops := [Background(CANVAS_WIDTH, CANVAS_HEIGHT)] + drawn;
    }

    /** One row of the redraw: each tile of row r, left to right, followed by the highlight on the active one. */
    method DrawRow(r: int) returns (row: seq<Paint>)
      requires WellShaped() && 0 <= r < ROWS
      ensures row == RowPaint(Tiles(Snapshot()), active, r, COLS)
    {
      ghost var v := Snapshot();
      ghost var tiles := Tiles(v);
      row := [];
      for c := 0 to COLS
        invariant row == RowPaint(tiles, active, r, c)
      {
        var x := OUTER_PAD + c * COL_STEP;
        var y := OUTER_PAD + r * ROW_STEP;
        var tile := DrawTile(chars[r, c], x, y);
        TileOfBoard(v, r, c);
        var mark := [];
        if active.r == r && active.c == c {
          mark := [HighlightAround(x, y)];
        }
        assert mark == HighlightIf(active, r, c);
        RowStep(tiles, active, r, c, tile, mark);
        row := row + (tile + mark);
      }
    }
  }
}
