/**
 * The grid cursor: a (row, column) position that may lie anywhere in the
 * virtual grid, past line ends and below the last line, with the column to
 * return to on vertical moves.
 */
module Cursor {
  import opened Wrappers
  import opened Rope
  import opened Ints
  import Selection
  import Virtual

  /**
   * The position `from_char_offset` gives an offset: the offset clamped to
   * the last char, its line, and its distance from the line's start.
   */
  function FromOffset(ls: seq<string>, offset: nat): (p: (nat, nat))
    requires |ls| >= 1
    ensures LenChars(ls) == 0 ==> p == (0, 0)
    ensures LenChars(ls) > 0 ==>
      p.0 < |ls| && p.1 <= |ls[p.0]| && LineToChar(ls, p.0) + p.1 == Selection.Min(offset, LenChars(ls) - 1)
  {
    var ropeLen := LenChars(ls);
    if ropeLen == 0 then (0, 0)
    else
      var clamped := Selection.Min(offset, ropeLen - 1);
      var row := CharToLine(ls, clamped);
      CharToLineSpec(ls, clamped);
      (row, SatSub(clamped, LineToChar(ls, row)))
  }

  class GridCursor {
    var row: nat
    var col: nat
    var desiredCol: Option<nat>

    /** `GridCursor::new`: the top-left cell, no column remembered. */
    constructor ()
      ensures row == 0 && col == 0 && desiredCol == None
    {
      row, col, desiredCol := 0, 0, None;
    }

    /** `from_char_offset`: the cursor on the char at the clamped offset, remembering its column. */
    constructor FromCharOffset(offset: nat, grid: Virtual.VirtualGrid)
      requires |grid.rope| >= 1
      ensures (row, col) == FromOffset(grid.rope, offset)
      ensures desiredCol == if LenChars(grid.rope) == 0 then None else Some(col)
    {
      var ropeLen := LenChars(grid.rope);
      if ropeLen == 0 {
        row, col, desiredCol := 0, 0, None;
      } else {
        var clamped := Selection.Min(offset, ropeLen - 1);
        var r := CharToLine(grid.rope, clamped);
        CharToLineSpec(grid.rope, clamped);
        var lineStart := LineToChar(grid.rope, r);
        var c := SatSub(clamped, lineStart);
        row, col, desiredCol := r, c, Some(c);
      }
    }

    /** `move_up`: one row up unless at the top, back to the remembered column. */
    method MoveUp()
      modifies this
      ensures old(row) > 0 ==> row == old(row) - 1 && col == (if old(desiredCol).Some? then old(desiredCol).value else old(col))
      ensures old(row) == 0 ==> row == 0 && col == old(col)
      ensures desiredCol == old(desiredCol)
    {
      if row > 0 {
        row := row - 1;
        if desiredCol.Some? {
          col := desiredCol.value;
        }
      }
    }

    /** `move_down`: one row down while above the last of `maxRows` rows, back to the remembered column. */
    method MoveDown(maxRows: nat)
      modifies this
      ensures old(row) < SatSub(maxRows, 1) ==>
        row == old(row) + 1 && col == (if old(desiredCol).Some? then old(desiredCol).value else old(col))
      ensures old(row) >= SatSub(maxRows, 1) ==> row == old(row) && col == old(col)
      ensures desiredCol == old(desiredCol)
    {
      if row < SatSub(maxRows, 1) {
        row := row + 1;
        if desiredCol.Some? {
          col := desiredCol.value;
        }
      }
    }

    /** `move_left`: one column left unless at the edge; the new column is remembered. */
    method MoveLeft()
      modifies this
      ensures old(col) > 0 ==> col == old(col) - 1 && desiredCol == Some(col)
      ensures old(col) == 0 ==> col == 0 && desiredCol == old(desiredCol)
      ensures row == old(row)
    {
      if col > 0 {
        col := col - 1;
        desiredCol := Some(col);
      }
    }

    /** `move_right`: one column right, without a limit in grid mode; the new column is remembered. */
    method MoveRight(maxCols: nat)
      modifies this
      ensures col == old(col) + 1 && desiredCol == Some(col) && row == old(row)
    {
      col := col + 1;
      desiredCol := Some(col);
    }

    /** `move_to`: jump to (row, col), remembering the column. */
    method MoveTo(row: nat, col: nat)
      modifies this
      ensures this.row == row && this.col == col && desiredCol == Some(col)
    {
      this.row := row;
      this.col := col;
      desiredCol := Some(col);
    }

    /**
     * `to_char_offset`: the offset of the char under the cursor, or None in
     * virtual space (past the line's end or below the last line).
     */
    function ToCharOffset(grid: Virtual.VirtualGrid): (r: Option<nat>)
      reads this, grid
      ensures r.Some? <==> row < |grid.rope| && col < |grid.rope[row]|
      ensures r.Some? ==>
                r.value == LineToChar(grid.rope, row) + col &&
                r.value < LenChars(grid.rope) && CharAt(grid.rope, r.value) == grid.rope[row][col]
    {
      if row >= |grid.rope| then None
      else
        var lineStart := LineToChar(grid.rope, row);
        var lineEnd := LineEnd(grid.rope, row);
        var lineLen := SatSub(lineEnd, lineStart);
        if col < lineLen then
          CharAtLine(grid.rope, row, col);
          Some(lineStart + col)
        else None
    }
  }

  /**
   * Offset, position, offset: a cursor placed from an offset gives that
   * offset back exactly when the char there is not a line's '\n' (on a '\n'
   * the cursor sits just past the line's end, in virtual space).
   */
  lemma OffsetRoundTrip(c: GridCursor, grid: Virtual.VirtualGrid, o: nat)
    requires grid.Valid() && o < LenChars(grid.rope)
    requires (c.row, c.col) == FromOffset(grid.rope, o)
    ensures c.ToCharOffset(grid) == (if CharAt(grid.rope, o) == '\n' then None else Some(o))
  {
    var ls := grid.rope;
    CharToLineSpec(ls, o);
    assert c.row == CharToLine(ls, o) && LineToChar(ls, c.row) + c.col == o;
    if c.col < |ls[c.row]| {
      assert ls[c.row][c.col] in ls[c.row];
    }
  }

  /** Position, offset, position: the offset of a cell with a char places the cursor back on it. */
  lemma PositionRoundTrip(c: GridCursor, grid: Virtual.VirtualGrid)
    requires |grid.rope| >= 1 && c.ToCharOffset(grid).Some?
    ensures FromOffset(grid.rope, c.ToCharOffset(grid).value) == (c.row, c.col)
  {
    var ls := grid.rope;
    CharToLineOfStart(ls, c.row, c.col);
  }
}
