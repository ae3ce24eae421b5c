/**
 * The overwrite-mode editor of the notes panes: a char key writes over the
 * cell under the grid cursor, Enter splits the line there, Backspace removes
 * the char left of the cursor or joins the line with the one above. Before
 * a char or Enter the cursor's line is made to exist and padded with spaces
 * up to the cursor, so the cursor may sit anywhere in virtual space. Each
 * edit commits one revision to the pane's history.
 */
module DualPane {
  import opened Wrappers
  import opened Rope
  import opened Ints
  import Text
  import Kitty
  import TextFilter
  import Virtual
  import Selection
  import Cursor

  /**
   * A revision committed to the history: the document it changes, the
   * document it produces, and the selection stored with it.
   */
  datatype Revision = Revision(before: seq<string>, after: seq<string>, selection: nat)

  /**
   * A pane as plain values: its rope, its selection (always a point, kept as
   * its offset), the grid cursor and the history.
   */
  datatype PaneState = PaneState(
    rope: seq<string>, selection: nat, row: nat, col: nat, desiredCol: Option<nat>, history: seq<Revision>)

  /** The rope with line `row` made to exist and padded with spaces up to column `col`. */
  function Prepared(ls: seq<string>, row: nat, col: nat): (r: seq<string>)
    ensures row < |r| && col <= |r[row]|
  {
    Virtual.Grid(ls, map[]).EnsureLineLength(row, col).rope
  }

  /**
   * `c` written at column `col` of line `row` in overwrite mode: the char of
   * the line there is replaced; at the line's end (before its '\n', or at the
   * end of the rope) `c` is inserted instead, so a '\n' is never overwritten.
   */
  function Overwrite(ls: seq<string>, row: nat, col: nat, c: char): seq<string>
    requires row < |ls| && col <= |ls[row]|
  {
    if col < |ls[row]| then ReplaceCol(ls, row, col, c)
    else if c == '\n' then SplitLine(ls, row, col)
    else ls[row := ls[row] + [c]]
  }

  /**
   * A char key: after padding, `c` overwrites the cell, the cursor moves one
   * column right and remembers it, the selection follows the cursor, and the
   * padded document and the new one are committed as one revision.
   */
  function TypeChar(s: PaneState, c: char): PaneState
  {
    var ls := Prepared(s.rope, s.row, s.col);
    var r := Overwrite(ls, s.row, s.col, c);
    var sel := LineToChar(ls, s.row) + s.col + 1;
    PaneState(r, sel, s.row, s.col + 1, Some(s.col + 1), s.history + [Revision(ls, r, sel)])
  }

  /**
   * Enter: after padding, a '\n' goes in at the cursor, the cursor moves to
   * the start of the next line, and the unpadded document and the new one are
   * committed as one revision.
   */
  function Enter(s: PaneState): PaneState
  {
    var ls := Prepared(s.rope, s.row, s.col);
    var pos := LineToChar(ls, s.row) + s.col;
    var r := SplitLine(ls, s.row, s.col);
    PaneState(r, pos + 1, s.row + 1, 0, Some(0), s.history + [Revision(s.rope, r, pos + 1)])
  }

  /**
   * Backspace as the handler performs it. With the cursor past column 0 it
   * moves left and removes the char at the offset of the new cell, whatever
   * char that offset holds. At column 0 below the first row it moves to the
   * row above, to the column `line(row).len_chars() - 1`, and removes the
   * char before `line_to_char(row + 1)`.
   */
  function Backspace(s: PaneState): PaneState
    requires |s.rope| >= 1
  {
    var ls := s.rope;
    if s.col > 0 then
      var col := s.col - 1;
      var moved := s.(col := col, desiredCol := Some(col));
      if s.row < |ls| && LineToChar(ls, s.row) + col < LenChars(ls) then
        var pos := LineToChar(ls, s.row) + col;
        var r := RemoveAt(ls, pos);
        moved.(rope := r, selection := pos, history := s.history + [Revision(ls, r, pos)])
      else moved
    else if s.row > 0 then
      var row := s.row - 1;
      if row < |ls| then
        var col := SatSub(LineSliceLen(ls, row), 1);
        var lineEnd := SatSub(LineStart(ls, row + 1), 1);
        var moved := s.(row := row, col := col, desiredCol := Some(col));
        if lineEnd < LenChars(ls) then
          var r := RemoveAt(ls, lineEnd);
          moved.(rope := r, selection := lineEnd, history := s.history + [Revision(ls, r, lineEnd)])
        else moved
      else s.(row := row)
    else s
  }

  /**
   * What `handle_dual_pane_input` does to the active pane, and whether it
   * handled the key. A key it does not handle is left to the main handler
   * and changes nothing.
   */
  function Handle(inNotesEditor: bool, s: PaneState, key: Kitty.KeyEvent): (r: (bool, PaneState))
    requires |s.rope| >= 1
    ensures !r.0 ==> r.1 == s
    ensures !inNotesEditor ==> !r.0
    ensures key.code.Char? && !TextFilter.IsAllowedChar(key.code.c) ==> r.1 == s
  {
    if !inNotesEditor then (false, s)
    else
      var mods := key.modifiers;
      match key.code
      case Char(c) =>
        if mods.Contains(Kitty.CONTROL) || mods.Contains(Kitty.SUPER) then (false, s)
        else if !TextFilter.IsAllowedChar(c) then (true, s)
        else (true, TypeChar(s, c))
      case Backspace =>
        if mods.Contains(Kitty.ALT) || mods.Contains(Kitty.SUPER) then (false, s)
        else (true, Backspace(s))
      case Enter => (true, Enter(s))
      case _ => (false, s)
  }

  /** One editor pane: its rope, selection, grid cursor and history. */
  class Pane {
    var rope: seq<string>
    var selection: nat
    var cursor: Cursor.GridCursor
    var history: seq<Revision>

    ghost predicate Valid()
      reads this
    {
      IsRope(rope)
    }

    function State(): PaneState
      reads this, cursor
    {
      PaneState(rope, selection, cursor.row, cursor.col, cursor.desiredCol, history)
    }

    /** A pane on `rope`, the cursor at the top left and the history empty. */
    constructor (rope: seq<string>)
      requires IsRope(rope)
      ensures Valid() && State() == PaneState(rope, 0, 0, 0, None, [])
    {
      this.rope := rope;
      selection := 0;
      cursor := new Cursor.GridCursor();
      history := [];
    }

    /** The lines up to `row` added by appending '\n' at the end one at a time. */
    method AddMissingLines(row: nat)
      requires Valid()
      modifies this
      ensures Valid() && rope == if row >= |old(rope)| then AddLines(old(rope), row - |old(rope)| + 1) else old(rope)
      ensures selection == old(selection) && history == old(history) && cursor == old(cursor)
    {
      ghost var rope0 := rope;
      assert rope0 == AddLines(rope0, 0);
      while |rope| <= row
        invariant |rope0| <= |rope| <= Selection.Max(|rope0|, row + 1)
        invariant rope == AddLines(rope0, |rope| - |rope0|)
        invariant selection == old(selection) && history == old(history) && cursor == old(cursor)
        decreases row + 1 - |rope|
      {
        var newlinePos := LenChars(rope);
        AppendLineBreak(rope);
        AddLinesStep(rope0, |rope| - |rope0|);
        rope := InsertAt(rope, newlinePos, '\n');
      }
      if row >= |rope0| {
        AddLinesKeepsRope(rope0, row - |rope0| + 1);
      }
    }

    /**
     * Line `row` made to exist, then padded with spaces at its end up to
     * `col`; the start of line `row`.
     */
    method PrepareLine(row: nat, col: nat) returns (lineStart: nat)
      requires Valid()
      modifies this
      ensures Valid() && rope == Prepared(old(rope), row, col)
      ensures lineStart == LineToChar(rope, row)
      ensures selection == old(selection) && history == old(history) && cursor == old(cursor)
    {
      AddMissingLines(row);
      lineStart := LineToChar(rope, row);
      var lineEnd := LineEnd(rope, row);
      var lineLen := SatSub(lineEnd, lineStart);
      if col > lineLen {
        PadLine(row, col - lineLen, lineEnd);
      }
    }

    /** Line `row` extended with `n` spaces, inserted at its end `lineEnd`. */
    method PadLine(row: nat, n: nat, lineEnd: nat)
      requires Valid() && row < |rope| && lineEnd == LineEnd(rope, row)
      modifies this
      ensures Valid() && rope == old(rope)[row := old(rope)[row] + Text.Repeat(' ', n)]
      ensures row < |rope| && LineToChar(rope, row) == LineToChar(old(rope), row)
      ensures selection == old(selection) && history == old(history) && cursor == old(cursor)
    {
      ghost var ls := rope;
      var padding := Text.Repeat(' ', n);
      Virtual.SpacesHaveNoBreak(n);
      InsertTextAtLineEnd(rope, row, padding);
      Virtual.PaddedRope(ls, row, padding);
      rope := InsertText(rope, lineEnd, padding);
      assert ls[..row] == rope[..row];
      LineToCharPrefix(ls, rope, row, row);
    }

    /**
     * The overwrite at offset `pos`, column `col` of line `row`: a '\n' there
     * gets `c` inserted before it, any other char is removed and `c` inserted
     * in its place, and past the end `c` is inserted.
     */
    method WriteOver(row: nat, col: nat, pos: nat, c: char)
      requires Valid() && row < |rope| && col <= |rope[row]| && pos == LineToChar(rope, row) + col
      modifies this
      ensures Valid() && rope == Overwrite(old(rope), row, col, c)
      ensures selection == old(selection) && history == old(history) && cursor == old(cursor)
    {
      if col < |rope[row]| {
        OverwriteInLine(rope, row, col, c, pos);
      } else {
        OverwriteAtLineEnd(rope, row, col, c, pos);
      }
      OverwriteKeepsRope(rope, row, col, c);
      if pos < LenChars(rope) {
        var chAtPos := CharAt(rope, pos);
        if chAtPos == '\n' {
          rope := InsertAt(rope, pos, c);
        } else {
          rope := RemoveAt(rope, pos);
          rope := InsertAt(rope, pos, c);
        }
      } else {
        rope := InsertAt(rope, pos, c);
      }
    }

    /**
     * `handle_dual_pane_input` on this pane, the active one: the Char,
     * Backspace and Enter arms edit it; every other key is left alone.
     */
    method HandleDualPaneInput(inNotesEditor: bool, key: Kitty.KeyEvent) returns (handled: bool)
      requires Valid()
      modifies this, cursor
      ensures Valid()
      ensures (handled, State()) == Handle(inNotesEditor, old(State()), key)
    {
      if !inNotesEditor {
        return false;
      }
      var mods := key.modifiers;
      match key.code
      case Char(c) =>
        if mods.Contains(Kitty.CONTROL) || mods.Contains(Kitty.SUPER) {
          return false;
        }
        if !TextFilter.IsAllowedChar(c) {
          return true;
        }
        handled := TypeCharAtCursor(c);
      case Backspace =>
        if mods.Contains(Kitty.ALT) || mods.Contains(Kitty.SUPER) {
          return false;
        }
        handled := BackspaceAtCursor();
      case Enter =>
        handled := EnterAtCursor();
      case _ =>
        return false;
    }

    /** The Char arm, once the char is accepted. */
    method TypeCharAtCursor(c: char) returns (handled: bool)
      requires Valid()
      modifies this, cursor
      ensures Valid() && handled
      ensures State() == TypeChar(old(State()), c)
    {
      ghost var s := State();
      var cursorRow := cursor.row;
      var cursorCol := cursor.col;
      var lineStart := PrepareLine(cursorRow, cursorCol);
      var charPos := lineStart + cursorCol;
      var oldRope := rope;
      WriteOver(cursorRow, cursorCol, charPos, c);
      cursor.col := cursor.col + 1;
      cursor.desiredCol := Some(cursor.col);
      var newPos := lineStart + cursor.col;
      selection := newPos;
      history := history + [Revision(oldRope, rope, selection)];
      handled := true;
    }

    /** The Enter arm. */
    method EnterAtCursor() returns (handled: bool)
      requires Valid()
      modifies this, cursor
      ensures Valid() && handled
      ensures State() == Enter(old(State()))
    {
      ghost var s0 := State();
      var oldRope := rope;
      var cursorRow := cursor.row;
      var cursorCol := cursor.col;
      var lineStart := PrepareLine(cursorRow, cursorCol);
      var insertPos := lineStart + cursorCol;
      ghost var ls := rope;
      ghost var r := SplitLine(ls, cursorRow, cursorCol);
      assert Enter(s0) == PaneState(r, insertPos + 1, cursorRow + 1, 0, Some(0), s0.history + [Revision(oldRope, r, insertPos + 1)]);
      assert InsertAt(ls, insertPos, '\n') == SplitLine(ls, cursorRow, cursorCol) && IsRope(SplitLine(ls, cursorRow, cursorCol)) by {
        InsertInLine(ls, cursorRow, cursorCol, '\n', insertPos);
        SplitKeepsRope(ls, cursorRow, cursorCol);
      }
      rope := InsertAt(rope, insertPos, '\n');
      cursor.row := cursor.row + 1;
      cursor.col := 0;
      cursor.desiredCol := Some(0);
      selection := insertPos + 1;
      history := history + [Revision(oldRope, rope, selection)];
      handled := true;
      assert State() == PaneState(r, insertPos + 1, cursorRow + 1, 0, Some(0), s0.history + [Revision(oldRope, r, insertPos + 1)]);
    }

    /** The Backspace arm; a revision is committed only when a char was removed. */
    method BackspaceAtCursor() returns (handled: bool)
      requires Valid()
      modifies this, cursor
      ensures Valid() && handled
      ensures State() == Backspace(old(State()))
    {
      var oldRope := rope;
      var changed := false;
      if cursor.col > 0 {
        changed := DeleteLeft();
      } else if cursor.row > 0 {
        changed := JoinWithLineAbove();
      }
      if changed {
        history := history + [Revision(oldRope, rope, selection)];
      }
      handled := true;
    }

    /** Backspace past column 0: the cursor moves left and the char at its new offset goes. */
    method DeleteLeft() returns (changed: bool)
      requires Valid() && cursor.col > 0
      modifies this, cursor
      ensures Valid() && history == old(history)
      ensures var t := Backspace(old(State()));
        State() == t.(history := old(history)) &&
        t.history == if changed then old(history) + [Revision(old(rope), rope, selection)] else old(history)
    {
      changed := false;
      cursor.col := cursor.col - 1;
      cursor.desiredCol := Some(cursor.col);
      if cursor.row < |rope| {
        var lineStart := LineToChar(rope, cursor.row);
        var deletePos := lineStart + cursor.col;
        if deletePos < LenChars(rope) {
          RemoveKeepsRope(rope, deletePos);
          rope := RemoveAt(rope, deletePos);
          selection := deletePos;
          changed := true;
        }
      }
    }

    /** Backspace at column 0 below the first row: the cursor moves up and a char before the next line goes. */
    method JoinWithLineAbove() returns (changed: bool)
      requires Valid() && cursor.col == 0 && cursor.row > 0
      modifies this, cursor
      ensures Valid() && history == old(history)
      ensures var t := Backspace(old(State()));
        State() == t.(history := old(history)) &&
        t.history == if changed then old(history) + [Revision(old(rope), rope, selection)] else old(history)
    {
      changed := false;
      cursor.row := cursor.row - 1;
      if cursor.row < |rope| {
        var lineLen := SatSub(LineSliceLen(rope, cursor.row), 1);
        cursor.col := lineLen;
        cursor.desiredCol := Some(cursor.col);
        var lineEnd := SatSub(LineStart(rope, cursor.row + 1), 1);
        if lineEnd < LenChars(rope) {
          RemoveKeepsRope(rope, lineEnd);
          rope := RemoveAt(rope, lineEnd);
          selection := lineEnd;
          changed := true;
        }
      }
    }
  }

  /**
   * Inside line `row` the Char arm's offset holds the line's char, no '\n';
   * removing it and inserting `c` there replaces it.
   */
  lemma OverwriteInLine(ls: seq<string>, row: nat, col: nat, c: char, pos: nat)
    requires IsRope(ls) && row < |ls| && col < |ls[row]| && pos == LineToChar(ls, row) + col
    ensures pos < LenChars(ls) && CharAt(ls, pos) != '\n' && pos <= LenChars(RemoveAt(ls, pos))
    ensures InsertAt(RemoveAt(ls, pos), pos, c) == Overwrite(ls, row, col, c)
  {
    assert CharAt(ls, pos) != '\n' by {
      CharAtLine(ls, row, col);
      assert ls[row][col] in ls[row];
    }
    RemoveThenInsert(ls, row, col, c, pos);
  }

  /** Removing the char at column `col` of line `row` and inserting `c` there replaces it. */
  lemma RemoveThenInsert(ls: seq<string>, row: nat, col: nat, c: char, pos: nat)
    requires row < |ls| && col < |ls[row]| && pos == LineToChar(ls, row) + col
    ensures pos < LenChars(ls) && pos <= LenChars(RemoveAt(ls, pos))
    ensures InsertAt(RemoveAt(ls, pos), pos, c) == Overwrite(ls, row, col, c)
  {
    var line := ls[row];
    var ls' := ls[row := line[..col] + line[col + 1..]];
    assert RemoveAt(ls, pos) == ls' && pos < LenChars(ls) && pos <= LenChars(ls') by {
      RemoveInLine(ls, row, col, pos);
      RemoveAtLength(ls, pos);
    }
    assert pos == LineToChar(ls', row) + col by {
      assert ls[..row] == ls'[..row];
      LineToCharPrefix(ls, ls', row, row);
    }
    InsertAfterRemoval(ls, row, col, c, pos, ls');
  }

  /** The line-level half of `RemoveThenInsert`. */
  lemma InsertAfterRemoval(ls: seq<string>, row: nat, col: nat, c: char, pos: nat, ls': seq<string>)
    requires row < |ls| && col < |ls[row]| && ls' == ls[row := ls[row][..col] + ls[row][col + 1..]]
    requires pos == LineToChar(ls', row) + col
    ensures pos <= LenChars(ls') && InsertAt(ls', pos, c) == Overwrite(ls, row, col, c)
  {
    var line := ls[row];
    InsertInLine(ls', row, col, c, pos);
    var a, b := ls'[row][..col], ls'[row][col..];
    assert a == line[..col];
    assert b == line[col + 1..];
    if c == '\n' {
      assert ls'[..row] == ls[..row] && ls'[row + 1..] == ls[row + 1..];
    } else {
      assert a + [c] + b == line[col := c];
      assert ls'[row := a + [c] + b] == ls[row := line[col := c]];
    }
  }

  /**
   * At the end of line `row` the Char arm's offset holds the line's '\n', or
   * is the rope's length for the last line; inserting `c` there appends it.
   */
  lemma OverwriteAtLineEnd(ls: seq<string>, row: nat, col: nat, c: char, pos: nat)
    requires row < |ls| && col == |ls[row]| && pos == LineToChar(ls, row) + col
    ensures pos <= LenChars(ls)
    ensures pos < LenChars(ls) ==> CharAt(ls, pos) == '\n'
    ensures InsertAt(ls, pos, c) == Overwrite(ls, row, col, c)
  {
    var line := ls[row];
    assert pos <= LenChars(ls) && InsertAt(ls, pos, c) == Overwrite(ls, row, col, c) by {
      InsertInLine(ls, row, col, c, pos);
      assert line[..col] == line && line[col..] == [];
      assert line[..col] + [c] + line[col..] == line + [c];
    }
    assert pos == LineEnd(ls, row);
    if row + 1 < |ls| {
      BreakAtLineEnd(ls, row);
    }
  }

  /** Writing over a cell of a rope leaves a rope. */
  lemma OverwriteKeepsRope(ls: seq<string>, row: nat, col: nat, c: char)
    requires IsRope(ls) && row < |ls| && col <= |ls[row]|
    ensures IsRope(Overwrite(ls, row, col, c))
  {
    if col < |ls[row]| {
      ReplaceColKeepsRope(ls, row, col, c);
    } else if c == '\n' {
      SplitKeepsRope(ls, row, col);
    } else {
      var m := ls[row] + [c];
      assert '\n' !in m by {
        forall i | 0 <= i < |m| ensures m[i] != '\n' { if i < |ls[row]| { assert m[i] == ls[row][i]; } }
      }
      LineKeepsRope(ls, row, m);
    }
  }

  /**
   * Padding is invisible: the grid shows the same cells; line `row` exists
   * and is `col` long at least, and the other lines are as they were, or empty
   * when added.
   */
  lemma PreparedSpec(ls: seq<string>, row: nat, col: nat)
    requires IsRope(ls)
    ensures var r := Prepared(ls, row, col);
      && IsRope(r)
      && |r| == Selection.Max(|ls|, row + 1)
      && |r[row]| == Selection.Max(Virtual.ExistingLen(ls, row), col)
      && (forall l :: 0 <= l < |r| && l != row ==> r[l] == if l < |ls| then ls[l] else "")
      && (forall l: nat, k: nat :: Virtual.View(r, l, k) == Virtual.View(ls, l, k))
  {
    Virtual.EnsureLineLengthSpec(Virtual.Grid(ls, map[]), row, col);
  }

  /** Overwriting a cell with a char other than '\n' shows that char there and changes no other cell. */
  lemma OverwriteView(ls: seq<string>, row: nat, col: nat, c: char)
    requires row < |ls| && col <= |ls[row]| && c != '\n'
    ensures forall l: nat, k: nat ::
              Virtual.View(Overwrite(ls, row, col, c), l, k) == if l == row && k == col then c else Virtual.View(ls, l, k)
  {
    if col < |ls[row]| {
      Virtual.ReplacedView(ls, row, col, c);
    }
  }

  /** Overwriting changes line `row` only, so every line before it starts where it did. */
  lemma OverwriteStarts(ls: seq<string>, row: nat, col: nat, c: char)
    requires row < |ls| && col <= |ls[row]|
    ensures var r := Overwrite(ls, row, col, c);
      row < |r| && LineToChar(r, row) == LineToChar(ls, row)
  {
    var r := Overwrite(ls, row, col, c);
    assert r[..row] == ls[..row];
    LineToCharPrefix(ls, r, row, row);
  }

  /**
   * A char key writes `c` into the cell under the cursor, on a line that now
   * exists, and leaves every other cell as the grid showed it; the cursor moves
   * one column right and remembers that column.
   */
  lemma TypeCharWrites(s: PaneState, c: char)
    requires IsRope(s.rope) && c != '\n'
    ensures var t := TypeChar(s, c);
      && s.row < |t.rope| && s.col < |t.rope[s.row]| && t.rope[s.row][s.col] == c
      && (forall l: nat, k: nat :: Virtual.View(t.rope, l, k) == if l == s.row && k == s.col then c else Virtual.View(s.rope, l, k))
      && t.row == s.row && t.col == s.col + 1 && t.desiredCol == Some(t.col)
  {
    var ls := Prepared(s.rope, s.row, s.col);
    PreparedSpec(s.rope, s.row, s.col);
    OverwriteView(ls, s.row, s.col, c);
    var t := TypeChar(s, c);
    assert Virtual.View(t.rope, s.row, s.col) == c;
  }

  /**
   * A char key keeps the rope a rope, puts the selection at the cursor, and
   * appends exactly one revision, from the padded document to the new one.
   */
  lemma TypeCharCommits(s: PaneState, c: char)
    requires IsRope(s.rope)
    ensures var t := TypeChar(s, c);
      && IsRope(t.rope)
      && t.row < |t.rope| && t.selection == LineToChar(t.rope, t.row) + t.col
      && |t.history| == |s.history| + 1 && t.history[..|s.history|] == s.history
      && t.history[|s.history|] == Revision(Prepared(s.rope, s.row, s.col), t.rope, t.selection)
  {
    var ls := Prepared(s.rope, s.row, s.col);
    PreparedSpec(s.rope, s.row, s.col);
    OverwriteKeepsRope(ls, s.row, s.col, c);
    OverwriteStarts(ls, s.row, s.col, c);
    var t := TypeChar(s, c);
    assert t.history[..|s.history|] == s.history;
  }

  /**
   * Overwrite mode: a char other than '\n' changes only the cursor's line.
   * Over a char of the line the length stays the same; at the line's end, in
   * front of its '\n', the char is added and the '\n' stays.
   */
  lemma TypeCharOverwrites(s: PaneState, c: char)
    requires c != '\n'
    ensures var ls := Prepared(s.rope, s.row, s.col);
      var t := TypeChar(s, c);
      && |t.rope| == |ls|
      && (forall l :: 0 <= l < |ls| && l != s.row ==> t.rope[l] == ls[l])
      && (s.col < |ls[s.row]| ==> LenChars(t.rope) == LenChars(ls) && |t.rope[s.row]| == |ls[s.row]|)
      && (s.col == |ls[s.row]| ==> LenChars(t.rope) == LenChars(ls) + 1 && t.rope[s.row] == ls[s.row] + [c])
  {
    var ls := Prepared(s.rope, s.row, s.col);
    var r := Overwrite(ls, s.row, s.col, c);
    LenCharsReplaceLine(ls, s.row, r[s.row]);
    assert r == ls[s.row := r[s.row]];
  }

  /**
   * Enter splits the (padded) cursor line at the cursor: one '\n' more, the
   * part before the cursor stays, the rest starts the next line, and the
   * cursor goes to the start of that line.
   */
  lemma EnterSplits(s: PaneState)
    requires IsRope(s.rope)
    ensures var ls := Prepared(s.rope, s.row, s.col);
      var t := Enter(s);
      && IsRope(t.rope)
      && |t.rope| == |ls| + 1 && LenChars(t.rope) == LenChars(ls) + 1
      && t.rope[s.row] == ls[s.row][..s.col] && t.rope[s.row + 1] == ls[s.row][s.col..]
      && (forall l :: 0 <= l < s.row ==> t.rope[l] == ls[l])
      && (forall l :: s.row + 1 < l < |t.rope| ==> t.rope[l] == ls[l - 1])
      && t.row == s.row + 1 && t.col == 0 && t.desiredCol == Some(0)
  {
    var ls := Prepared(s.rope, s.row, s.col);
    PreparedSpec(s.rope, s.row, s.col);
    SplitKeepsRope(ls, s.row, s.col);
    LenCharsSplit(ls, s.row, s.col);
  }

  /**
   * Enter puts the selection at the cursor, the start of the new line, and
   * appends exactly one revision, from the document before padding.
   */
  lemma EnterCommits(s: PaneState)
    ensures var t := Enter(s);
      && t.row < |t.rope| && t.selection == LineToChar(t.rope, t.row) + t.col
      && |t.history| == |s.history| + 1 && t.history[..|s.history|] == s.history
      && t.history[|s.history|] == Revision(s.rope, t.rope, t.selection)
  {
    var ls := Prepared(s.rope, s.row, s.col);
    var t := Enter(s);
    assert t.rope[..s.row] == ls[..s.row];
    LineToCharPrefix(ls, t.rope, s.row, s.row);
    assert t.rope[s.row] == ls[s.row][..s.col];
    assert t.history[..|s.history|] == s.history;
  }

  /**
   * Backspace removes at most one char. It commits a revision exactly when
   * it removed one, and the rope stays a rope.
   */
  lemma BackspaceAtMostOne(s: PaneState)
    requires IsRope(s.rope)
    ensures var t := Backspace(s);
      && IsRope(t.rope)
      && ((t.rope == s.rope && t.history == s.history) ||
          (LenChars(t.rope) + 1 == LenChars(s.rope) && t.history == s.history + [Revision(s.rope, t.rope, t.selection)]))
  {
    var ls := s.rope;
    if s.col > 0 {
      if s.row < |ls| && LineToChar(ls, s.row) + s.col - 1 < LenChars(ls) {
        var pos := LineToChar(ls, s.row) + s.col - 1;
        RemoveAtLength(ls, pos);
        RemoveKeepsRope(ls, pos);
      }
    } else if 0 < s.row <= |ls| {
      var row := s.row - 1;
      var lineEnd := SatSub(LineStart(ls, row + 1), 1);
      if lineEnd < LenChars(ls) {
        RemoveAtLength(ls, lineEnd);
        RemoveKeepsRope(ls, lineEnd);
      }
    }
  }

  /**
   * Backspace with a char of the line left of the cursor removes that char,
   * and the cursor and selection move onto its cell.
   */
  lemma BackspaceInLine(s: PaneState)
    requires s.col > 0 && s.row < |s.rope| && s.col - 1 < |s.rope[s.row]|
    ensures var t := Backspace(s);
      && t.rope == s.rope[s.row := s.rope[s.row][..s.col - 1] + s.rope[s.row][s.col..]]
      && t.row == s.row && t.col == s.col - 1 && t.desiredCol == Some(t.col)
      && t.selection == LineToChar(t.rope, t.row) + t.col
  {
    var ls := s.rope;
    var pos := LineToChar(ls, s.row) + s.col - 1;
    RemoveInLine(ls, s.row, s.col - 1, pos);
    var r := ls[s.row := ls[s.row][..s.col - 1] + ls[s.row][s.col..]];
    assert ls[s.row][s.col - 1 + 1..] == ls[s.row][s.col..];
    assert r[..s.row] == ls[..s.row];
    LineToCharPrefix(ls, r, s.row, s.row);
  }

  /**
   * Backspace at column 0 of a line below the first removes the '\n' before
   * it, joining it to the line above, and the cursor goes where that line
   * ended.
   */
  lemma BackspaceJoins(s: PaneState)
    requires s.col == 0 && 0 < s.row < |s.rope|
    ensures var t := Backspace(s);
      && t.rope == JoinLine(s.rope, s.row - 1)
      && t.row == s.row - 1 && t.col == |s.rope[s.row - 1]| && t.desiredCol == Some(t.col)
      && t.selection == LineToChar(t.rope, t.row) + t.col
  {
    var ls := s.rope;
    var row := s.row - 1;
    RemoveLineBreak(ls, row);
    assert SatSub(LineStart(ls, row + 1), 1) == LineEnd(ls, row);
    var r := JoinLine(ls, row);
    assert r[..row] == ls[..row];
    LineToCharPrefix(ls, r, row, row);
  }

  /**
   * As written, Backspace one column past the end of a line that is not the
   * last removes the line's '\n' and joins the next line to it, although no
   * char of the line is left of the cursor.
   */
  lemma BackspacePastLineEnd(s: PaneState)
    requires s.row + 1 < |s.rope| && s.col == |s.rope[s.row]| + 1
    ensures Backspace(s).rope == JoinLine(s.rope, s.row)
  {
    var ls := s.rope;
    RemoveLineBreak(ls, s.row);
  }

  /**
   * As written, Backspace two columns past the end of "ab" removes the 'c'
   * at the start of the next line.
   */
  lemma BackspaceRemovesFromNextLine()
    ensures Backspace(PaneState(["ab", "cd"], 0, 0, 4, None, [])).rope == ["ab", "d"]
  {
    var ls := ["ab", "cd"];
    assert |ls[0]| == 2 && |ls[1]| == 2;
    assert LineToChar(ls, 1) == LineToChar(ls, 0) + |ls[0]| + 1 == 3;
    assert LenChars(ls) == LineToChar(ls, 1) + |ls[1]| == 5;
    RemoveInLine(ls, 1, 0, 3);
    assert ls[1][..0] + ls[1][1..] == [ls[1][1]] == "d";
    assert ls[1 := ls[1][..0] + ls[1][1..]] == ["ab", "d"];
  }

  /**
   * As written, Backspace at column 0 just below the last line takes the
   * last line's length less one for the column, as if the line ended in a
   * '\n', and removes the document's last char: below "abc" it leaves "ab"
   * with the cursor after the 'b'.
   */
  lemma BackspaceBelowLastLine()
    ensures var t := Backspace(PaneState(["abc"], 0, 1, 0, None, []));
      t.rope == ["ab"] && t.row == 0 && t.col == 2
  {
    var ls := ["abc"];
    assert |ls[0]| == 3;
    assert LenChars(ls) == LineToChar(ls, 0) + |ls[0]| == 3;
    assert LineStart(ls, 1) == 3 && LineSliceLen(ls, 0) == 3;
    RemoveInLine(ls, 0, 2, 2);
    assert ls[0][..2] + ls[0][3..] == [ls[0][0], ls[0][1]] == "ab";
    assert ls[0 := ls[0][..2] + ls[0][3..]] == ["ab"];
  }

  /**
   * Backspace as evidently intended: a char is removed only when there is
   * one in the line left of the cursor, and at column 0 the cursor goes to
   * the end of the line above and only a '\n' that ends that line is removed.
   */
  function BackspaceIntended(s: PaneState): PaneState
    requires |s.rope| >= 1
  {
    var ls := s.rope;
    if s.col > 0 then
      var col := s.col - 1;
      var moved := s.(col := col, desiredCol := Some(col));
      if s.row < |ls| && col < |ls[s.row]| then
        var pos := LineToChar(ls, s.row) + col;
        CharAtLine(ls, s.row, col);
        var r := RemoveAt(ls, pos);
        moved.(rope := r, selection := pos, history := s.history + [Revision(ls, r, pos)])
      else moved
    else if s.row > 0 then
      var row := s.row - 1;
      if row < |ls| then
        var col := |ls[row]|;
        var moved := s.(row := row, col := col, desiredCol := Some(col));
        if row + 1 < |ls| then
          var lineEnd := LineEnd(ls, row);
          RemoveLineBreak(ls, row);
          var r := RemoveAt(ls, lineEnd);
          moved.(rope := r, selection := lineEnd, history := s.history + [Revision(ls, r, lineEnd)])
        else moved
      else s.(row := row)
    else s
  }

  /**
   * The intended Backspace changes the rope only by removing the char left of
   * the cursor within its line, or by joining the cursor's line to the one
   * above; every other line keeps its chars.
   */
  lemma IntendedBackspaceStaysInLine(s: PaneState)
    requires |s.rope| >= 1
    ensures var t := BackspaceIntended(s);
      || t.rope == s.rope
      || (s.col > 0 && s.row < |s.rope| && s.col - 1 < |s.rope[s.row]| &&
          t.rope == s.rope[s.row := s.rope[s.row][..s.col - 1] + s.rope[s.row][s.col..]])
      || (s.col == 0 && 0 < s.row < |s.rope| && t.rope == JoinLine(s.rope, s.row - 1))
  {
    var ls := s.rope;
    if s.col > 0 && s.row < |ls| && s.col - 1 < |ls[s.row]| {
      RemoveInLine(ls, s.row, s.col - 1, LineToChar(ls, s.row) + s.col - 1);
      assert ls[s.row][s.col - 1 + 1..] == ls[s.row][s.col..];
    } else if s.col == 0 && 0 < s.row < |ls| {
      RemoveLineBreak(ls, s.row - 1);
    }
  }

  /**
   * Where the cursor is over the text (a char of its line to its left, or
   * column 0 of an existing line) the handler's Backspace is the intended one.
   */
  lemma BackspaceAgreesOverText(s: PaneState)
    requires |s.rope| >= 1
    requires (s.col > 0 && s.row < |s.rope| && s.col - 1 < |s.rope[s.row]|) || (s.col == 0 && s.row < |s.rope|)
    ensures Backspace(s) == BackspaceIntended(s)
  {
    var ls := s.rope;
    if s.col > 0 {
      CharAtLine(ls, s.row, s.col - 1);
    } else if s.row > 0 {
      assert SatSub(LineStart(ls, s.row), 1) == LineEnd(ls, s.row - 1);
      RemoveLineBreak(ls, s.row - 1);
    }
  }
}
