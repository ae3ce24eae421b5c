// The editing and cursor arms of the main key handler (keyboard.rs): Ctrl+A,
// Esc, the arrows, Backspace, Delete, Enter and typing, over the chunked grid
// with the cursor held beside it.
module Keyboard {
  import opened Wrappers
  import opened Text
  import opened Chunked
  import Kitty
  import Undo
  import Ints

  /** The char-insert scan reads at most this many cells of the row. */
  const SCAN_CAP: nat := 10000
  /** The scan stops once it is this far past the cursor and has seen one more than this many spaces in a row. */
  const BLANK_RUN: nat := 100

  /** The grid, its block selection and the cursor of the main editor. */
  datatype EditorState = EditorState(canvas: Canvas, selection: Option<BlockSelection>, row: nat, col: nat)

  /** Line `row` of the `to_lines` snapshot, or "" past its end. */
  function LineOr(lines: seq<string>, row: nat): string {
    if row < |lines| then lines[row] else ""
  }

  /** `line` without its char at `i`; unchanged when it has none. */
  function Without(line: string, i: nat): (r: string)
    ensures i < |line| ==> |r| == |line| - 1
    ensures i < |line| ==> forall k :: 0 <= k < |r| ==> r[k] == if k < i then line[k] else line[k + 1]
    ensures i >= |line| ==> r == line
  {
    if i < |line| then line[..i] + line[i + 1..] else line
  }

  /** `for col in 0..width { set(row, col, ' ') }`. */
  function Blanked(g: Canvas, row: nat, width: nat): Canvas {
    g.WriteRow(row, 0, Undo.Spaces(width), width, {})
  }

  /** Row `row` blanked over `width` columns, then `text` written from column 0. */
  function Retyped(g: Canvas, row: nat, width: nat, text: string): Canvas {
    Blanked(g, row, width).WriteRow(row, 0, text, |text|, {})
  }

  // ---------------------------------------------------------------------
  // Cursor arms

  /** Up: one row up, never above row 0; the column stays. */
  function UpOne(s: EditorState): (r: EditorState)
    ensures r.row == Ints.SatSub(s.row, 1) && r.(row := s.row) == s
  {
    if s.row > 0 then s.(row := s.row - 1) else s
  }

  /** Down: one row down, with no bound; Up takes it back. */
  function DownOne(s: EditorState): (r: EditorState)
    ensures r.row == s.row + 1 && r.(row := s.row) == s
    ensures UpOne(r) == s
  {
    s.(row := s.row + 1)
  }

  /** Left: one column left, or from column 0 to the end of the line above. */
  function LeftOn(s: EditorState, lines: seq<string>): (r: EditorState)
    ensures s.col > 0 ==> r == s.(col := s.col - 1)
    ensures s.col == 0 && 0 < s.row <= |lines| ==> r == s.(row := s.row - 1, col := |lines[s.row - 1]|)
    ensures s.col == 0 && s.row > |lines| ==> r == s.(row := s.row - 1)
    ensures s.col == 0 && s.row == 0 ==> r == s
  {
    if s.col > 0 then s.(col := s.col - 1)
    else if s.row > 0 then
      if s.row - 1 < |lines| then s.(row := s.row - 1, col := |lines[s.row - 1]|) else s.(row := s.row - 1)
    else s
  }

  /** Right: one column right, or from the end of a line to the start of the next; past the last line always right. */
  function RightOn(s: EditorState, lines: seq<string>): (r: EditorState)
    ensures s.row < |lines| && s.col < |lines[s.row]| ==> r == s.(col := s.col + 1)
    ensures s.row < |lines| && s.col >= |lines[s.row]| ==> r == s.(row := s.row + 1, col := 0)
    ensures s.row >= |lines| ==> r == s.(col := s.col + 1)
  {
    if s.row < |lines| then
      if s.col < |lines[s.row]| then s.(col := s.col + 1) else s.(row := s.row + 1, col := 0)
    else s.(col := s.col + 1)
  }

  /** Within the text, Left takes back a step Right, the wrap to the next line included. */
  lemma LeftUndoesRight(s: EditorState, lines: seq<string>)
    requires s.row < |lines| && s.col <= |lines[s.row]|
    ensures LeftOn(RightOn(s, lines), lines) == s
  {
    if s.col == |lines[s.row]| {
      assert RightOn(s, lines) == s.(row := s.row + 1, col := 0);
    }
  }

  /** Within the text, Right takes back a step Left, the wrap to the line above included. */
  lemma RightUndoesLeft(s: EditorState, lines: seq<string>)
    requires s.col > 0 ==> s.row < |lines| && s.col <= |lines[s.row]|
    requires s.col == 0 ==> 0 < s.row <= |lines|
    ensures RightOn(LeftOn(s, lines), lines) == s
  {
    if s.col == 0 {
      assert LeftOn(s, lines) == s.(row := s.row - 1, col := |lines[s.row - 1]|);
    }
  }

  // ---------------------------------------------------------------------
  // Ctrl+A

  /** The widest line of the snapshot after `trim_end`, in UTF-8 bytes (`.max().unwrap_or(0)`). */
  function MaxWidth(lines: seq<string>): (w: nat)
    ensures forall i :: 0 <= i < |lines| ==> ByteLen(TrimEnd(lines[i])) <= w
    ensures lines == [] ==> w == 0
  {
    if lines == [] then 0
    else
      var rest := MaxWidth(lines[1..]);
      assert forall i :: 1 <= i < |lines| ==> lines[i] == lines[1..][i - 1];
      Chunked.Max(ByteLen(TrimEnd(lines[0])), rest)
  }

  /** Some line of a non-empty snapshot is exactly as wide as `MaxWidth`. */
  lemma {:induction false} MaxWidthAttained(lines: seq<string>) returns (i: nat)
    requires lines != []
    ensures i < |lines| && ByteLen(TrimEnd(lines[i])) == MaxWidth(lines)
  {
    if |lines| == 1 || ByteLen(TrimEnd(lines[0])) >= MaxWidth(lines[1..]) {
      i := 0;
    } else {
      var j := MaxWidthAttained(lines[1..]);
      i := j + 1;
    }
  }

  /** Ctrl+A: from (0, 0) to the last line and the column before the widest line's end. */
  function SelectedAll(s: EditorState, lines: seq<string>): EditorState {
    if lines == [] then s
    else s.(selection := Some(BlockSelection.New(0, 0).Update(|lines| - 1, Ints.SatSub(MaxWidth(lines), 1))))
  }

  /** Ctrl+A selects exactly the rectangle from (0, 0) over every line and the widest line's columns. */
  lemma SelectAllCovers(s: EditorState, lines: seq<string>, r: nat, c: nat)
    requires lines != []
    ensures var t := SelectedAll(s, lines);
      && t.selection.Some? && t.selection.value.Bounds() == (0, 0, |lines| - 1, Ints.SatSub(MaxWidth(lines), 1))
      && (t.selection.value.Contains(r, c) <==> r < |lines| && c < Chunked.Max(MaxWidth(lines), 1))
      && t.(selection := s.selection) == s
  {
    var w := MaxWidth(lines);
    assert SelectedAll(s, lines) == s.(selection := Some(BlockSelection.New(0, 0).Update(|lines| - 1, Ints.SatSub(w, 1))));
    RectangleFromOrigin(|lines|, w, r, c);
  }

  /** The selection from (0, 0) to (`height - 1`, `width - 1`), the column saturating at 0. */
  lemma RectangleFromOrigin(height: nat, width: nat, r: nat, c: nat)
    requires height > 0
    ensures var sel := BlockSelection.New(0, 0).Update(height - 1, Ints.SatSub(width, 1));
      && sel.Bounds() == (0, 0, height - 1, Ints.SatSub(width, 1))
      && (sel.Contains(r, c) <==> r < height && c < Chunked.Max(width, 1))
  {
    var w := Ints.SatSub(width, 1);
    var sel := BlockSelection(0, 0, height - 1, w);
    assert BlockSelection.New(0, 0).Update(height - 1, w) == sel;
    assert sel.Bounds() == (0, 0, height - 1, w);
  }

  // ---------------------------------------------------------------------
  // Typing

  /** Every char of `s` is a space. */
  predicate AllSpaces(s: string) {
    forall i :: 0 <= i < |s| ==> s[i] == ' '
  }

  /** Column `c` of the row ends a run of 101 spaces: the window `chars_on_line[c - 100..]`. */
  predicate BlankRunEndsAt(g: Canvas, row: nat, c: nat) {
    c >= BLANK_RUN && AllSpaces(g.Row(row, c - BLANK_RUN, BLANK_RUN + 1))
  }

  /** The last cell of a run of spaces is a space. */
  lemma RunEndIsBlank(g: Canvas, row: nat, c: nat)
    requires BlankRunEndsAt(g, row, c)
    ensures g.Get(row, c) == ' '
  {
    assert g.Row(row, c - BLANK_RUN, BLANK_RUN + 1)[BLANK_RUN] == g.Get(row, c);
  }

  /**
   * How many cells the scan reads from the row, having read `col` of them:
   * it stops after the first column past `cursor + 100` that ends 101
   * spaces, and after column 9999 at the latest.
   */
  function ScanEnd(g: Canvas, row: nat, cursor: nat, col: nat): (n: nat)
    requires col <= SCAN_CAP
    ensures n <= SCAN_CAP && (col < SCAN_CAP ==> col < n) && (col == SCAN_CAP ==> n == SCAN_CAP)
    decreases SCAN_CAP - col
  {
    if col == SCAN_CAP then SCAN_CAP
    else if col > cursor + BLANK_RUN && BlankRunEndsAt(g, row, col) then col + 1
    else ScanEnd(g, row, cursor, col + 1)
  }

  /**
   * The scan reads at least one cell. When it stops before the cap, its last
   * column is past `cursor + 100` and ends 101 spaces, and no earlier such
   * column does.
   */
  lemma {:induction false} ScanStopsAtFirstRun(g: Canvas, row: nat, cursor: nat, col: nat)
    requires col < SCAN_CAP
    ensures var n := ScanEnd(g, row, cursor, col);
      && (n < SCAN_CAP ==> n - 1 > cursor + BLANK_RUN && BlankRunEndsAt(g, row, n - 1))
      && forall c :: col <= c < n - 1 && c > cursor + BLANK_RUN ==> !BlankRunEndsAt(g, row, c)
    decreases SCAN_CAP - col
  {
    if col + 1 < SCAN_CAP && !(col > cursor + BLANK_RUN && BlankRunEndsAt(g, row, col)) {
      ScanStopsAtFirstRun(g, row, cursor, col + 1);
    }
  }

  /** When the 101 cells after the cursor are spaces, the scan reads up to and including the last of them. */
  lemma {:induction false} ScanOverBlanks(g: Canvas, row: nat, cursor: nat, col: nat)
    requires col <= cursor + BLANK_RUN + 1 && cursor + BLANK_RUN + 1 < SCAN_CAP
    requires forall c :: cursor < c <= cursor + BLANK_RUN + 1 ==> g.Get(row, c) == ' '
    ensures ScanEnd(g, row, cursor, col) == cursor + BLANK_RUN + 2
    decreases cursor + BLANK_RUN + 1 - col
  {
    if col < cursor + BLANK_RUN + 1 {
      ScanOverBlanks(g, row, cursor, col + 1);
    } else {
      var w := g.Row(row, col - BLANK_RUN, BLANK_RUN + 1);
      assert forall i :: 0 <= i < |w| ==> w[i] == g.Get(row, col - BLANK_RUN + i);
    }
  }

  /**
   * The shift loop `for col in (from..chars.len()).rev()`, once the columns
   * from `chars.len() - 1` down to `k` are done: char `col` of the scan is
   * set at column `col + 1` when that is below 10000.
   */
  function ShiftedRight(g: Canvas, row: nat, chars: string, k: nat): Canvas
    decreases |chars| - k
  {
    if k >= |chars| then g
    else
      var h := ShiftedRight(g, row, chars, k + 1);
      if k + 1 < SCAN_CAP then h.Set(row, k + 1, chars[k]) else h
  }

  /** After the shift from `k`, cell `c` of the row holds scanned char `c - 1` for `k < c <= |chars|`, below 10000. */
  lemma {:induction false} ShiftedRightCell(g: Canvas, row: nat, chars: string, k: nat, r: nat, c: nat)
    ensures ShiftedRight(g, row, chars, k).Get(r, c) ==
      if r == row && k < c <= |chars| && c < SCAN_CAP then ReadBack(chars[c - 1]) else g.Get(r, c)
    decreases |chars| - k
  {
    if k < |chars| {
      var h := ShiftedRight(g, row, chars, k + 1);
      ShiftedRightCell(g, row, chars, k + 1, r, c);
      if k + 1 < SCAN_CAP {
        SetCell(h, row, k + 1, chars[k], r, c);
      }
    }
  }

  /** The cells the scan reads, in order. */
  function ScannedRow(g: Canvas, row: nat, cursor: nat): string {
    g.Row(row, 0, ScanEnd(g, row, cursor, 0))
  }

  /** Typing `ch`: the scanned cells from the cursor on move one right, `ch` goes at the cursor, the cursor moves right. */
  function Typed(s: EditorState, ch: char): EditorState {
    var chars := ScannedRow(s.canvas, s.row, s.col);
    s.(canvas := ShiftedRight(s.canvas, s.row, chars, s.col).Set(s.row, s.col, ch), col := s.col + 1)
  }

  /**
   * After typing, the cursor cell reads `ch`, each cell after it up to the
   * end of the scan (below 10000) holds what the cell to its left held, and
   * every other cell, on every other row, is unchanged.
   */
  lemma TypedCell(s: EditorState, ch: char, r: nat, c: nat)
    requires s.canvas.Valid()
    ensures var n := ScanEnd(s.canvas, s.row, s.col, 0);
      Typed(s, ch).canvas.Get(r, c) ==
        if r == s.row && c == s.col then ReadBack(ch)
        else if r == s.row && s.col < c <= n && c < SCAN_CAP then s.canvas.Get(r, c - 1)
        else s.canvas.Get(r, c)
    ensures Typed(s, ch).(canvas := s.canvas) == s.(col := s.col + 1)
  {
    var chars := ScannedRow(s.canvas, s.row, s.col);
    var h := ShiftedRight(s.canvas, s.row, chars, s.col);
    SetCell(h, s.row, s.col, ch, r, c);
    ShiftedRightCell(s.canvas, s.row, chars, s.col, r, c);
    if r == s.row && s.col < c <= |chars| && c < SCAN_CAP {
      GetIsStored(s.canvas, r, c - 1);
    }
  }

  /**
   * The cell just past a run of 101 spaces after the cursor is overwritten
   * with a space by typing: the scan stops before it, yet the shift writes
   * the last scanned space onto it.
   */
  lemma TypingErasesCellPastRun(s: EditorState, ch: char)
    requires s.canvas.Valid() && s.col + BLANK_RUN + 2 < SCAN_CAP
    requires forall c :: s.col < c <= s.col + BLANK_RUN + 1 ==> s.canvas.Get(s.row, c) == ' '
    ensures ScanEnd(s.canvas, s.row, s.col, 0) == s.col + BLANK_RUN + 2
    ensures Typed(s, ch).canvas.Get(s.row, s.col + BLANK_RUN + 2) == ' '
  {
    ScanOverBlanks(s.canvas, s.row, s.col, 0);
    TypedCell(s, ch, s.row, s.col + BLANK_RUN + 2);
  }

  /** An 'x' at column 102 of an otherwise empty grid is lost when a char is typed at (0, 0). */
  lemma TypingAtOriginLosesX()
    ensures var s := EditorState(EmptyCanvas.Set(0, 102, 'x'), None, 0, 0);
      s.canvas.Get(0, 102) == 'x' && Typed(s, 'a').canvas.Get(0, 102) == ' '
  {
    var g := EmptyCanvas.Set(0, 102, 'x');
    SetValid(EmptyCanvas, 0, 102, 'x');
    forall c | 0 <= c <= 102
      ensures g.Get(0, c) == if c == 102 then 'x' else ' '
    {
      SetCell(EmptyCanvas, 0, 102, 'x', 0, c);
    }
    TypingErasesCellPastRun(EditorState(g, None, 0, 0), 'a');
  }

  /**
   * Typing as evidently intended: the last cell the scan read, a space
   * whenever the scan stopped early, absorbs the shift, so the cell past it
   * keeps its char.
   */
  function TypedIntended(s: EditorState, ch: char): EditorState {
    var chars := ScannedRow(s.canvas, s.row, s.col);
    var moved := chars[..|chars| - 1];
    s.(canvas := ShiftedRight(s.canvas, s.row, moved, s.col).Set(s.row, s.col, ch), col := s.col + 1)
  }

  /**
   * Intended typing loses no char at or after the cursor: each one below
   * column 9999 is found one column right when the scan read it, and in
   * place when it lies past the scan.
   */
  lemma IntendedTypingKeepsEveryChar(s: EditorState, ch: char, c: nat)
    requires s.canvas.Valid() && s.col <= c && c + 1 < SCAN_CAP && s.canvas.Get(s.row, c) != ' '
    ensures var n := ScanEnd(s.canvas, s.row, s.col, 0);
      TypedIntended(s, ch).canvas.Get(s.row, if c < n then c + 1 else c) == s.canvas.Get(s.row, c)
  {
    GetIsStored(s.canvas, s.row, c);
    StoredCharKept(s, ch, c);
  }

  /** `IntendedTypingKeepsEveryChar` for one cell that reads back as itself. */
  lemma StoredCharKept(s: EditorState, ch: char, c: nat)
    requires s.col <= c && c + 1 < SCAN_CAP && s.canvas.Get(s.row, c) != ' '
    requires ReadBack(s.canvas.Get(s.row, c)) == s.canvas.Get(s.row, c)
    ensures var n := ScanEnd(s.canvas, s.row, s.col, 0);
      TypedIntended(s, ch).canvas.Get(s.row, if c < n then c + 1 else c) == s.canvas.Get(s.row, c)
  {
    var g := s.canvas;
    var n := ScanEnd(g, s.row, s.col, 0);
    ScanEndBlankOrCap(g, s.row, s.col);
    var chars := ScannedRow(g, s.row, s.col);
    assert TypedIntended(s, ch).canvas == ShiftedRight(g, s.row, chars[..n - 1], s.col).Set(s.row, s.col, ch);
    ShiftShortKeeps(g, s.row, s.col, ch, chars, c);
  }

  /**
   * The intended shift over the first `n` cells of a row, `n` reaching past
   * the cursor and ending on a space or at the cap, moves each non-blank
   * cell at or after the cursor one right, and keeps one past the cells.
   */
  lemma ShiftShortKeeps(g: Canvas, row: nat, cursor: nat, ch: char, chars: string, c: nat)
    requires 0 < |chars| && chars == g.Row(row, 0, |chars|)
    requires |chars| == SCAN_CAP || (cursor < |chars| && g.Get(row, |chars| - 1) == ' ')
    requires cursor <= c && c + 1 < SCAN_CAP && g.Get(row, c) != ' ' && ReadBack(g.Get(row, c)) == g.Get(row, c)
    ensures var d := if c < |chars| then c + 1 else c;
      ShiftedRight(g, row, chars[..|chars| - 1], cursor).Set(row, cursor, ch).Get(row, d) == g.Get(row, c)
  {
    var moved := chars[..|chars| - 1];
    if c < |chars| {
      MovedCharIsCell(g, row, chars, c);
    }
    var h := ShiftedRight(g, row, moved, cursor);
    var d := if c < |chars| then c + 1 else c;
    assert d != cursor && (c < |chars| <==> cursor < d <= |moved|);
    SetCell(h, row, cursor, ch, row, d);
    ShiftedRightCell(g, row, moved, cursor, row, d);
  }

  /** Below the cap, a non-blank scanned cell is not the last one scanned, and it reads back as itself. */
  lemma MovedCharIsCell(g: Canvas, row: nat, chars: string, c: nat)
    requires c < |chars| && chars == g.Row(row, 0, |chars|)
    requires |chars| == SCAN_CAP || g.Get(row, |chars| - 1) == ' '
    requires c + 1 < SCAN_CAP && g.Get(row, c) != ' ' && ReadBack(g.Get(row, c)) == g.Get(row, c)
    ensures c < |chars| - 1 && ReadBack(chars[..|chars| - 1][c]) == g.Get(row, c)
  {
    assert chars[c] == g.Get(row, c);
  }

  /** The scan reads at least one cell, and its last cell is a space unless it read all 10000. */
  lemma ScanEndBlankOrCap(g: Canvas, row: nat, cursor: nat)
    ensures var n := ScanEnd(g, row, cursor, 0);
      0 < n && (n == SCAN_CAP || (cursor + BLANK_RUN + 1 < n && g.Get(row, n - 1) == ' '))
  {
    ScanStopsAtFirstRun(g, row, cursor, 0);
    var n := ScanEnd(g, row, cursor, 0);
    if n < SCAN_CAP {
      RunEndIsBlank(g, row, n - 1);
    }
  }

  // ---------------------------------------------------------------------
  // Backspace, Delete and Enter

  /**
   * The column-0 Backspace join: the cursor row is blanked over the byte
   * length of `current`, the rows from `row` on get the snapshot line below
   * them, and `current` is appended to the row above at `prevLen`.
   */
  function JoinedUp(g: Canvas, lines: seq<string>, row: nat, current: string, prevLen: nat): Canvas
    requires row > 0
  {
    Undo.MovedUp(Blanked(g, row, ByteLen(current)), lines, row, |lines|).WriteRow(row - 1, prevLen, current, |current|, {})
  }

  /**
   * Backspace over the snapshot `lines`; None where the source panics, on
   * `lines[row - 1]` for a cursor at column 0 more than one row below the
   * last line.
   */
  function BackspaceOn(s: EditorState, lines: seq<string>): Option<EditorState> {
    if s.selection.Some? then Some(s.(canvas := Cut(s.canvas, s.selection.value), selection := None))
    else if s.col > 0 then
      var g := if s.row < |lines| then Retyped(s.canvas, s.row, ByteLen(lines[s.row]), Without(lines[s.row], s.col - 1)) else s.canvas;
      Some(s.(canvas := g, col := s.col - 1))
    else if s.row > 0 then
      if s.row - 1 >= |lines| then None
      else
        var prevLen := |lines[s.row - 1]|;
        Some(s.(canvas := JoinedUp(s.canvas, lines, s.row, LineOr(lines, s.row), prevLen), row := s.row - 1, col := prevLen))
    else Some(s)
  }

  /** Backspace panics exactly at column 0, with no selection, more than one row below the snapshot. */
  lemma BackspacePanicsIff(s: EditorState, lines: seq<string>)
    ensures BackspaceOn(s, lines).None? <==> s.selection.None? && s.col == 0 && s.row > |lines|
  {
  }

  /**
   * Backspace as evidently intended: a missing line above reads as "", so
   * the cursor just moves up to column 0.
   */
  function BackspaceIntendedOn(s: EditorState, lines: seq<string>): EditorState {
    if s.selection.Some? then s.(canvas := Cut(s.canvas, s.selection.value), selection := None)
    else if s.col > 0 then
      var g := if s.row < |lines| then Retyped(s.canvas, s.row, ByteLen(lines[s.row]), Without(lines[s.row], s.col - 1)) else s.canvas;
      s.(canvas := g, col := s.col - 1)
    else if s.row > 0 then
      var prevLen := |LineOr(lines, s.row - 1)|;
      s.(canvas := JoinedUp(s.canvas, lines, s.row, LineOr(lines, s.row), prevLen), row := s.row - 1, col := prevLen)
    else s
  }

  /**
   * The intended Backspace agrees with the source wherever the source does
   * not panic, and where it panics it leaves the grid alone and moves the
   * cursor to column 0 of the row above.
   */
  lemma IntendedBackspaceAgrees(s: EditorState, lines: seq<string>)
    ensures BackspaceOn(s, lines).Some? ==> BackspaceOn(s, lines).value == BackspaceIntendedOn(s, lines)
    ensures BackspaceOn(s, lines).None? ==> BackspaceIntendedOn(s, lines) == s.(row := s.row - 1, col := 0)
  {
    if BackspaceOn(s, lines).None? {
      assert Blanked(s.canvas, s.row, ByteLen("")) == s.canvas;
      assert Undo.MovedUp(s.canvas, lines, s.row, |lines|) == s.canvas;
    }
  }

  /**
   * Backspace with a selection blanks exactly the selected rectangle, drops
   * the selection and leaves the cursor where it was.
   */
  lemma BackspaceCutsSelection(s: EditorState, lines: seq<string>, r: nat, c: nat)
    requires s.canvas.Valid() && s.selection.Some?
    ensures BackspaceOn(s, lines).Some?
    ensures var t := BackspaceOn(s, lines).value;
      && t.selection.None? && t.row == s.row && t.col == s.col
      && t.canvas.Get(r, c) == if s.selection.value.Contains(r, c) then ' ' else s.canvas.Get(r, c)
  {
    var sel := s.selection.value;
    var b := sel.Bounds();
    CutFrame(s.canvas, Cut(s.canvas, sel), sel, Blanks(b.2 - b.0 + 1, b.3 - b.1 + 1));
  }

  /** A retyped row: `text` from column 0, spaces up to `width`, the rest as before; other rows unchanged. */
  lemma RetypedCell(g: Canvas, row: nat, width: nat, text: string, r: nat, c: nat)
    ensures Retyped(g, row, width, text).Get(r, c) ==
      if r == row && c < |text| then ReadBack(text[c])
      else if r == row && c < width then ' '
      else g.Get(r, c)
  {
    BlankedCell(g, row, width, r, c);
    WriteRowCell(Blanked(g, row, width), row, 0, text, |text|, {}, r, c);
  }

  /** Blanking a row's first `width` columns leaves a space in each of them and every other cell as it was. */
  lemma BlankedCell(g: Canvas, row: nat, width: nat, r: nat, c: nat)
    ensures Blanked(g, row, width).Get(r, c) == if r == row && c < width then ' ' else g.Get(r, c)
  {
    WriteRowCell(g, row, 0, Undo.Spaces(width), width, {}, r, c);
  }

  /**
   * Backspace at column `col` > 0 of a snapshot line rewrites that row
   * from column 0 with the line minus its char `col - 1`, blanks the rest
   * of the line's byte length, and moves the cursor one left.
   */
  lemma BackspaceInRow(s: EditorState, lines: seq<string>, r: nat, c: nat)
    requires s.selection.None? && s.col > 0 && s.row < |lines|
    ensures BackspaceOn(s, lines).Some?
    ensures var t := BackspaceOn(s, lines).value; var kept := Without(lines[s.row], s.col - 1);
      && t.row == s.row && t.col == s.col - 1 && t.selection.None?
      && t.canvas.Get(r, c) ==
           if r == s.row && c < |kept| then ReadBack(kept[c])
           else if r == s.row && c < ByteLen(lines[s.row]) then ' '
           else s.canvas.Get(r, c)
  {
    RetypedCell(s.canvas, s.row, ByteLen(lines[s.row]), Without(lines[s.row], s.col - 1), r, c);
  }

  /** When the content starts at (0, 0), a cell reads as its char in the `to_lines` snapshot, a space past the line. */
  lemma AnchoredCell(g: Canvas, b: Box, r: nat, c: nat)
    requires g.Valid() && NoWhitespaceStored(g) && IsContentBox(g.chunks, b) && b.0 == 0 && b.1 == 0
    requires r < |g.Export()|
    ensures g.Get(r, c) == if c < |g.Export()[r]| then ReadBack(g.Export()[r][c]) else ' '
  {
    ExportImportTranslates(g, b, r, c);
  }

  /**
   * When the content starts at (0, 0), Backspace at column `col` > 0 over
   * the text deletes the cell before the cursor: every cell from there on
   * along the row takes the value of its right neighbour.
   */
  lemma BackspaceDeletesBeforeCursor(s: EditorState, b: Box, r: nat, c: nat)
    requires s.canvas.Valid() && NoWhitespaceStored(s.canvas) && IsContentBox(s.canvas.chunks, b) && b.0 == 0 && b.1 == 0
    requires s.selection.None? && s.row < |s.canvas.Export()| && 0 < s.col <= |s.canvas.Export()[s.row]|
    ensures BackspaceOn(s, s.canvas.Export()).Some?
    ensures BackspaceOn(s, s.canvas.Export()).value.canvas.Get(r, c) ==
      if r == s.row && c >= s.col - 1 then s.canvas.Get(r, c + 1) else s.canvas.Get(r, c)
  {
    var lines := s.canvas.Export();
    BackspaceInRow(s, lines, r, c);
    if r == s.row {
      var line := lines[s.row];
      var d := if c >= s.col - 1 then c + 1 else c;
      var written := BackspaceOn(s, lines).value.canvas.Get(r, c);
      AnchoredCell(s.canvas, b, r, c);
      AnchoredCell(s.canvas, b, r, d);
      ByteLenBounds(line);
      assert written == RowAfterDelete(line, s.col - 1, c);
      DeletedCell(line, s.col - 1, c);
    }
  }

  /** The cell `c` of a row Backspace rewrote from `line` minus char `i`, over a grid blank past the line. */
  function RowAfterDelete(line: string, i: nat, c: nat): char {
    var kept := Without(line, i);
    if c < |kept| then ReadBack(kept[c]) else ' '
  }

  /** The rewritten row read at `c` is the old line read one cell further on from `i`. */
  lemma DeletedCell(line: string, i: nat, c: nat)
    requires i < |line|
    ensures var d := if c >= i then c + 1 else c;
      RowAfterDelete(line, i, c) == if d < |line| then ReadBack(line[d]) else ' '
  {
  }

  /**
   * The column-0 join cell by cell: the line taken up is appended to the
   * row above from `prevLen`; each row from `row` on gets the snapshot line
   * below it; the cursor row's first `ByteLen(current)` cells are blank
   * before that.
   */
  lemma JoinedUpCell(g: Canvas, lines: seq<string>, row: nat, current: string, prevLen: nat, r: nat, c: nat)
    requires row > 0
    ensures var before := if r == row && c < ByteLen(current) then ' ' else g.Get(r, c);
      JoinedUp(g, lines, row, current, prevLen).Get(r, c) ==
        if r + 1 == row && prevLen <= c < prevLen + |current| then ReadBack(current[c - prevLen])
        else if row <= r < |lines| then Undo.RewrittenCell(Undo.Following(lines, r), c, before)
        else before
  {
    var h := Undo.MovedUp(Blanked(g, row, ByteLen(current)), lines, row, |lines|);
    BlankedMovedUpCell(g, lines, row, ByteLen(current), r, c);
    WriteRowCell(h, row - 1, prevLen, current, |current|, {}, r, c);
    var v := JoinedUp(g, lines, row, current, prevLen).Get(r, c);
    if r + 1 == row && prevLen <= c < prevLen + |current| {
      assert v == ReadBack(current[c - prevLen]);
    } else {
      assert v == h.Get(r, c);
    }
  }

  /** Blanking a row and moving the rows from it up: each of them gets the snapshot line below it over the blanked cells. */
  lemma BlankedMovedUpCell(g: Canvas, lines: seq<string>, row: nat, width: nat, r: nat, c: nat)
    ensures var before := if r == row && c < width then ' ' else g.Get(r, c);
      Undo.MovedUp(Blanked(g, row, width), lines, row, |lines|).Get(r, c) ==
        if row <= r < |lines| then Undo.RewrittenCell(Undo.Following(lines, r), c, before) else before
  {
    BlankedCell(g, row, width, r, c);
    Undo.MovedUpCell(Blanked(g, row, width), lines, row, |lines|, r, c);
  }

  /**
   * Backspace at column 0 on a row that has a line above joins the rows:
   * the cursor goes to the end of the line above.
   */
  lemma BackspaceJoinsRows(s: EditorState, lines: seq<string>)
    requires s.selection.None? && s.col == 0 && 0 < s.row <= |lines|
    ensures BackspaceOn(s, lines).Some?
    ensures var t := BackspaceOn(s, lines).value;
      && t.row == s.row - 1 && t.col == |lines[s.row - 1]|
      && t.canvas == JoinedUp(s.canvas, lines, s.row, LineOr(lines, s.row), |lines[s.row - 1]|)
  {
  }

  /**
   * The Delete arm over the snapshot: inside a line the char at the cursor
   * goes; at a line's end the next line is appended and the rows below move
   * up; the cursor stays.
   */
  function DeleteOn(s: EditorState, lines: seq<string>): (r: EditorState)
    ensures r.(canvas := s.canvas) == s
  {
    if s.row < |lines| then
      var line := lines[s.row];
      if s.col < |line| then s.(canvas := Retyped(s.canvas, s.row, ByteLen(line), Without(line, s.col)))
      else if s.row + 1 < |lines| then s.(canvas := JoinedDown(s.canvas, lines, s.row, |line|, lines[s.row + 1]))
      else s
    else s
  }

  /** The three outcomes of `DeleteOn`, each stated on its own. */
  lemma DeleteOnBranches(s: EditorState, lines: seq<string>, t: EditorState)
    ensures s.row < |lines| && s.col < |lines[s.row]| &&
      t == s.(canvas := Retyped(s.canvas, s.row, ByteLen(lines[s.row]), Without(lines[s.row], s.col)))
      ==> t == DeleteOn(s, lines)
    ensures s.row < |lines| && s.col >= |lines[s.row]| && s.row + 1 < |lines| &&
      t == s.(canvas := JoinedDown(s.canvas, lines, s.row, |lines[s.row]|, lines[s.row + 1]))
      ==> t == DeleteOn(s, lines)
    ensures (s.row >= |lines| || (s.col >= |lines[s.row]| && s.row + 1 >= |lines|)) && t == s
      ==> t == DeleteOn(s, lines)
  {
  }

  /**
   * The Delete join at a line's end: `next` is appended at column
   * `lineLen`, the row below is blanked over its byte length, and the rows
   * from there on get the snapshot line below them.
   */
  function JoinedDown(g: Canvas, lines: seq<string>, row: nat, lineLen: nat, next: string): Canvas {
    Undo.MovedUp(Blanked(g.WriteRow(row, lineLen, next, |next|, {}), row + 1, ByteLen(next)), lines, row + 1, |lines|)
  }

  /**
   * Delete at a line's end, cell by cell: the next line is appended from
   * the line's end, the next row's first `ByteLen(next)` cells are blank,
   * and each row below the cursor gets the snapshot line below it.
   */
  lemma DeleteJoinsCell(s: EditorState, lines: seq<string>, r: nat, c: nat)
    requires s.row + 1 < |lines| && s.col >= |lines[s.row]|
    ensures var line, next := lines[s.row], lines[s.row + 1];
      var before :=
        if r == s.row + 1 && c < ByteLen(next) then ' '
        else if r == s.row && |line| <= c < |line| + |next| then ReadBack(next[c - |line|])
        else s.canvas.Get(r, c);
      DeleteOn(s, lines).canvas.Get(r, c) ==
        if s.row + 1 <= r < |lines| then Undo.RewrittenCell(Undo.Following(lines, r), c, before) else before
  {
    var line, next := lines[s.row], lines[s.row + 1];
    var appended := s.canvas.WriteRow(s.row, |line|, next, |next|, {});
    DeleteOnBranches(s, lines, s.(canvas := JoinedDown(s.canvas, lines, s.row, |line|, next)));
    assert DeleteOn(s, lines).canvas == Undo.MovedUp(Blanked(appended, s.row + 1, ByteLen(next)), lines, s.row + 1, |lines|);
    WriteRowCell(s.canvas, s.row, |line|, next, |next|, {}, r, c);
    assert appended.Get(r, c) ==
      if r == s.row && |line| <= c < |line| + |next| then ReadBack(next[c - |line|]) else s.canvas.Get(r, c);
    BlankedMovedUpCell(appended, lines, s.row + 1, ByteLen(next), r, c);
  }

  /** Delete inside a line rewrites its row with the line minus the char at the cursor. */
  lemma DeleteInRow(s: EditorState, lines: seq<string>, r: nat, c: nat)
    requires s.row < |lines| && s.col < |lines[s.row]|
    ensures var kept := Without(lines[s.row], s.col);
      DeleteOn(s, lines).canvas.Get(r, c) ==
        if r == s.row && c < |kept| then ReadBack(kept[c])
        else if r == s.row && c < ByteLen(lines[s.row]) then ' '
        else s.canvas.Get(r, c)
  {
    RetypedCell(s.canvas, s.row, ByteLen(lines[s.row]), Without(lines[s.row], s.col), r, c);
  }

  /**
   * Enter over the snapshot: the rows below the cursor move down one, the
   * cursor row keeps the text before the cursor, the next row gets the text
   * after it, and the cursor goes to the start of the next row.
   */
  function EnterOn(s: EditorState, lines: seq<string>): EditorState {
    var current := LineOr(lines, s.row);
    var k := Min(s.col, |current|);
    s.(canvas := SplitAt(s.canvas, lines, s.row, current, k), row := s.row + 1, col := 0)
  }

  /**
   * The Enter split of `current` at `k`: the rows below `row` move down one,
   * row `row` is retyped with `current[..k]` and the row below gets
   * `current[k..]` from column 0.
   */
  function SplitAt(g: Canvas, lines: seq<string>, row: nat, current: string, k: nat): Canvas
    requires k <= |current|
  {
    var shifted := Undo.MovedDown(g, lines, row + 1, row + 1);
    Retyped(shifted, row, ByteLen(current), current[..k]).WriteRow(row + 1, 0, current[k..], |current| - k, {})
  }

  /**
   * Enter cell by cell: the cursor row holds the text before the cursor and
   * spaces over the rest of its byte length; the next row holds the text
   * after the cursor from column 0; each lower row up to the snapshot's
   * length gets the snapshot line above it.
   */
  lemma EnterCell(s: EditorState, lines: seq<string>, r: nat, c: nat)
    ensures var current := LineOr(lines, s.row); var k := Min(s.col, |current|);
      var t := EnterOn(s, lines);
      && t.row == s.row + 1 && t.col == 0 && t.selection == s.selection
      && t.canvas.Get(r, c) ==
           if r == s.row then (if c < k then ReadBack(current[c]) else if c < ByteLen(current) then ' ' else s.canvas.Get(r, c))
           else if r == s.row + 1 then
             (if c < |current| - k then ReadBack(current[k + c]) else if r <= |lines| && c < Undo.REWRITE_WIDTH then ' ' else s.canvas.Get(r, c))
           else if s.row + 1 < r <= |lines| then Undo.RewrittenCell(lines[r - 1], c, s.canvas.Get(r, c))
           else s.canvas.Get(r, c)
  {
    var current := LineOr(lines, s.row);
    SplitAtCell(s.canvas, lines, s.row, current, Min(s.col, |current|), r, c);
  }

  /** The rows below `row` moved down one, then row `row` retyped with `current[..k]`. */
  lemma MovedDownRetypedCell(g: Canvas, lines: seq<string>, row: nat, current: string, k: nat, r: nat, c: nat)
    requires k <= |current|
    ensures Retyped(Undo.MovedDown(g, lines, row + 1, row + 1), row, ByteLen(current), current[..k]).Get(r, c) ==
      if r == row then (if c < k then ReadBack(current[c]) else if c < ByteLen(current) then ' ' else g.Get(r, c))
      else if r == row + 1 then (if r <= |lines| && c < Undo.REWRITE_WIDTH then ' ' else g.Get(r, c))
      else if row + 1 < r <= |lines| then Undo.RewrittenCell(lines[r - 1], c, g.Get(r, c))
      else g.Get(r, c)
  {
    var shifted := Undo.MovedDown(g, lines, row + 1, row + 1);
    Undo.MovedDownCell(g, lines, row + 1, row + 1, r, c);
    RetypedCell(shifted, row, ByteLen(current), current[..k], r, c);
  }

  /** `EnterCell` for the canvas alone. */
  lemma SplitAtCell(g: Canvas, lines: seq<string>, row: nat, current: string, k: nat, r: nat, c: nat)
    requires k <= |current|
    ensures SplitAt(g, lines, row, current, k).Get(r, c) ==
      if r == row then (if c < k then ReadBack(current[c]) else if c < ByteLen(current) then ' ' else g.Get(r, c))
      else if r == row + 1 then
        (if c < |current| - k then ReadBack(current[k + c]) else if r <= |lines| && c < Undo.REWRITE_WIDTH then ' ' else g.Get(r, c))
      else if row + 1 < r <= |lines| then Undo.RewrittenCell(lines[r - 1], c, g.Get(r, c))
      else g.Get(r, c)
  {
    var h := Retyped(Undo.MovedDown(g, lines, row + 1, row + 1), row, ByteLen(current), current[..k]);
    assert SplitAt(g, lines, row, current, k) == h.WriteRow(row + 1, 0, current[k..], |current| - k, {});
    MovedDownRetypedCell(g, lines, row, current, k, r, c);
    TailWrittenCell(h, row + 1, current, k, r, c);
  }

  /** `current[k..]` written from column 0 of `row`. */
  lemma TailWrittenCell(h: Canvas, row: nat, current: string, k: nat, r: nat, c: nat)
    requires k <= |current|
    ensures h.WriteRow(row, 0, current[k..], |current| - k, {}).Get(r, c) ==
      if r == row && c < |current| - k then ReadBack(current[k + c]) else h.Get(r, c)
  {
    WriteRowCell(h, row, 0, current[k..], |current| - k, {}, r, c);
  }

  // ---------------------------------------------------------------------
  // The handler

  /**
   * The arms of `handle_input` modelled here, over the snapshot `lines`;
   * None where the source panics. Keys the title editor, the note and
   * clipboard shortcuts take first are not modelled; any other key changes
   * nothing.
   */
  function HandleOn(s: EditorState, key: Kitty.KeyEvent, lines: seq<string>): (r: Option<EditorState>)
    ensures r.None? <==> key.code == Kitty.Backspace && s.selection.None? && s.col == 0 && s.row > |lines|
  {
    var ctrl := key.modifiers.Contains(Kitty.CONTROL);
    if key.code == Kitty.Char('a') && ctrl then Some(SelectedAll(s, lines))
    else if key.code == Kitty.KeyCode.Esc then Some(s.(selection := None))
    else
      match key.code
      case Up => Some(if ctrl then s else UpOne(s))
      case Down => Some(if ctrl then s else DownOne(s))
      case Left => Some(LeftOn(s, lines))
      case Right => Some(RightOn(s, lines))
      case Backspace => BackspacePanicsIff(s, lines); BackspaceOn(s, lines)
      case Enter => Some(EnterOn(s, lines))
      case Char(c) => Some(if ctrl || key.modifiers.Contains(Kitty.SUPER) then s else Typed(s, c))
      case _ => Some(s)
  }

  /** `handle_input` on the grid's own `to_lines` snapshot. */
  ghost function Handle(s: EditorState, key: Kitty.KeyEvent): Option<EditorState>
    requires s.canvas.Valid()
  {
    HandleOn(s, key, s.canvas.Export())
  }

  /** Moving two rows below an empty grid and pressing Backspace panics. */
  lemma BackspaceBelowEmptyGridPanics()
    ensures EmptyCanvas.Valid()
    ensures Handle(EditorState(EmptyCanvas, None, 2, 0), Kitty.KeyEvent(Kitty.Backspace, Kitty.NoModifiers)).None?
  {
    ExportImportEmpty(EmptyCanvas, 0, 0);
  }

  // ---------------------------------------------------------------------
  // The editor object

  /** `line` with its char at `i` left out, built char by char as the arms do. */
  method DropChar(line: string, i: nat) returns (kept: string)
    ensures kept == Without(line, i)
  {
    kept := [];
    var j := 0;
    while j < |line|
      invariant j <= |line|
      invariant kept == if j <= i then line[..j] else line[..i] + line[i + 1..j]
    {
      if j != i {
        if j < i {
          assert line[..j] + [line[j]] == line[..j + 1];
        } else {
          assert line[i + 1..j] + [line[j]] == line[i + 1..j + 1];
        }
        kept := kept + [line[j]];
      } else {
        assert line[i + 1..j + 1] == [];
      }
      j := j + 1;
    }
    assert line[..|line|] == line;
  }

  /** The `App` fields the edit arms use: the grid and the cursor. */
  class Editor {
    const grid: ChunkedGrid
    var cursorRow: nat
    var cursorCol: nat

    ghost predicate Valid()
      reads this, grid
    {
      grid.Valid()
    }

    function State(): EditorState
      reads this, grid
    {
      EditorState(grid.State(), grid.selection, cursorRow, cursorCol)
    }

    /** An editor over `grid` with the cursor at (0, 0). */
    constructor (grid: ChunkedGrid)
      ensures this.grid == grid && cursorRow == 0 && cursorCol == 0
    {
      this.grid := grid;
      cursorRow := 0;
      cursorCol := 0;
    }

    /** `handle_input` for the modelled arms; `panicked` where the source panics, with nothing changed. */
    method HandleKey(key: Kitty.KeyEvent) returns (panicked: bool)
      requires Valid()
      modifies this, grid
      ensures Valid()
      ensures panicked <==> Handle(old(State()), key).None?
      ensures !panicked ==> State() == Handle(old(State()), key).value
      ensures panicked ==> State() == old(State())
    {
      var lines := grid.ToLines();
      panicked := false;
      if key.code == Kitty.Char('a') && key.modifiers.Contains(Kitty.CONTROL) {
        SelectAll(lines);
      } else if key.code == Kitty.KeyCode.Esc {
        grid.ClearSelection();
      } else {
        panicked := EditKey(key, lines);
      }
    }

    /** The arms of `handle_input` after Ctrl+A and Esc, against the snapshot `lines`. */
    method EditKey(key: Kitty.KeyEvent, lines: seq<string>) returns (panicked: bool)
      requires Valid()
      requires !(key.code == Kitty.Char('a') && key.modifiers.Contains(Kitty.CONTROL)) && key.code != Kitty.KeyCode.Esc
      modifies this`cursorRow, this`cursorCol, grid
      ensures Valid()
      ensures panicked <==> HandleOn(old(State()), key, lines).None?
      ensures !panicked ==> State() == HandleOn(old(State()), key, lines).value
      ensures panicked ==> State() == old(State())
    {
      panicked := false;
      var ctrl := key.modifiers.Contains(Kitty.CONTROL);
      match key.code
      case Up =>
        if !ctrl && cursorRow > 0 {
          cursorRow := cursorRow - 1;
        }
      case Down =>
        if !ctrl {
          cursorRow := cursorRow + 1;
        }
      case Left => MoveLeft(lines);
      case Right => MoveRight(lines);
      case Backspace => panicked := DeleteBack(lines);
      case Enter => SplitLine(lines);
      case Char(c) =>
        if !ctrl && !key.modifiers.Contains(Kitty.SUPER) {
          TypeChar(c);
        }
      case _ =>
    }

    /** Ctrl+A. */
    method SelectAll(lines: seq<string>)
      modifies grid`selection
      ensures State() == SelectedAll(old(State()), lines)
    {
      if lines != [] {
        var maxCol := Ints.SatSub(MaxWidth(lines), 1);
        grid.StartSelection(0, 0);
        grid.UpdateSelection(|lines| - 1, maxCol);
      }
    }

    /** Left arrow. */
    method MoveLeft(lines: seq<string>)
      modifies this`cursorRow, this`cursorCol
      ensures State() == LeftOn(old(State()), lines)
    {
      if cursorCol > 0 {
        cursorCol := cursorCol - 1;
      } else if cursorRow > 0 {
        cursorRow := cursorRow - 1;
        if cursorRow < |lines| {
          cursorCol := |lines[cursorRow]|;
        }
      }
    }

    /** Right arrow. */
    method MoveRight(lines: seq<string>)
      modifies this`cursorRow, this`cursorCol
      ensures State() == RightOn(old(State()), lines)
    {
      if cursorRow < |lines| {
        var lineLen := |lines[cursorRow]|;
        if cursorCol < lineLen {
          cursorCol := cursorCol + 1;
        } else {
          cursorRow := cursorRow + 1;
          cursorCol := 0;
        }
      } else {
        cursorCol := cursorCol + 1;
      }
    }

    /** Backspace. */
    method DeleteBack(lines: seq<string>) returns (panicked: bool)
      requires Valid()
      modifies this`cursorRow, this`cursorCol, grid
      ensures Valid()
      ensures panicked <==> BackspaceOn(old(State()), lines).None?
      ensures !panicked ==> State() == BackspaceOn(old(State()), lines).value
      ensures panicked ==> State() == old(State())
    {
      panicked := false;
      if grid.selection.Some? {
        var cut := grid.CutBlock();
        return;
      }
      if cursorCol > 0 {
        if cursorRow < |lines| {
          var line := lines[cursorRow];
          var kept := DropChar(line, cursorCol - 1);
          Retype(cursorRow, ByteLen(line), kept);
        }
        cursorCol := cursorCol - 1;
      } else if cursorRow > 0 {
        if cursorRow - 1 >= |lines| {
          return true;
        }
        var current := LineOr(lines, cursorRow);
        var prevLen := |lines[cursorRow - 1]|;
        JoinUp(lines, cursorRow, current, prevLen);
        cursorRow := cursorRow - 1;
        cursorCol := prevLen;
      }
    }

    /** The Delete arm; no `KeyCode` value reaches it. */
    method DeleteForward(lines: seq<string>)
      requires Valid()
      modifies grid`chunks, grid`minChunk, grid`maxChunk
      ensures Valid() && State() == DeleteOn(old(State()), lines)
    {
      ghost var s0 := State();
      if cursorRow < |lines| {
        var line := lines[cursorRow];
        var lineLen := |line|;
        if cursorCol < lineLen {
          var kept := DropChar(line, cursorCol);
          Retype(cursorRow, ByteLen(line), kept);
          DeleteOnBranches(s0, lines, State());
        } else if cursorRow + 1 < |lines| {
          JoinDown(lines, cursorRow, lineLen, lines[cursorRow + 1]);
          DeleteOnBranches(s0, lines, State());
        } else {
          DeleteOnBranches(s0, lines, State());
        }
      } else {
        DeleteOnBranches(s0, lines, State());
      }
    }

    /** Enter. */
    method SplitLine(lines: seq<string>)
      requires Valid()
      modifies this`cursorRow, this`cursorCol, grid`chunks, grid`minChunk, grid`maxChunk
      ensures Valid() && State() == EnterOn(old(State()), lines)
    {
      var current := LineOr(lines, cursorRow);
      Split(lines, cursorRow, current, Min(cursorCol, |current|));
      cursorRow := cursorRow + 1;
      cursorCol := 0;
    }

    /** A printable key: scan the row, shift from the cursor right by one, write the char. */
    method TypeChar(ch: char)
      requires Valid()
      modifies this`cursorCol, grid`chunks, grid`minChunk, grid`maxChunk
      ensures Valid() && State() == Typed(old(State()), ch)
    {
      ghost var s0 := State();
      var chars := ScanRow(cursorRow, cursorCol);
      assert chars == ScannedRow(s0.canvas, s0.row, s0.col);
      assert grid.selection == s0.selection;
      ShiftRight(cursorRow, cursorCol, chars);
      assert grid.selection == s0.selection;
      ghost var g1 := grid.State();
      assert g1 == ShiftedRight(s0.canvas, s0.row, chars, s0.col);
      grid.Set(cursorRow, cursorCol, ch);
      ghost var g2 := grid.State();
      assert g2 == g1.Set(s0.row, s0.col, ch);
      cursorCol := cursorCol + 1;
      assert grid.selection == s0.selection;
      assert State() == EditorState(g2, s0.selection, s0.row, s0.col + 1);
      TypedIs(s0, ch, chars, State());
    }

    /** The scan loop: the row's cells from column 0 until the stop condition or the cap. */
    method ScanRow(row: nat, cursor: nat) returns (chars: string)
      ensures chars == ScannedRow(grid.State(), row, cursor)
    {
      ghost var g := grid.State();
      chars := [];
      var col := 0;
      while col < SCAN_CAP
        invariant col <= SCAN_CAP && chars == g.Row(row, 0, col)
        invariant ScanEnd(g, row, cursor, 0) == ScanEnd(g, row, cursor, col)
      {
        chars := chars + [grid.Get(row, col)];
        assert chars == g.Row(row, 0, col + 1);
        if col > cursor + BLANK_RUN {
          WindowOfScan(g, row, col, chars);
          if AllSpaces(chars[col - BLANK_RUN..]) {
            return;
          }
        }
        col := col + 1;
      }
    }

    /** The shift loop `for col in (cursor..chars.len()).rev()`. */
    method ShiftRight(row: nat, cursor: nat, chars: string)
      modifies grid`chunks, grid`minChunk, grid`maxChunk
      ensures grid.State() == ShiftedRight(old(grid.State()), row, chars, cursor)
      ensures old(grid.Valid()) ==> grid.Valid()
    {
      ghost var g0 := grid.State();
      if cursor < |chars| {
        var col := |chars|;
        while col > cursor
          invariant cursor <= col <= |chars|
          invariant grid.State() == ShiftedRight(g0, row, chars, col)
          invariant g0.Valid() ==> grid.Valid()
        {
          col := col - 1;
          if col + 1 < SCAN_CAP {
            grid.Set(row, col + 1, chars[col]);
          }
        }
      }
    }

    /** A row blanked over `width` columns and rewritten from column 0. */
    method Retype(row: nat, width: nat, text: string)
      modifies grid`chunks, grid`minChunk, grid`maxChunk
      ensures grid.State() == Retyped(old(grid.State()), row, width, text)
      ensures old(grid.Valid()) ==> grid.Valid()
    {
      grid.WriteLine(row, 0, Undo.Spaces(width), {});
      grid.WriteLine(row, 0, text, {});
    }

    /** The Delete join at a line's end. */
    method JoinDown(lines: seq<string>, row: nat, lineLen: nat, next: string)
      modifies grid`chunks, grid`minChunk, grid`maxChunk
      ensures grid.State() == JoinedDown(old(grid.State()), lines, row, lineLen, next)
      ensures old(grid.Valid()) ==> grid.Valid()
    {
      grid.WriteLine(row, lineLen, next, {});
      grid.WriteLine(row + 1, 0, Undo.Spaces(ByteLen(next)), {});
      Undo.MoveRowsUp(grid, lines, row + 1);
    }

    /** The Enter split. */
    method Split(lines: seq<string>, row: nat, current: string, k: nat)
      requires k <= |current|
      modifies grid`chunks, grid`minChunk, grid`maxChunk
      ensures grid.State() == SplitAt(old(grid.State()), lines, row, current, k)
      ensures old(grid.Valid()) ==> grid.Valid()
    {
      ghost var g0 := grid.State();
      Undo.MoveRowsDown(grid, lines, row + 1, row + 1);
      ghost var g1 := grid.State();
      Retype(row, ByteLen(current), current[..k]);
      ghost var g2 := grid.State();
      assert g2 == Retyped(Undo.MovedDown(g0, lines, row + 1, row + 1), row, ByteLen(current), current[..k]);
      grid.WriteLine(row + 1, 0, current[k..], {});
      assert |current[k..]| == |current| - k;
    }

    /** The column-0 Backspace join after its `to_lines` snapshot. */
    method JoinUp(lines: seq<string>, row: nat, current: string, prevLen: nat)
      requires row > 0
      modifies grid`chunks, grid`minChunk, grid`maxChunk
      ensures grid.State() == JoinedUp(old(grid.State()), lines, row, current, prevLen)
      ensures old(grid.Valid()) ==> grid.Valid()
    {
      ghost var g0 := grid.State();
      grid.WriteLine(row, 0, Undo.Spaces(ByteLen(current)), {});
      ghost var g1 := grid.State();
      assert g1 == Blanked(g0, row, ByteLen(current));
      Undo.MoveRowsUp(grid, lines, row);
      ghost var g2 := grid.State();
      assert g2 == Undo.MovedUp(g1, lines, row, |lines|);
      grid.WriteLine(row - 1, prevLen, current, {});
    }
  }

  /** `Typed` in terms of the scanned cells. */
  lemma TypedIs(s: EditorState, ch: char, chars: string, t: EditorState)
    requires chars == ScannedRow(s.canvas, s.row, s.col)
    requires t == s.(canvas := ShiftedRight(s.canvas, s.row, chars, s.col).Set(s.row, s.col, ch), col := s.col + 1)
    ensures t == Typed(s, ch)
  {
  }

  /** The scan's window `chars_on_line[col - 100..]` is the run of cells ending at `col`. */
  lemma WindowOfScan(g: Canvas, row: nat, col: nat, chars: string)
    requires col >= BLANK_RUN && chars == g.Row(row, 0, col + 1)
    ensures chars[col - BLANK_RUN..] == g.Row(row, col - BLANK_RUN, BLANK_RUN + 1)
  {
  }
}
