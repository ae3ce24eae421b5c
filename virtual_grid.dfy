/**
 * The virtual grid: grid-aware editing on top of a rope. Reads past the end
 * of a line, or below the last line, see a virtual space; writes there first
 * pad the line with real spaces (and add lines), then replace one char in
 * place, so that text to the right never shifts.
 */
module Virtual {
  import opened Wrappers
  import opened Text
  import opened Rope
  import opened Ints
  import Selection

  /** What the grid shows at (line, col): the line's char, or a virtual space. */
  function View(ls: seq<string>, line: nat, col: nat): char {
    if line < |ls| && col < |ls[line]| then ls[line][col] else ' '
  }

  /** The length of line `line`, or 0 below the last line. */
  function ExistingLen(ls: seq<string>, line: nat): nat {
    if line < |ls| then |ls[line]| else 0
  }

  /** How many values the inclusive range `first..=last` holds. */
  function Span(first: nat, last: nat): nat {
    if first <= last then last - first + 1 else 0
  }

  /** No row holds a '\n'. */
  predicate NoBreaks(rows: seq<string>) {
    forall i :: 0 <= i < |rows| ==> '\n' !in rows[i]
  }

  /** `h` rows of `w` spaces. */
  function Blanks(w: nat, h: nat): (r: seq<string>)
    ensures |r| == h && forall i :: 0 <= i < h ==> r[i] == Repeat(' ', w)
  {
    seq(h, _ => Repeat(' ', w))
  }

  lemma SpacesHaveNoBreak(n: nat)
    ensures '\n' !in Repeat(' ', n)
  {
    var r := Repeat(' ', n);
    forall i | 0 <= i < |r| ensures r[i] != '\n' { }
  }

  /** `Blanks` rows hold no '\n'. */
  lemma BlanksHaveNoBreaks(w: nat, h: nat)
    ensures NoBreaks(Blanks(w, h))
  {
    SpacesHaveNoBreak(w);
  }

  /** The rope and the record of lines padded past their end, as plain values. */
  datatype Grid = Grid(rope: seq<string>, virtualCols: map<nat, nat>) {

    ghost predicate Valid() {
      IsRope(rope)
    }

    /**
     * What `ensure_line_length` leaves: the lines missing up to `line` added
     * empty, line `line` padded with spaces to `minLength`, and `minLength`
     * noted for the line when it was padded.
     */
    function EnsureLineLength(line: nat, minLength: nat): (g: Grid)
      ensures line < |g.rope| && minLength <= |g.rope[line]|
    {
      var ls := if line >= |rope| then AddLines(rope, line - |rope| + 1) else rope;
      if minLength > |ls[line]| then
        Grid(ls[line := ls[line] + Repeat(' ', minLength - |ls[line]|)], virtualCols[line := minLength])
      else
        Grid(ls, virtualCols)
    }

    /**
     * What `set_char_at` leaves: the line made at least `col + 1` long, then
     * the char at column `col` replaced (a '\n' splitting the line around it).
     */
    function SetCharAt(col: nat, line: nat, ch: char): (g: Grid)
      ensures |g.rope| >= 1
    {
      var p := EnsureLineLength(line, col + 1);
      p.(rope := ReplaceCol(p.rope, line, col, ch))
    }

    /** The first `n` chars of `text` set from (line, col) rightwards, in order. */
    function WriteRow(col: nat, line: nat, text: string, n: nat): (g: Grid)
      requires n <= |text|
      decreases n
    {
      if n == 0 then this else WriteRow(col, line, text, n - 1).SetCharAt(col + n - 1, line, text[n - 1])
    }

    /** The first `n` rows written from (line, col) downwards, row by row. */
    function WriteBlock(col: nat, line: nat, rows: seq<string>, n: nat): (g: Grid)
      requires n <= |rows|
      decreases n
    {
      if n == 0 then this
      else WriteBlock(col, line, rows, n - 1).WriteRow(col, line + n - 1, rows[n - 1], |rows[n - 1]|)
    }
  }

  /**
   * Padding is invisible: the grid shows the same chars everywhere; the line
   * then exists and is at least `minLength` long, other lines are as they were
   * (or empty when added), and the padded line is recorded iff it was padded.
   */
  lemma EnsureLineLengthSpec(g: Grid, line: nat, minLength: nat)
    ensures var r := g.EnsureLineLength(line, minLength);
      && (g.Valid() ==> r.Valid())
      && |r.rope| == Selection.Max(|g.rope|, line + 1)
      && |r.rope[line]| == Selection.Max(ExistingLen(g.rope, line), minLength)
      && (forall l :: 0 <= l < |r.rope| && l != line ==> r.rope[l] == if l < |g.rope| then g.rope[l] else "")
      && (forall l: nat, c: nat :: View(r.rope, l, c) == View(g.rope, l, c))
      && r.virtualCols == if minLength > ExistingLen(g.rope, line) then g.virtualCols[line := minLength] else g.virtualCols
  {
    var rope := g.rope;
    var ls := if line >= |rope| then AddLines(rope, line - |rope| + 1) else rope;
    assert forall l :: 0 <= l < |ls| ==> ls[l] == if l < |rope| then rope[l] else "";
    assert |ls[line]| == ExistingLen(rope, line);
    if minLength > |ls[line]| {
      var padding := Repeat(' ', minLength - |ls[line]|);
      SpacesHaveNoBreak(minLength - |ls[line]|);
      PaddedView(ls, line, padding);
      if g.Valid() {
        PaddedRope(ls, line, padding);
      }
    }
    AddedView(rope, ls);
  }

  /** Appending a text without '\n' to a line of a rope leaves a rope. */
  lemma PaddedRope(ls: seq<string>, line: nat, padding: string)
    requires IsRope(ls) && line < |ls| && '\n' !in padding
    ensures IsRope(ls[line := ls[line] + padding])
  {
    var r := ls[line := ls[line] + padding];
    forall k | 0 <= k < |r| ensures '\n' !in r[k] {
      if k == line {
        forall i | 0 <= i < |r[k]| ensures r[k][i] != '\n' {
          if i < |ls[line]| { assert r[k][i] == ls[line][i]; } else { assert r[k][i] == padding[i - |ls[line]|]; }
        }
      }
    }
  }

  /** Appending a text of spaces to a line changes no cell of the view. */
  lemma PaddedView(ls: seq<string>, line: nat, padding: string)
    requires line < |ls| && forall i :: 0 <= i < |padding| ==> padding[i] == ' '
    ensures forall l: nat, c: nat :: View(ls[line := ls[line] + padding], l, c) == View(ls, l, c)
  {
  }

  /** Empty lines added below change no cell of the view. */
  lemma AddedView(rope: seq<string>, ls: seq<string>)
    requires |rope| <= |ls| && forall l :: 0 <= l < |ls| ==> ls[l] == if l < |rope| then rope[l] else ""
    ensures forall l: nat, c: nat :: View(ls, l, c) == View(rope, l, c)
  {
  }

  /** `set_char_at` keeps the rope a rope, whatever the char. */
  lemma SetCharAtKeepsRope(g: Grid, col: nat, line: nat, ch: char)
    requires g.Valid()
    ensures g.SetCharAt(col, line, ch).Valid()
  {
    EnsureLineLengthSpec(g, line, col + 1);
    ReplaceColKeepsRope(g.EnsureLineLength(line, col + 1).rope, line, col, ch);
  }

  /**
   * `set_char_at` adds the lines up to `line` (and one more when a '\n'
   * splits it), and records the line as padded iff it was shorter than
   * `col + 1`.
   */
  lemma SetCharAtShape(g: Grid, col: nat, line: nat, ch: char)
    ensures var r := g.SetCharAt(col, line, ch);
      && r.virtualCols == (if col + 1 > ExistingLen(g.rope, line) then g.virtualCols[line := col + 1] else g.virtualCols)
      && |r.rope| == Selection.Max(|g.rope|, line + 1) + (if ch == '\n' then 1 else 0)
  {
    EnsureLineLengthSpec(g, line, col + 1);
  }

  /**
   * Read after write: a char other than '\n' set at (line, col) is shown
   * there, and every other cell shows what it showed.
   */
  lemma SetCharAtSpec(g: Grid, col: nat, line: nat, ch: char)
    requires ch != '\n'
    ensures forall l: nat, c: nat :: View(g.SetCharAt(col, line, ch).rope, l, c) ==
                                      if l == line && c == col then ch else View(g.rope, l, c)
  {
    EnsureLineLengthSpec(g, line, col + 1);
    ReplacedView(g.EnsureLineLength(line, col + 1).rope, line, col, ch);
  }

  /** Replacing one char inside a line changes that cell of the view only. */
  lemma ReplacedView(ls: seq<string>, line: nat, col: nat, ch: char)
    requires line < |ls| && col < |ls[line]| && ch != '\n'
    ensures forall l: nat, c: nat :: View(ReplaceCol(ls, line, col, ch), l, c) == if l == line && c == col then ch else View(ls, l, c)
  {
  }

  /** Writing a row keeps the rope a rope, whatever the row holds. */
  lemma {:induction false} WriteRowKeepsRope(g: Grid, col: nat, line: nat, text: string, n: nat)
    requires g.Valid() && n <= |text|
    ensures g.WriteRow(col, line, text, n).Valid()
    decreases n
  {
    if n > 0 {
      WriteRowKeepsRope(g, col, line, text, n - 1);
      SetCharAtKeepsRope(g.WriteRow(col, line, text, n - 1), col + n - 1, line, text[n - 1]);
    }
  }

  /** Writing a row reaches its line as soon as one char is written. */
  lemma {:induction false} WriteRowLength(g: Grid, col: nat, line: nat, text: string, n: nat)
    requires n <= |text|
    ensures |g.WriteRow(col, line, text, n).rope| >= |g.rope|
    ensures '\n' !in text ==> |g.WriteRow(col, line, text, n).rope| == if n == 0 then |g.rope| else Selection.Max(|g.rope|, line + 1)
    decreases n
  {
    if n > 0 {
      WriteRowLength(g, col, line, text, n - 1);
      SetCharAtShape(g.WriteRow(col, line, text, n - 1), col + n - 1, line, text[n - 1]);
    }
  }

  /**
   * Writing a row without '\n' shows its first `n` chars from (line, col)
   * and leaves every other cell as it was.
   */
  lemma {:induction false} WriteRowSpec(g: Grid, col: nat, line: nat, text: string, n: nat)
    requires n <= |text| && '\n' !in text
    ensures forall l: nat, c: nat :: View(g.WriteRow(col, line, text, n).rope, l, c) ==
                                      if l == line && col <= c < col + n then text[c - col] else View(g.rope, l, c)
    decreases n
  {
    if n > 0 {
      var prev := g.WriteRow(col, line, text, n - 1);
      WriteRowSpec(g, col, line, text, n - 1);
      assert text[n - 1] != '\n';
      SetCharAtSpec(prev, col + n - 1, line, text[n - 1]);
    }
  }

  /** Writing rows keeps the rope a rope, whatever the rows hold. */
  lemma {:induction false} WriteBlockKeepsRope(g: Grid, col: nat, line: nat, rows: seq<string>, n: nat)
    requires g.Valid() && n <= |rows|
    ensures g.WriteBlock(col, line, rows, n).Valid()
    decreases n
  {
    if n > 0 {
      WriteBlockKeepsRope(g, col, line, rows, n - 1);
      WriteRowKeepsRope(g.WriteBlock(col, line, rows, n - 1), col, line + n - 1, rows[n - 1], |rows[n - 1]|);
    }
  }

  /** Writing rows without '\n' reaches every line a non-empty row was written to. */
  lemma {:induction false} WriteBlockLength(g: Grid, col: nat, line: nat, rows: seq<string>, n: nat)
    requires n <= |rows| && NoBreaks(rows)
    ensures var r := g.WriteBlock(col, line, rows, n);
      |r.rope| >= |g.rope| && forall i :: 0 <= i < n && |rows[i]| > 0 ==> line + i < |r.rope|
    decreases n
  {
    if n > 0 {
      WriteBlockLength(g, col, line, rows, n - 1);
      WriteRowLength(g.WriteBlock(col, line, rows, n - 1), col, line + n - 1, rows[n - 1], |rows[n - 1]|);
    }
  }

  /**
   * Writing rows without '\n' shows row `i`'s chars on line `line + i` from
   * `col` and leaves every other cell as it was.
   */
  lemma {:induction false} WriteBlockSpec(g: Grid, col: nat, line: nat, rows: seq<string>, n: nat)
    requires n <= |rows| && NoBreaks(rows)
    ensures forall l: nat, c: nat :: View(g.WriteBlock(col, line, rows, n).rope, l, c) ==
                                      if line <= l < line + n && col <= c < col + |rows[l - line]| then rows[l - line][c - col] else View(g.rope, l, c)
    decreases n
  {
    if n > 0 {
      var prev := g.WriteBlock(col, line, rows, n - 1);
      WriteBlockSpec(g, col, line, rows, n - 1);
      WriteRowSpec(prev, col, line + n - 1, rows[n - 1], |rows[n - 1]|);
    }
  }

  /** The `n` cells shown on `line` from column `first` on. */
  function Cells(ls: seq<string>, line: nat, first: nat, n: nat): (s: string)
    ensures |s| == n && forall k :: 0 <= k < n ==> s[k] == View(ls, line, first + k)
  {
    seq(n, k requires 0 <= k => View(ls, line, first + k))
  }

  /** `get_block`'s row for `line`: the shown chars of the columns, or nothing below the last line. */
  function BlockRow(ls: seq<string>, line: nat, first: nat, last: nat): (s: string)
    ensures |s| == if line < |ls| then Span(first, last) else 0
  {
    if line >= |ls| then "" else Cells(ls, line, first, Span(first, last))
  }

  /** `get_block`: one row per line of the inclusive range. */
  function Block(ls: seq<string>, firstCol: nat, firstLine: nat, lastCol: nat, lastLine: nat): (b: seq<string>)
    ensures |b| == Span(firstLine, lastLine)
    ensures forall i :: 0 <= i < |b| ==> b[i] == BlockRow(ls, firstLine + i, firstCol, lastCol)
  {
    seq(Span(firstLine, lastLine), i requires 0 <= i => BlockRow(ls, firstLine + i, firstCol, lastCol))
  }

  /** `cut_block`'s row for `line`: the shown chars, a space for each cell below the last line. */
  function CutRow(ls: seq<string>, line: nat, first: nat, last: nat): (s: string)
    ensures |s| == Span(first, last)
  {
    Cells(ls, line, first, Span(first, last))
  }

  /** The rows `cut_block` returns for a rectangle. */
  function CutRows(ls: seq<string>, firstCol: nat, firstLine: nat, lastCol: nat, lastLine: nat): (b: seq<string>)
    ensures |b| == Span(firstLine, lastLine)
    ensures forall i :: 0 <= i < |b| ==> b[i] == CutRow(ls, firstLine + i, firstCol, lastCol)
  {
    seq(Span(firstLine, lastLine), i requires 0 <= i => CutRow(ls, firstLine + i, firstCol, lastCol))
  }

  /** A rope shows no '\n' anywhere, so what is cut holds none either. */
  lemma CutRowsHaveNoBreaks(ls: seq<string>, firstCol: nat, firstLine: nat, lastCol: nat, lastLine: nat)
    requires IsRope(ls)
    ensures NoBreaks(CutRows(ls, firstCol, firstLine, lastCol, lastLine))
  {
    var b := CutRows(ls, firstCol, firstLine, lastCol, lastLine);
    forall i | 0 <= i < |b| ensures '\n' !in b[i] {
      var l := firstLine + i;
      assert b[i] == CutRow(ls, l, firstCol, lastCol);
      forall j | 0 <= j < |b[i]| ensures b[i][j] != '\n' {
        var c := firstCol + j;
        assert b[i][j] == View(ls, l, c);
        if l < |ls| && c < |ls[l]| {
          assert ls[l][c] in ls[l];
        }
      }
    }
  }

  /**
   * Paste then copy: a rectangle of rows, each `w` wide and without '\n',
   * pasted at (line, col) is exactly what `get_block` then reads back there.
   */
  lemma PasteThenGetBlock(g: Grid, col: nat, line: nat, data: seq<string>, w: nat)
    requires |data| >= 1 && w >= 1 && NoBreaks(data)
    requires forall i :: 0 <= i < |data| ==> |data[i]| == w
    ensures Block(g.WriteBlock(col, line, data, |data|).rope, col, line, col + w - 1, line + |data| - 1) == data
  {
    var r := g.WriteBlock(col, line, data, |data|);
    WriteBlockSpec(g, col, line, data, |data|);
    WriteBlockLength(g, col, line, data, |data|);
    var b := Block(r.rope, col, line, col + w - 1, line + |data| - 1);
    forall i | 0 <= i < |data| ensures b[i] == data[i] {
      assert b[i] == BlockRow(r.rope, line + i, col, col + w - 1);
      forall c | 0 <= c < w ensures View(r.rope, line + i, col + c) == data[i][c] {
        assert (line + i) - line == i && (col + c) - col == c;
      }
      RowReadBack(r.rope, line + i, col, data[i]);
    }
  }

  /** A line that shows `text` from `col` on is what `get_block` reads there. */
  lemma RowReadBack(ls: seq<string>, line: nat, col: nat, text: string)
    requires line < |ls| && |text| >= 1
    requires forall c :: 0 <= c < |text| ==> View(ls, line, col + c) == text[c]
    ensures BlockRow(ls, line, col, col + |text| - 1) == text
  {
  }

  /**
   * Cut then paste: cutting a rectangle blanks it and keeps every other cell;
   * pasting the cut rows back at the same corner shows the original grid.
   */
  lemma CutThenPaste(g: Grid, firstCol: nat, firstLine: nat, lastCol: nat, lastLine: nat)
    requires g.Valid()
    ensures var w, h := Span(firstCol, lastCol), Span(firstLine, lastLine);
      var blanked := g.WriteBlock(firstCol, firstLine, Blanks(w, h), h);
      var cut := CutRows(g.rope, firstCol, firstLine, lastCol, lastLine);
      && (forall l: nat, c: nat :: View(blanked.rope, l, c) ==
            if firstLine <= l <= lastLine && firstCol <= c <= lastCol then ' ' else View(g.rope, l, c))
      && (forall l: nat, c: nat :: View(blanked.WriteBlock(firstCol, firstLine, cut, h).rope, l, c) == View(g.rope, l, c))
  {
    var w, h := Span(firstCol, lastCol), Span(firstLine, lastLine);
    var blanks := Blanks(w, h);
    var cut := CutRows(g.rope, firstCol, firstLine, lastCol, lastLine);
    BlanksHaveNoBreaks(w, h);
    CutRowsHaveNoBreaks(g.rope, firstCol, firstLine, lastCol, lastLine);
    var blanked := g.WriteBlock(firstCol, firstLine, blanks, h);
    WriteBlockSpec(g, firstCol, firstLine, blanks, h);
    var back := blanked.WriteBlock(firstCol, firstLine, cut, h);
    WriteBlockSpec(blanked, firstCol, firstLine, cut, h);
    forall l: nat, c: nat
      ensures View(blanked.rope, l, c) == if firstLine <= l <= lastLine && firstCol <= c <= lastCol then ' ' else View(g.rope, l, c)
      ensures View(back.rope, l, c) == View(g.rope, l, c)
    {
      if firstLine <= l <= lastLine && firstCol <= c <= lastCol {
        assert blanks[l - firstLine][c - firstCol] == ' ';
        assert cut[l - firstLine] == CutRow(g.rope, l, firstCol, lastCol);
        assert cut[l - firstLine][c - firstCol] == View(g.rope, l, c);
      }
    }
  }

  /** The grid of `VirtualGrid::new(rope)`, its rope and its record of padded lines. */
  class VirtualGrid {
    var rope: seq<string>
    var virtualCols: map<nat, nat>

    ghost predicate Valid()
      reads this
    {
      IsRope(rope)
    }

    function State(): Grid
      reads this
    {
      Grid(rope, virtualCols)
    }

    /** `VirtualGrid::new`: nothing padded yet. */
    constructor (rope: seq<string>)
      requires IsRope(rope)
      ensures Valid() && this.rope == rope && virtualCols == map[]
    {
      this.rope := rope;
      virtualCols := map[];
    }

    /**
     * `get_char_at`: None below the last line; else the char the line has at
     * `col`, found at the line's start offset plus `col`, or a virtual space.
     */
    function GetCharAt(col: nat, line: nat): (r: Option<char>)
      reads this
      ensures r == if line >= |rope| then None else Some(View(rope, line, col))
    {
      if line >= |rope| then None
      else
        var lineStart := LineToChar(rope, line);
        var lineEnd := LineEnd(rope, line);
        var lineLen := SatSub(lineEnd, lineStart);
        if col < lineLen then
          CharAtLine(rope, line, col);
          Some(CharAt(rope, lineStart + col))
        else Some(' ')
    }

    /** `ensure_line_length`, on the offsets the rope reports. */
    method EnsureLineLength(line: nat, minLength: nat)
      modifies this
      ensures State() == old(State()).EnsureLineLength(line, minLength)
    {
      if line >= |rope| {
        var linesToAdd := line - |rope| + 1;
        rope := AddLines(rope, linesToAdd);
      }
      var lineStart := LineToChar(rope, line);
      var lineEnd := LineEnd(rope, line);
      var currentLen := SatSub(lineEnd, lineStart);
      if minLength > currentLen {
        var padding := Repeat(' ', minLength - currentLen);
        SpacesHaveNoBreak(minLength - currentLen);
        InsertTextAtLineEnd(rope, line, padding);
        rope := InsertText(rope, lineEnd, padding);
        virtualCols := virtualCols[line := minLength];
      }
    }

    /** `set_char_at`: the char at the cell's offset replaced, once the line is long enough. */
    method SetCharAt(col: nat, line: nat, ch: char)
      modifies this
      ensures State() == old(State()).SetCharAt(col, line, ch)
    {
      ghost var g0 := State();
      EnsureLineLength(line, col + 1);
      EnsureLineLengthSpec(g0, line, col + 1);
      var lineStart := LineToChar(rope, line);
      var charPos := lineStart + col;
      ReplaceInLine(rope, line, col, ch);
      if charPos >= LenChars(rope) {
        return;
      }
      rope := ReplaceAt(rope, charPos, ch);
    }

    /** `get_line_length`: the real length of the line, without virtual spaces. */
    function GetLineLength(line: nat): (n: nat)
      reads this
      ensures n == ExistingLen(rope, line)
    {
      if line >= |rope| then 0
      else SatSub(LineEnd(rope, line), LineToChar(rope, line))
    }

    /** `get_virtual_line_length`: the real length, or the padded length recorded when longer. */
    function GetVirtualLineLength(line: nat): (n: nat)
      reads this
      ensures n >= GetLineLength(line)
      ensures n == GetLineLength(line) || (line in virtualCols && n == virtualCols[line])
      ensures line in virtualCols ==> n >= virtualCols[line]
    {
      var actualLen := GetLineLength(line);
      if line in virtualCols then Selection.Max(virtualCols[line], actualLen) else actualLen
    }

    method ClearVirtualCols(line: nat)
      modifies this
      ensures rope == old(rope) && virtualCols == old(virtualCols) - {line}
    {
      virtualCols := virtualCols - {line};
    }

    method ClearAllVirtualCols()
      modifies this
      ensures rope == old(rope) && virtualCols == map[]
    {
      virtualCols := map[];
    }

    /** The inner loop of `get_block`: the chars present for one line. */
    method ReadRow(line: nat, first: nat, last: nat) returns (text: string)
      ensures text == BlockRow(rope, line, first, last)
    {
      ghost var ls := rope;
      text := "";
      var j := 0;
      while j < Span(first, last)
        invariant 0 <= j <= Span(first, last)
        invariant line >= |ls| ==> text == ""
        invariant line < |ls| ==> text == Cells(ls, line, first, j)
      {
        match GetCharAt(first + j, line) {
          case Some(ch) =>
            assert line < |ls| && ch == View(ls, line, first + j);
            assert Cells(ls, line, first, j + 1) == Cells(ls, line, first, j) + [ch];
            text := text + [ch];
          case None =>
            assert line >= |ls|;
        }
        j := j + 1;
      }
    }

    /** `get_block`: the rows of the rectangle, inclusive. */
    method GetBlock(startCol: nat, startLine: nat, endCol: nat, endLine: nat) returns (result: seq<string>)
      ensures result == Block(rope, startCol, startLine, endCol, endLine)
    {
      ghost var b := Block(rope, startCol, startLine, endCol, endLine);
      result := [];
      var i := 0;
      while i < Span(startLine, endLine)
        invariant 0 <= i <= Span(startLine, endLine)
        invariant result == b[..i]
      {
        var lineText := ReadRow(startLine + i, startCol, endCol);
        assert b[..i + 1] == b[..i] + [lineText];
        result := result + [lineText];
        i := i + 1;
      }
    }

    /** The inner loop of the block writers: the chars of `text` set from (line, col) rightwards. */
    method WriteRow(col: nat, line: nat, text: string)
      modifies this
      ensures State() == old(State()).WriteRow(col, line, text, |text|)
    {
      ghost var g0 := State();
      var j := 0;
      while j < |text|
        invariant 0 <= j <= |text|
        invariant State() == g0.WriteRow(col, line, text, j)
      {
        WriteCell(g0, col, line, text, j);
        j := j + 1;
      }
    }

    /** One step of the block writers' inner loop: char `j` of `text` set after the first `j`. */
    method WriteCell(ghost g0: Grid, col: nat, line: nat, text: string, j: nat)
      requires j < |text| && State() == g0.WriteRow(col, line, text, j)
      modifies this
      ensures State() == g0.WriteRow(col, line, text, j + 1)
    {
      SetCharAt(col + j, line, text[j]);
    }

    /** `set_block`: rows written downwards from (startLine, startCol). */
    method SetBlock(startCol: nat, startLine: nat, lines: seq<string>)
      modifies this
      ensures State() == old(State()).WriteBlock(startCol, startLine, lines, |lines|)
    {
      ghost var g0 := State();
      var i := 0;
      while i < |lines|
        invariant 0 <= i <= |lines|
        invariant State() == g0.WriteBlock(startCol, startLine, lines, i)
      {
        WriteRow(startCol, startLine + i, lines[i]);
        i := i + 1;
      }
    }

    /** `delete_block`: a space set in each cell of the rectangle, line by line. */
    method DeleteBlock(startCol: nat, startLine: nat, endCol: nat, endLine: nat)
      modifies this
      ensures var w, h := Span(startCol, endCol), Span(startLine, endLine);
        State() == old(State()).WriteBlock(startCol, startLine, Blanks(w, h), h)
    {
      ghost var g0 := State();
      var w, h := Span(startCol, endCol), Span(startLine, endLine);
      ghost var blanks := Blanks(w, h);
      var spaces := Repeat(' ', w);
      var i := 0;
      while i < h
        invariant 0 <= i <= h
        invariant State() == g0.WriteBlock(startCol, startLine, blanks, i)
      {
        assert blanks[i] == spaces;
        WriteRow(startCol, startLine + i, spaces);
        i := i + 1;
      }
    }

    /**
     * `cut_block`: for each line of the selection, read its cells (a space
     * where there is no line), then set them to spaces. The rows returned are
     * the cells before the cut.
     */
    method CutBlock(selection: Selection.BlockSelection) returns (cutData: seq<string>)
      modifies this
      ensures var ((sl, sc), (el, ec)) := selection.Normalized();
        && cutData == CutRows(old(rope), sc, sl, ec, el)
        && State() == old(State()).WriteBlock(sc, sl, Blanks(Span(sc, ec), Span(sl, el)), Span(sl, el))
    {
      var ((startLine, startCol), (endLine, endCol)) := selection.Normalized();
      ghost var g0 := State();
      var w, h := Span(startCol, endCol), Span(startLine, endLine);
      ghost var blanks := Blanks(w, h);
      BlanksHaveNoBreaks(w, h);
      var spaces := Repeat(' ', w);
      cutData := [];
      var i := 0;
      while i < h
        invariant 0 <= i <= h
        invariant State() == g0.WriteBlock(startCol, startLine, blanks, i)
        invariant cutData == CutRows(g0.rope, startCol, startLine, endCol, endLine)[..i]
      {
        var extracted := CutRowAt(g0, startCol, startLine, endCol, blanks, i, spaces);
        ghost var cut := CutRows(g0.rope, startCol, startLine, endCol, endLine);
        assert cut[..i + 1] == cut[..i] + [cut[i]];
        cutData := cutData + [extracted];
        i := i + 1;
      }
    }

    /** One line of `cut_block`: the row `i` of the rectangle read, then blanked. */
    method CutRowAt(ghost g0: Grid, startCol: nat, startLine: nat, endCol: nat, ghost blanks: seq<string>, i: nat, spaces: string)
        returns (extracted: string)
      requires i < |blanks| && NoBreaks(blanks) && blanks[i] == spaces
      requires State() == g0.WriteBlock(startCol, startLine, blanks, i)
      modifies this
      ensures extracted == CutRow(g0.rope, startLine + i, startCol, endCol)
      ensures State() == g0.WriteBlock(startCol, startLine, blanks, i + 1)
    {
      extracted := ExtractRow(startLine + i, startCol, endCol);
      CutRowUntouched(g0, startCol, startLine, blanks, i, endCol);
      WriteRow(startCol, startLine + i, spaces);
    }

    /** The extracting loop of `cut_block`: a space stands in where there is no line. */
    method ExtractRow(line: nat, first: nat, last: nat) returns (extracted: string)
      ensures extracted == CutRow(rope, line, first, last)
    {
      ghost var ls := rope;
      extracted := "";
      var j := 0;
      while j < Span(first, last)
        invariant 0 <= j <= Span(first, last)
        invariant extracted == Cells(ls, line, first, j)
      {
        ghost var next := Cells(ls, line, first, j + 1);
        match GetCharAt(first + j, line) {
          case Some(ch) =>
            assert next == Cells(ls, line, first, j) + [ch];
            extracted := extracted + [ch];
          case None =>
            assert next == Cells(ls, line, first, j) + [' '];
            extracted := extracted + [' '];
        }
        j := j + 1;
      }
    }

    /** `paste_block`: the rows written downwards from the cursor. */
    method PasteBlock(cursorLine: nat, cursorCol: nat, data: seq<string>)
      modifies this
      ensures State() == old(State()).WriteBlock(cursorCol, cursorLine, data, |data|)
    {
      ghost var g0 := State();
      var i := 0;
      while i < |data|
        invariant 0 <= i <= |data|
        invariant State() == g0.WriteBlock(cursorCol, cursorLine, data, i)
      {
        WriteRow(cursorCol, cursorLine + i, data[i]);
        i := i + 1;
      }
    }
  }

  /** Blanking the lines above line `line + i` leaves that line's cut row as it was. */
  lemma CutRowUntouched(g: Grid, col: nat, line: nat, blanks: seq<string>, i: nat, last: nat)
    requires i < |blanks| && NoBreaks(blanks)
    ensures CutRow(g.WriteBlock(col, line, blanks, i).rope, line + i, col, last) == CutRow(g.rope, line + i, col, last)
  {
    WriteBlockSpec(g, col, line, blanks, i);
  }

  /** `test_virtual_spaces`: a write past the end of a line pads it and reads back. */
  lemma VirtualSpacesExample()
    ensures View(["Hello", "World"], 0, 10) == ' '
    ensures var g := Grid(["Hello", "World"], map[]).SetCharAt(10, 0, 'X');
      View(g.rope, 0, 10) == 'X' && View(g.rope, 0, 9) == ' '
  {
    SetCharAtSpec(Grid(["Hello", "World"], map[]), 10, 0, 'X');
  }

  /** `test_block_operations`, first half: reading a block. */
  lemma GetBlockExample()
    ensures Block(["12345", "ABCDE", "fghij"], 1, 0, 3, 2) == ["234", "BCD", "ghi"]
  {
    var ls := ["12345", "ABCDE", "fghij"];
    var b := Block(ls, 1, 0, 3, 2);
    assert b[0] == Cells(ls, 0, 1, 3) == "234";
    assert b[1] == Cells(ls, 1, 1, 3) == "BCD";
    assert b[2] == Cells(ls, 2, 1, 3) == "ghi";
  }

  /** `test_block_operations`, second half: writing a block over it. */
  lemma SetBlockExample()
    ensures var g := Grid(["12345", "ABCDE", "fghij"], map[]).WriteBlock(1, 0, ["XXX", "YYY"], 2);
      View(g.rope, 0, 1) == 'X' && View(g.rope, 1, 1) == 'Y'
  {
    var rows := ["XXX", "YYY"];
    assert '\n' !in rows[0] && '\n' !in rows[1];
    WriteBlockSpec(Grid(["12345", "ABCDE", "fghij"], map[]), 1, 0, rows, 2);
  }
}
