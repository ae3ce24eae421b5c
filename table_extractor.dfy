/**
 * The integer parts of the table extractor: building a table from rows of
 * text segments, and rendering a table as Markdown and as a boxed character
 * grid.  Segment positions are f32 in the source; here they are reals that
 * only travel with the segment.  The Markdown and grid renderers defined
 * here are shared by the second and third extractor, whose loops differ
 * only in which text they put in each slot.
 */
module TableExtractor {
  import opened Wrappers
  import opened Text

  /** A text segment with its bounding box: `(String, f32, f32, f32, f32)`. */
  datatype Segment = Segment(text: string, x: real, y: real, width: real, height: real)

  /** `TableCell`: its text and its row and column index (its box is not modelled). */
  datatype Cell = Cell(text: string, row: nat, col: nat)

  /** `Table`: rows of cells (the bounding box is not modelled). */
  datatype Table = Table(cells: seq<seq<Cell>>)

  function Max(a: nat, b: nat): nat { if a <= b then b else a }

  // ---------------------------------------------------------------------
  // create_table_from_rows

  /** `cells` is row `i` of the table built from `row`: one cell per segment, indexed by position. */
  predicate RowBuilt(row: seq<Segment>, i: nat, cells: seq<Cell>) {
    |cells| == |row| && forall j :: 0 <= j < |row| ==> cells[j] == Cell(row[j].text, i, j)
  }

  /** `cells` is the table built from `rows`. */
  predicate Built(rows: seq<seq<Segment>>, cells: seq<seq<Cell>>) {
    |cells| == |rows| && forall i :: 0 <= i < |rows| ==> RowBuilt(rows[i], i, cells[i])
  }

  /** The table `create_table_from_rows` builds, for the detectors' contracts. */
  function TableOf(rows: seq<seq<Segment>>): (t: Table)
    ensures Built(rows, t.cells)
  {
    Table(seq(|rows|, i requires 0 <= i < |rows| =>
      seq(|rows[i]|, j requires 0 <= j < |rows[i]| => Cell(rows[i][j].text, i, j))))
  }

  /** `create_table_from_rows`: None for no rows, otherwise cell `[i][j]` carries segment `[i][j]`'s text and the indices `i`, `j`. */
  method CreateTableFromRows(rows: seq<seq<Segment>>) returns (t: Option<Table>)
    ensures t.None? <==> rows == []
    ensures t.Some? ==> Built(rows, t.value.cells)
  {
    if rows == [] {
      return None;
    }
    var cells: seq<seq<Cell>> := [];
    var rowIdx := 0;
    while rowIdx < |rows|
      invariant 0 <= rowIdx <= |rows|
      invariant |cells| == rowIdx
      invariant forall i :: 0 <= i < rowIdx ==> RowBuilt(rows[i], i, cells[i])
    {
      var row := rows[rowIdx];
      var rowCells: seq<Cell> := [];
      var colIdx := 0;
      while colIdx < |row|
        invariant 0 <= colIdx <= |row|
        invariant |rowCells| == colIdx
        invariant forall j :: 0 <= j < colIdx ==> rowCells[j] == Cell(row[j].text, rowIdx, j)
      {
        rowCells := rowCells + [Cell(row[colIdx].text, rowIdx, colIdx)];
        colIdx := colIdx + 1;
      }
      cells := cells + [rowCells];
      rowIdx := rowIdx + 1;
    }
    t := Some(Table(cells));
  }

  /** The built table is the same whichever way it is built. */
  lemma BuiltIsTableOf(rows: seq<seq<Segment>>, cells: seq<seq<Cell>>)
    requires Built(rows, cells)
    ensures cells == TableOf(rows).cells
  {
    var t := TableOf(rows);
    forall i | 0 <= i < |rows| ensures cells[i] == t.cells[i] {
      assert RowBuilt(rows[i], i, t.cells[i]);
    }
  }

  // ---------------------------------------------------------------------
  // Cell texts

  function RowTexts(row: seq<Cell>): (r: seq<string>)
    ensures |r| == |row| && forall j :: 0 <= j < |row| ==> r[j] == row[j].text
  {
    seq(|row|, j requires 0 <= j < |row| => row[j].text)
  }

  function Texts(t: Table): (r: seq<seq<string>>)
    ensures |r| == |t.cells| && forall i :: 0 <= i < |r| ==> r[i] == RowTexts(t.cells[i])
  {
    seq(|t.cells|, i requires 0 <= i < |t.cells| => RowTexts(t.cells[i]))
  }

  /** `rows.iter().map(|row| row.len()).max().unwrap_or(0)`. */
  function MaxLen<T>(rows: seq<seq<T>>): (m: nat)
    ensures forall i :: 0 <= i < |rows| ==> |rows[i]| <= m
  {
    if rows == [] then 0 else Max(MaxLen(rows[..|rows| - 1]), |rows[|rows| - 1]|)
  }

  /** The maximum is the length of some row (or 0 for no rows). */
  lemma {:induction false} MaxLenAttained<T>(rows: seq<seq<T>>)
    ensures rows == [] ==> MaxLen(rows) == 0
    ensures rows != [] ==> exists i :: 0 <= i < |rows| && |rows[i]| == MaxLen(rows)
  {
    if rows != [] {
      var init := rows[..|rows| - 1];
      MaxLenAttained(init);
      if init != [] && |rows[|rows| - 1]| < MaxLen(init) {
        var i :| 0 <= i < |init| && |init[i]| == MaxLen(init);
        assert rows[i] == init[i];
      } else {
        assert |rows[|rows| - 1]| == MaxLen(rows);
      }
    }
  }

  // ---------------------------------------------------------------------
  // Markdown

  /** `format!(" {} |", text)`. */
  function Slot(text: string): string { " " + text + " |" }

  function Slots(texts: seq<string>): string {
    if texts == [] then [] else Slots(texts[..|texts| - 1]) + Slot(texts[|texts| - 1])
  }

  /** `n` empty slots, `" |"` each. */
  function Fill(n: nat): string {
    if n == 0 then [] else Fill(n - 1) + " |"
  }

  /** `n` separator slots, `" --- |"` each. */
  function Dashes(n: nat): string {
    if n == 0 then [] else Dashes(n - 1) + " --- |"
  }

  /** A Markdown row: the cells, then empty slots up to `maxCols`. */
  function MarkdownRow(texts: seq<string>, maxCols: nat): string {
    "|" + Slots(texts) + Fill(if |texts| < maxCols then maxCols - |texts| else 0)
  }

  function SeparatorRow(maxCols: nat): string {
    "|" + Dashes(maxCols)
  }

  /** The header row, the separator, then the other rows. */
  function MarkdownLines(rows: seq<seq<string>>, maxCols: nat): (ls: seq<string>)
    requires rows != []
    ensures |ls| == |rows| + 1 && ls[1] == SeparatorRow(maxCols)
    ensures ls[0] == MarkdownRow(rows[0], maxCols)
    ensures forall k :: 2 <= k < |ls| ==> ls[k] == MarkdownRow(rows[k - 1], maxCols)
  {
    [MarkdownRow(rows[0], maxCols), SeparatorRow(maxCols)]
      + seq(|rows| - 1, k requires 0 <= k < |rows| - 1 => MarkdownRow(rows[k + 1], maxCols))
  }

  /** The Markdown text of rows of cell texts; "" exactly when there are no rows. */
  function MarkdownOf(rows: seq<seq<string>>, maxCols: nat): (r: string)
    ensures r == [] <==> rows == []
  {
    if rows == [] then [] else Unlines(MarkdownLines(rows, maxCols))
  }

  /** `table_to_markdown`'s result: as many slots per row as the longest row has cells. */
  function Markdown(t: Table): string {
    MarkdownOf(Texts(t), MaxLen(t.cells))
  }

  /** `table_to_markdown`. */
  method TableToMarkdown(table: Table) returns (markdown: string)
    ensures markdown == Markdown(table)
  {
    if table.cells == [] {
      return [];
    }
    ghost var rows := Texts(table);
    var maxCols := MaxLen(table.cells);
    ghost var lines := MarkdownLines(rows, maxCols);
    markdown := [];
    var header := table.cells[0];
    markdown := PushMarkdownRow(markdown, header, maxCols);
    markdown := PushSeparatorRow(markdown, maxCols);
    assert markdown == Unlines(lines[..2]) by {
      assert RowTexts(header) == rows[0];
      assert lines[..0] == [];
      UnlinesSnoc(lines, 0);
      UnlinesSnoc(lines, 1);
    }
    var i := 1;
    while i < |table.cells|
      invariant 1 <= i <= |table.cells|
      invariant markdown == Unlines(lines[..i + 1])
    {
      markdown := PushMarkdownRow(markdown, table.cells[i], maxCols);
      assert RowTexts(table.cells[i]) == rows[i] && lines[i + 1] == MarkdownRow(rows[i], maxCols);
      UnlinesSnoc(lines, i + 1);
      i := i + 1;
    }
    assert lines[..i + 1] == lines;
  }

  /** `Unlines` of a prefix one line longer. */
  lemma MarkdownLinesHead(rows: seq<seq<string>>, maxCols: nat)
    requires rows != []
    ensures Unlines(MarkdownLines(rows[..1], maxCols))
      == MarkdownRow(rows[0], maxCols) + "\n" + SeparatorRow(maxCols) + "\n"
  {
    var ls := MarkdownLines(rows[..1], maxCols);
    assert rows[..1][0] == rows[0];
    assert ls == [MarkdownRow(rows[0], maxCols), SeparatorRow(maxCols)];
    assert ls[..1] == [ls[0]] && [ls[0]][..0] == [];
    assert Unlines(ls[..1]) == ls[0] + "\n";
    assert Unlines(ls) == Unlines(ls[..1]) + ls[1] + "\n";
  }

  /** The separator: `'|'`, a `" --- |"` per column, `'\n'`. */
  method PushSeparatorRow(md: string, maxCols: nat) returns (r: string)
    ensures r == md + SeparatorRow(maxCols) + "\n"
  {
    r := md + "|";
    var k := 0;
    while k < maxCols
      invariant 0 <= k <= maxCols
      invariant r == md + "|" + Dashes(k)
    {
      r := r + " --- |";
      k := k + 1;
    }
    r := r + "\n";
  }

  lemma MarkdownLinesSnoc(rows: seq<seq<string>>, i: nat, maxCols: nat)
    requires 1 <= i < |rows|
    ensures Unlines(MarkdownLines(rows[..i + 1], maxCols))
      == Unlines(MarkdownLines(rows[..i], maxCols)) + MarkdownRow(rows[i], maxCols) + "\n"
  {
    var ls := MarkdownLines(rows[..i], maxCols);
    var ls1 := MarkdownLines(rows[..i + 1], maxCols);
    assert ls1 == ls + [MarkdownRow(rows[i], maxCols)];
    assert ls1[..|ls1| - 1] == ls;
  }

  /** One row: `'|'`, a slot per cell, the empty slots, `'\n'`. */
  method PushMarkdownRow(md: string, row: seq<Cell>, maxCols: nat) returns (r: string)
    ensures r == md + MarkdownRow(RowTexts(row), maxCols) + "\n"
  {
    ghost var texts := RowTexts(row);
    r := md + "|";
    var j := 0;
    while j < |row|
      invariant 0 <= j <= |row|
      invariant r == md + "|" + Slots(texts[..j])
    {
      assert texts[..j + 1][..j] == texts[..j];
      r := r + Slot(row[j].text);
      j := j + 1;
    }
    assert texts[..j] == texts;
    var c := |row|;
    while c < maxCols
      invariant |row| <= c && (|row| < maxCols ==> c <= maxCols) && (|row| >= maxCols ==> c == |row|)
      invariant r == md + "|" + Slots(texts) + Fill(c - |row|)
    {
      r := r + " |";
      c := c + 1;
    }
    assert c - |row| == if |texts| < maxCols then maxCols - |texts| else 0;
    assert r == md + MarkdownRow(texts, maxCols);
    r := r + "\n";
  }

  // ---------------------------------------------------------------------
  // Properties of the Markdown text

  /** A bar after `s` adds one bar and nothing else. */
  lemma BarCount(s: string, ch: char)
    ensures Count(s + "|", ch) == Count(s, ch) + if ch == '|' then 1 else 0
  {
    assert (s + "|")[..|s|] == s;
  }

  /** Texts free of `ch` give slots that each hold `ch` only when it is the closing bar. */
  lemma {:induction false} SlotsCount(texts: seq<string>, ch: char)
    requires ch == '|' || ch == '\n'
    requires forall k :: 0 <= k < |texts| ==> ch !in texts[k]
    ensures Count(Slots(texts), ch) == if ch == '|' then |texts| else 0
    decreases |texts|
  {
    if texts != [] {
      var t := texts[|texts| - 1];
      SlotsCount(texts[..|texts| - 1], ch);
      CountAppend(Slots(texts[..|texts| - 1]), Slot(t), ch);
      CountAppend(" " + t, " |", ch);
      CountAppend(" ", t, ch);
      CountAbsent(t, ch);
      CountAbsent(" ", ch);
      BarCount(" ", ch);
      assert " " + "|" == " |";
    }
  }

  lemma {:induction false} FillCount(n: nat, ch: char)
    requires ch == '|' || ch == '\n'
    ensures Count(Fill(n), ch) == if ch == '|' then n else 0
  {
    if n > 0 {
      FillCount(n - 1, ch);
      CountAppend(Fill(n - 1), " |", ch);
      CountAbsent(" ", ch);
      BarCount(" ", ch);
      assert " " + "|" == " |";
    }
  }

  lemma {:induction false} DashesCount(n: nat, ch: char)
    requires ch == '|' || ch == '\n'
    ensures Count(Dashes(n), ch) == if ch == '|' then n else 0
  {
    if n > 0 {
      DashesCount(n - 1, ch);
      CountAppend(Dashes(n - 1), " --- |", ch);
      CountAbsent(" --- ", ch);
      BarCount(" --- ", ch);
      assert " --- " + "|" == " --- |";
    }
  }

  /**
   * With no '|' in the cell texts, a row has exactly `max(cells, maxCols)`
   * slots: one bar to open it and one to close each slot.
   */
  lemma MarkdownRowSlots(texts: seq<string>, maxCols: nat)
    requires forall k :: 0 <= k < |texts| ==> '|' !in texts[k]
    ensures Count(MarkdownRow(texts, maxCols), '|') == Max(|texts|, maxCols) + 1
  {
    var n := if |texts| < maxCols then maxCols - |texts| else 0;
    CountAppend("|" + Slots(texts), Fill(n), '|');
    CountAppend("|", Slots(texts), '|');
    assert "|"[..0] == [];
    SlotsCount(texts, '|');
    FillCount(n, '|');
  }

  /** The separator row has exactly `maxCols` slots. */
  lemma SeparatorSlots(maxCols: nat)
    ensures Count(SeparatorRow(maxCols), '|') == maxCols + 1
  {
    CountAppend("|", Dashes(maxCols), '|');
    assert "|"[..0] == [];
    DashesCount(maxCols, '|');
  }

  /** No Markdown row holds a line break when no cell text does. */
  lemma MarkdownRowNoBreak(texts: seq<string>, maxCols: nat)
    requires forall k :: 0 <= k < |texts| ==> '\n' !in texts[k]
    ensures '\n' !in MarkdownRow(texts, maxCols)
    ensures MarkdownRow(texts, maxCols)[|MarkdownRow(texts, maxCols)| - 1] == '|'
  {
    var n := if |texts| < maxCols then maxCols - |texts| else 0;
    var s := MarkdownRow(texts, maxCols);
    CountAppend("|" + Slots(texts), Fill(n), '\n');
    CountAppend("|", Slots(texts), '\n');
    assert "|"[..0] == [];
    SlotsCount(texts, '\n');
    FillCount(n, '\n');
    CountZero(s, '\n');
    LastBar(texts, n);
  }

  lemma LastBar(texts: seq<string>, n: nat)
    ensures var s := "|" + Slots(texts) + Fill(n); s[|s| - 1] == '|'
  {
  }

  lemma SeparatorNoBreak(maxCols: nat)
    ensures '\n' !in SeparatorRow(maxCols)
    ensures SeparatorRow(maxCols)[|SeparatorRow(maxCols)| - 1] == '|'
  {
    CountAppend("|", Dashes(maxCols), '\n');
    assert "|"[..0] == [];
    DashesCount(maxCols, '\n');
    CountZero(SeparatorRow(maxCols), '\n');
  }

  /**
   * The Markdown text reads back, with `str::lines`, as one line per table
   * row plus the separator in second place, when no cell text holds a line break.
   */
  lemma MarkdownReadsBack(rows: seq<seq<string>>, maxCols: nat)
    requires rows != []
    requires forall i, k :: 0 <= i < |rows| && 0 <= k < |rows[i]| ==> '\n' !in rows[i][k]
    ensures Lines(MarkdownOf(rows, maxCols)) == MarkdownLines(rows, maxCols)
  {
    var ls := MarkdownLines(rows, maxCols);
    forall k | 0 <= k < |ls|
      ensures '\n' !in ls[k] && ls[k] != [] && ls[k][|ls[k]| - 1] == '|'
    {
      if k == 1 {
        SeparatorNoBreak(maxCols);
      } else {
        var r := if k == 0 then 0 else k - 1;
        MarkdownRowNoBreak(rows[r], maxCols);
      }
    }
    LinesOfUnlines(ls);
  }

  /** Every row of a table's Markdown has as many slots as the widest row has cells. */
  lemma MarkdownSlots(t: Table, k: nat)
    requires t.cells != []
    requires forall i, j :: 0 <= i < |t.cells| && 0 <= j < |t.cells[i]| ==> '|' !in t.cells[i][j].text
    requires k <= |t.cells|
    ensures Count(MarkdownLines(Texts(t), MaxLen(t.cells))[k], '|') == MaxLen(t.cells) + 1
  {
    var rows := Texts(t);
    var m := MaxLen(t.cells);
    if k == 1 {
      SeparatorSlots(m);
    } else {
      var r := if k == 0 then 0 else k - 1;
      assert |rows[r]| <= m;
      MarkdownRowSlots(rows[r], m);
    }
  }

  // ---------------------------------------------------------------------
  // Grid rendering (the path where the columns fit the requested width)

  /** The border `"+" + "-"*w + "+" ...`. */
  function Border(ws: seq<nat>): string {
    if ws == [] then "+" else Border(ws[..|ws| - 1]) + Repeat('-', ws[|ws| - 1]) + "+"
  }

  /** `format!(" {:<width$} |", text, width = w - 2)`. */
  function GridCell(text: string, w: nat): string {
    " " + PadRight(text, if w >= 2 then w - 2 else 0) + " |"
  }

  /** The text in column `c`, or "" past the last cell. */
  function TextAt(texts: seq<string>, c: nat): string {
    if c < |texts| then texts[c] else []
  }

  predicate AtLeastTwo(ws: seq<nat>) {
    forall c :: 0 <= c < |ws| ==> ws[c] >= 2
  }

  /** One row line: a cell per column width, empty past the row's cells. */
  function GridRow(texts: seq<string>, ws: seq<nat>): string {
    if ws == [] then "|" else GridRow(texts, ws[..|ws| - 1]) + GridCell(TextAt(texts, |ws| - 1), ws[|ws| - 1])
  }

  /** The border, a line per row, the border again. */
  function GridOf(rows: seq<seq<string>>, ws: seq<nat>): seq<string> {
    [Border(ws)] + seq(|rows|, i requires 0 <= i < |rows| => GridRow(rows[i], ws)) + [Border(ws)]
  }

  /** Each displayed text fits its column between the two padding spaces. */
  predicate Fits(rows: seq<seq<string>>, ws: seq<nat>) {
    forall i :: 0 <= i < |rows| ==> RowFits(rows[i], ws)
  }

  /** A column per text, each text fitting its column. */
  predicate RowFits(texts: seq<string>, ws: seq<nat>) {
    |texts| <= |ws| && forall c :: 0 <= c < |texts| ==> |texts[c]| + 2 <= ws[c]
  }

  lemma {:induction false} GridRowLength(texts: seq<string>, ws: seq<nat>)
    requires AtLeastTwo(ws)
    requires forall c :: 0 <= c < |texts| && c < |ws| ==> |texts[c]| + 2 <= ws[c]
    ensures |GridRow(texts, ws)| == |Border(ws)|
    decreases |ws|
  {
    if ws != [] {
      var init := ws[..|ws| - 1];
      GridRowLength(texts, init);
    }
  }

  /** The grid has a line per row between two identical borders, all of the border's length. */
  lemma GridShape(rows: seq<seq<string>>, ws: seq<nat>)
    requires AtLeastTwo(ws) && Fits(rows, ws)
    ensures var g := GridOf(rows, ws);
      |g| == |rows| + 2 && g[0] == g[|g| - 1] == Border(ws) &&
      forall k :: 0 <= k < |g| ==> |g[k]| == |Border(ws)|
  {
    var g := GridOf(rows, ws);
    forall k | 1 <= k < |g| - 1 ensures |g[k]| == |Border(ws)| {
      GridRowLength(rows[k - 1], ws);
    }
  }

  /** Draws the grid from the chosen texts and column widths. */
  method RenderGrid(rows: seq<seq<string>>, ws: seq<nat>) returns (lines: seq<string>)
    requires AtLeastTwo(ws)
    ensures lines == GridOf(rows, ws)
  {
    var border := RenderBorder(ws);
    var body: seq<string> := [];
    var i := 0;
    while i < |rows|
      invariant 0 <= i <= |rows|
      invariant |body| == i
      invariant forall r {:trigger body[r]} :: 0 <= r < i ==> body[r] == GridRow(rows[r], ws)
    {
      var line := RenderRow(rows[i], ws);
      body := body + [line];
      i := i + 1;
    }
    lines := [border] + body + [border];
    GridOfRows(rows, ws, body);
  }

  /** The grid is its border, a line per row, and its border again. */
  lemma GridOfRows(rows: seq<seq<string>>, ws: seq<nat>, body: seq<string>)
    requires |body| == |rows|
    requires forall r {:trigger body[r]} :: 0 <= r < |rows| ==> body[r] == GridRow(rows[r], ws)
    ensures [Border(ws)] + body + [Border(ws)] == GridOf(rows, ws)
  {
    assert body == seq(|rows|, i requires 0 <= i < |rows| => GridRow(rows[i], ws));
  }

  /** The border line, one '+' and a run of '-' per column. */
  method RenderBorder(ws: seq<nat>) returns (border: string)
    ensures border == Border(ws)
  {
    border := "+";
    var k := 0;
    while k < |ws|
      invariant 0 <= k <= |ws|
      invariant border == Border(ws[..k])
    {
      assert ws[..k + 1][..k] == ws[..k];
      border := border + Repeat('-', ws[k]);
      border := border + "+";
      k := k + 1;
    }
    assert ws[..k] == ws;
  }

  function Min(a: nat, b: nat): nat { if a <= b then a else b }

  lemma GridRowSnoc(texts: seq<string>, ws: seq<nat>, k: nat)
    requires k < |ws|
    ensures GridRow(texts, ws[..k + 1]) == GridRow(texts, ws[..k]) + GridCell(TextAt(texts, k), ws[k])
  {
    assert ws[..k + 1][..k] == ws[..k];
  }

  /**
   * One row: a cell per text that has a column, then the empty cells.  The
   * source cuts a text longer than its column; with widths taken from the
   * texts themselves that never happens (`TextsFit`).
   */
  method RenderRow(texts: seq<string>, ws: seq<nat>) returns (line: string)
    requires AtLeastTwo(ws)
    ensures line == GridRow(texts, ws)
  {
    line := "|";
    var c := 0;
    while c < |texts|
      invariant 0 <= c <= |texts|
      invariant line == GridRow(texts, ws[..Min(c, |ws|)])
    {
      if c < |ws| {
        GridRowSnoc(texts, ws, c);
        line := line + GridCell(texts[c], ws[c]);
      }
      c := c + 1;
    }
    var col := c;
    while col < |ws|
      invariant c <= col
      invariant line == GridRow(texts, ws[..Min(col, |ws|)])
    {
      GridRowSnoc(texts, ws, col);
      line := line + GridCell([], ws[col]);
      col := col + 1;
    }
    assert ws[..Min(col, |ws|)] == ws;
  }

  // ---------------------------------------------------------------------
  // Column widths

  /** Column widths after one more row: each the larger of the old width and the cell's byte length. */
  function Widen(ws: seq<nat>, row: seq<string>): (r: seq<nat>)
    ensures |r| == Max(|ws|, |row|)
  {
    seq(Max(|ws|, |row|), c requires 0 <= c < Max(|ws|, |row|) =>
      Max(if c < |ws| then ws[c] else 0, if c < |row| then ByteLen(row[c]) else 0))
  }

  /** The widest byte length of each column, over all rows. */
  function RawWidths(rows: seq<seq<string>>): seq<nat> {
    if rows == [] then [] else Widen(RawWidths(rows[..|rows| - 1]), rows[|rows| - 1])
  }

  /** With one space of padding on each side. */
  function Padded(ws: seq<nat>): (r: seq<nat>)
    ensures |r| == |ws| && AtLeastTwo(r)
  {
    seq(|ws|, c requires 0 <= c < |ws| => ws[c] + 2)
  }

  function Sum(ws: seq<nat>): nat {
    if ws == [] then 0 else Sum(ws[..|ws| - 1]) + ws[|ws| - 1]
  }

  /** The line length the widths ask for: the columns, a bar after each and one in front. */
  function TotalWidth(ws: seq<nat>): nat {
    Sum(ws) + |ws| + 1
  }

  /** Every cell fits in its column, there is a column per cell of the widest row, and each width is met by some cell. */
  lemma {:induction false} RawWidthsBound(rows: seq<seq<string>>)
    ensures |RawWidths(rows)| == MaxLen(rows)
    ensures forall i, c :: 0 <= i < |rows| && 0 <= c < |rows[i]| ==> ByteLen(rows[i][c]) <= RawWidths(rows)[c]
    ensures forall c :: 0 <= c < |RawWidths(rows)| ==>
      exists i :: 0 <= i < |rows| && c < |rows[i]| && RawWidths(rows)[c] == ByteLen(rows[i][c])
  {
    if rows != [] {
      var init := rows[..|rows| - 1];
      RawWidthsBound(init);
      WidenUpper(rows, init);
      WidenAttained(rows, init);
    }
  }

  /** One step of `RawWidthsBound`: the last row widens every column enough. */
  lemma WidenUpper(rows: seq<seq<string>>, init: seq<seq<string>>)
    requires rows != [] && init == rows[..|rows| - 1]
    requires |RawWidths(init)| == MaxLen(init)
    requires forall i, c :: 0 <= i < |init| && 0 <= c < |init[i]| ==> ByteLen(init[i][c]) <= RawWidths(init)[c]
    ensures |RawWidths(rows)| == MaxLen(rows)
    ensures forall i, c :: 0 <= i < |rows| && 0 <= c < |rows[i]| ==> ByteLen(rows[i][c]) <= RawWidths(rows)[c]
  {
    var r := RawWidths(rows);
    assert r == Widen(RawWidths(init), rows[|rows| - 1]);
    forall i, c | 0 <= i < |rows| && 0 <= c < |rows[i]| ensures ByteLen(rows[i][c]) <= r[c] {
      if i < |rows| - 1 {
        assert rows[i] == init[i];
      }
    }
  }

  /** One step of `RawWidthsBound`: every widened column is some row's cell. */
  lemma WidenAttained(rows: seq<seq<string>>, init: seq<seq<string>>)
    requires rows != [] && init == rows[..|rows| - 1]
    requires forall c :: 0 <= c < |RawWidths(init)| ==>
      exists i :: 0 <= i < |init| && c < |init[i]| && RawWidths(init)[c] == ByteLen(init[i][c])
    ensures forall c :: 0 <= c < |RawWidths(rows)| ==>
      exists i :: 0 <= i < |rows| && c < |rows[i]| && RawWidths(rows)[c] == ByteLen(rows[i][c])
  {
    var last := rows[|rows| - 1];
    var ws := RawWidths(init);
    var r := RawWidths(rows);
    assert r == Widen(ws, last);
    forall c | 0 <= c < |r|
      ensures exists i :: 0 <= i < |rows| && c < |rows[i]| && r[c] == ByteLen(rows[i][c])
    {
      assert r[c] == Max(if c < |ws| then ws[c] else 0, if c < |last| then ByteLen(last[c]) else 0);
      if c < |last| && (c >= |ws| || ws[c] <= ByteLen(last[c])) {
        assert r[c] == ByteLen(rows[|rows| - 1][c]);
      } else {
        assert c < |ws| && r[c] == ws[c];
        var i :| 0 <= i < |init| && c < |init[i]| && ws[c] == ByteLen(init[i][c]);
        assert rows[i] == init[i];
      }
    }
  }

  /** The widths computed from a table's cells. */
  function ColumnWidths(t: Table): seq<nat> {
    Padded(RawWidths(Texts(t)))
  }

  /** The first loops of `table_to_grid`: widest byte length per column, plus two. */
  method ComputeColumnWidths(t: Table) returns (colWidths: seq<nat>)
    ensures colWidths == ColumnWidths(t)
  {
    ghost var rows := Texts(t);
    colWidths := [];
    var i := 0;
    while i < |t.cells|
      invariant 0 <= i <= |t.cells|
      invariant colWidths == RawWidths(rows[..i])
    {
      assert rows[..i + 1][..i] == rows[..i];
      colWidths := WidenBy(colWidths, t.cells[i]);
      i := i + 1;
    }
    assert rows[..i] == rows;
    var k := 0;
    ghost var raw := colWidths;
    while k < |colWidths|
      invariant 0 <= k <= |colWidths| == |raw|
      invariant forall c :: 0 <= c < |raw| ==> colWidths[c] == if c < k then raw[c] + 2 else raw[c]
    {
      colWidths := colWidths[k := colWidths[k] + 2];
      k := k + 1;
    }
  }

  /** The inner loop: a new column takes the cell's byte length, an existing one the larger. */
  method WidenBy(ws: seq<nat>, row: seq<Cell>) returns (r: seq<nat>)
    ensures r == Widen(ws, RowTexts(row))
  {
    ghost var texts := RowTexts(row);
    r := ws;
    assert ws == Widen(ws, texts[..0]);
    var colIdx := 0;
    while colIdx < |row|
      invariant 0 <= colIdx <= |row|
      invariant r == Widen(ws, texts[..colIdx])
    {
      var len := ByteLen(row[colIdx].text);
      WidenStep(ws, texts, colIdx);
      if colIdx >= |r| {
        r := r + [len];
      } else {
        r := r[colIdx := Max(r[colIdx], len)];
      }
      colIdx := colIdx + 1;
    }
    assert texts[..colIdx] == texts;
  }

  lemma WidenStep(ws: seq<nat>, texts: seq<string>, j: nat)
    requires j < |texts|
    ensures var cur := Widen(ws, texts[..j]);
      Widen(ws, texts[..j + 1]) ==
        if j >= |cur| then cur + [ByteLen(texts[j])] else cur[j := Max(cur[j], ByteLen(texts[j]))]
  {
    var cur := Widen(ws, texts[..j]);
    var next := Widen(ws, texts[..j + 1]);
    assert texts[..j + 1][j] == texts[j];
    assert forall c :: 0 <= c < j ==> texts[..j + 1][c] == texts[..j][c];
  }

  /** A text never has more chars than bytes, so in a column sized by bytes it always fits. */
  lemma TextsFit(rows: seq<seq<string>>)
    ensures Fits(rows, Padded(RawWidths(rows)))
  {
    RawWidthsBound(rows);
    var ws := Padded(RawWidths(rows));
    forall i | 0 <= i < |rows| ensures RowFits(rows[i], ws) {
      forall c | 0 <= c < |rows[i]| ensures |rows[i][c]| + 2 <= ws[c] {
        ByteLenBounds(rows[i][c]);
      }
    }
  }

  /** Texts no longer than ones that fit also fit. */
  lemma FitsShorter(shown: seq<seq<string>>, rows: seq<seq<string>>, ws: seq<nat>)
    requires Fits(rows, ws) && |shown| == |rows|
    requires forall i :: 0 <= i < |rows| ==> |shown[i]| == |rows[i]|
    requires forall i, c :: 0 <= i < |rows| && 0 <= c < |rows[i]| ==> |shown[i][c]| <= |rows[i][c]|
    ensures Fits(shown, ws)
  {
    forall i | 0 <= i < |shown| ensures RowFits(shown[i], ws) {
      assert RowFits(rows[i], ws);
    }
  }

  /**
   * `table_to_grid` where the columns fit the requested width: no rows give
   * no lines; otherwise a border, a line per row and the same border again,
   * every line as long as the border, and no cell text ever truncated.
   */
  method TableToGrid(table: Table, width: nat) returns (lines: seq<string>)
    requires TotalWidth(ColumnWidths(table)) <= width
    ensures table.cells == [] ==> lines == []
    ensures table.cells != [] ==> lines == GridOf(Texts(table), ColumnWidths(table))
    ensures table.cells != [] ==>
      |lines| == |table.cells| + 2 && lines[0] == lines[|lines| - 1] &&
      forall k :: 0 <= k < |lines| ==> |lines[k]| == |lines[0]|
  {
    if table.cells == [] {
      return [];
    }
    var colWidths := ComputeColumnWidths(table);
    lines := RenderGrid(Texts(table), colWidths);
    TextsFit(Texts(table));
    GridShape(Texts(table), colWidths);
  }
}
