/**
 * The integer part of the PDF text extractor: how extracted characters,
 * lines and table cells are laid onto a fixed-size character grid.  The
 * characters' PDF geometry (floating point) is outside the model; the cells
 * a line splits into, and the order of characters, are given.
 */
module ContentExtractor {
  import opened Wrappers
  import opened Text
  import opened Ints
  import opened Placement

  const MAX_CHARS_PER_PAGE: nat := 50_000
  const MAX_GRID_SIZE: nat := 1_000_000
  /** Width used for a cell that has no computed column width. */
  const DEFAULT_CELL_WIDTH: nat := 10

  // ---------------------------------------------------------------------
  // extract_to_matrix: the size guard and the choice of mapper

  datatype Plan = TooLarge | Fallback | ColumnAware | LineBased

  /** Which path `extract_to_matrix` takes; `width * height` is a `usize` product. */
  function ExtractPlan(width: usize, height: usize, charCount: nat, columnCount: nat): Plan {
    if WrapUsize(width * height) > MAX_GRID_SIZE then TooLarge
    else if charCount > MAX_CHARS_PER_PAGE then Fallback
    else if columnCount >= 2 then ColumnAware
    else LineBased
  }

  /**
   * A grid of more than a million cells is refused before anything is
   * allocated; otherwise the column-aware mapper is used exactly when at
   * least two column boundaries were found on a page of ordinary size.
   */
  lemma ExtractPlanChoice(width: usize, height: usize, charCount: nat, columnCount: nat)
    requires width * height <= USIZE_MAX
    ensures ExtractPlan(width, height, charCount, columnCount) == TooLarge <==> width * height > MAX_GRID_SIZE
    ensures width * height <= MAX_GRID_SIZE && charCount <= MAX_CHARS_PER_PAGE ==>
      (ExtractPlan(width, height, charCount, columnCount) == ColumnAware <==> columnCount >= 2)
  {
  }

  // ---------------------------------------------------------------------
  // ColumnAwareGridMapper

  /** `ColumnAwareGridMapper::new`: one equal share of the total width per column. */
  function ColumnWidths(columnCount: nat, totalWidth: nat): (r: seq<nat>)
    ensures |r| == columnCount + 1
    ensures forall i :: 0 <= i < |r| ==> r[i] == totalWidth / (columnCount + 1)
  {
    seq(columnCount + 1, _ => totalWidth / (columnCount + 1))
  }

  function Sum(s: seq<nat>): nat {
    if s == [] then 0 else Sum(s[..|s| - 1]) + s[|s| - 1]
  }

  lemma {:induction false} SumOfEqual(s: seq<nat>, q: nat)
    requires forall i :: 0 <= i < |s| ==> s[i] == q
    ensures Sum(s) == |s| * q
  {
    if s != [] {
      SumOfEqual(s[..|s| - 1], q);
    }
  }

  /** The column widths never add up to more than the total width. */
  lemma ColumnWidthsFit(columnCount: nat, totalWidth: nat)
    ensures Sum(ColumnWidths(columnCount, totalWidth)) <= totalWidth
  {
    var n := columnCount + 1;
    SumOfEqual(ColumnWidths(columnCount, totalWidth), totalWidth / n);
    assert n * (totalWidth / n) + totalWidth % n == totalWidth;
  }

  /** `char::is_alphabetic` below U+0100: the ASCII letters and the Latin-1 letters. */
  predicate IsAlphabetic(c: char) {
    IsAsciiLower(c) || IsAsciiUpper(c) || IsLatin1Letter(c)
  }

  /** The alphabetic chars of U+0080..U+00FF: ª, µ, º and À..ÿ except × and ÷. */
  predicate IsLatin1Letter(c: char) {
    var n := c as int;
    n == 0xAA || n == 0xB5 || n == 0xBA || (0xC0 <= n <= 0xFF && n != 0xD7 && n != 0xF7)
  }

  /** A cell reads as a number: it has a digit or '$' and no letter other than 'N' and 'A'. */
  predicate IsNumeric(text: string) {
    (exists i :: 0 <= i < |text| && (text[i] == '$' || IsAsciiDigit(text[i]))) &&
    !(exists i :: 0 <= i < |text| && IsAlphabetic(text[i]) && text[i] != 'N' && text[i] != 'A')
  }

  /** A cell holding a Latin-1 letter, such as "5é", is text: it starts at the cell's start and is cut to the cell. */
  lemma LatinLetterCellIsText()
    ensures !IsNumeric("5\U{E9}")
    ensures CellStart("5\U{E9}", 4, 10) == 4 && CellText("5\U{E9}", 1) == "5"
  {
    assert IsAlphabetic("5\U{E9}"[1]);
  }

  /** `s.chars().take(n)`. */
  function Take(s: string, n: nat): (r: string)
    ensures |r| == if n < |s| then n else |s|
    ensures r <= s
  {
    if n < |s| then s[..n] else s
  }

  /** `row` with `text` written from column `at`, cut off at the end of the row. */
  function Overlay(row: seq<char>, at: nat, text: string): (r: seq<char>)
    ensures |r| == |row|
    ensures forall c :: 0 <= c < |row| ==> r[c] == if at <= c < at + |text| then text[c - at] else row[c]
  {
    seq(|row|, c requires 0 <= c < |row| => if at <= c < at + |text| then text[c - at] else row[c])
  }

  function CellWidth(widths: seq<nat>, idx: nat): nat {
    if idx < |widths| then widths[idx] else DEFAULT_CELL_WIDTH
  }

  /** Numbers are right-aligned one column short of the cell's end; other text starts at the cell's start. */
  function CellStart(text: string, gridX: nat, colWidth: nat): nat {
    if IsNumeric(text) && |text| > 0 then gridX + SatSub(SatSub(colWidth, ByteLen(text)), 1) else gridX
  }

  /** Numbers are written whole; other text is cut to the cell width. */
  function CellText(text: string, colWidth: nat): string {
    if IsNumeric(text) && |text| > 0 then text else Take(text, colWidth)
  }

  /** One cell of a line: its text, then a '|' after a one-column gap unless it is the last cell. */
  function CellStep(row: seq<char>, gridX: nat, text: string, colWidth: nat, last: bool, width: nat): (r: (seq<char>, nat))
    requires |row| == width
    ensures |r.0| == width
    ensures r.1 >= gridX + colWidth
  {
    var row1 := Overlay(row, CellStart(text, gridX, colWidth), CellText(text, colWidth));
    var end := gridX + colWidth;
    if end < width && !last then
      (if end + 1 < width then row1[end + 1 := '|'] else row1, end + 3)
    else (row1, end)
  }

  /** The row and the next cell's start column after the first `k` cells of a line. */
  function LineState(cells: seq<string>, widths: seq<nat>, width: nat, k: nat): (r: (seq<char>, nat))
    requires k <= |cells|
    ensures |r.0| == width
  {
    if k == 0 then (Repeat(' ', width), 0)
    else
      var st := LineState(cells, widths, width, k - 1);
      CellStep(st.0, st.1, cells[k - 1], CellWidth(widths, k - 1), k - 1 == |cells| - 1, width)
  }

  /** The grid row `map_to_grid` makes of a line split into `cells`. */
  function ColumnRow(cells: seq<string>, widths: seq<nat>, width: nat): (r: seq<char>)
    ensures |r| == width
  {
    LineState(cells, widths, width, |cells|).0
  }

  /** A cell writes nothing left of where it starts. */
  lemma CellStepKeepsLeft(row: seq<char>, gridX: nat, text: string, colWidth: nat, last: bool, width: nat, c: nat)
    requires |row| == width && c < width && c < gridX
    ensures CellStep(row, gridX, text, colWidth, last, width).0[c] == row[c]
  {
  }

  /** Each cell starts no further left than the one before it. */
  lemma {:induction false} LaterCellsStartLater(cells: seq<string>, widths: seq<nat>, width: nat, k: nat, j: nat)
    requires k <= j <= |cells|
    ensures LineState(cells, widths, width, j).1 >= LineState(cells, widths, width, k).1
  {
    if k < j {
      LaterCellsStartLater(cells, widths, width, k, j - 1);
      var st := LineState(cells, widths, width, j - 1);
      assert LineState(cells, widths, width, j) == CellStep(st.0, st.1, cells[j - 1], CellWidth(widths, j - 1), j - 1 == |cells| - 1, width);
    }
  }

  /** Later cells start no further left and never write left of where an earlier cell starts. */
  lemma {:induction false} LaterCellsKeepLeft(cells: seq<string>, widths: seq<nat>, width: nat, k: nat, j: nat, c: nat)
    requires k <= j <= |cells| && c < width && c < LineState(cells, widths, width, k).1
    ensures LineState(cells, widths, width, j).1 >= LineState(cells, widths, width, k).1
    ensures LineState(cells, widths, width, j).0[c] == LineState(cells, widths, width, k).0[c]
  {
    LaterCellsStartLater(cells, widths, width, k, j);
    if k < j {
      LaterCellsKeepLeft(cells, widths, width, k, j - 1, c);
      NextCellKeepsLeft(cells, widths, width, j, c);
      assert LineState(cells, widths, width, j).0[c] == LineState(cells, widths, width, j - 1).0[c] == LineState(cells, widths, width, k).0[c];
    }
  }

  /** Cell `j - 1` writes nothing left of where it starts. */
  lemma NextCellKeepsLeft(cells: seq<string>, widths: seq<nat>, width: nat, j: nat, c: nat)
    requires 0 < j <= |cells| && c < width && c < LineState(cells, widths, width, j - 1).1
    ensures LineState(cells, widths, width, j).0[c] == LineState(cells, widths, width, j - 1).0[c]
  {
    var st := LineState(cells, widths, width, j - 1);
    var last := j - 1 == |cells| - 1;
    assert LineState(cells, widths, width, j) == CellStep(st.0, st.1, cells[j - 1], CellWidth(widths, j - 1), last, width);
    CellStepKeepsLeft(st.0, st.1, cells[j - 1], CellWidth(widths, j - 1), last, width, c);
  }

  /**
   * Between a cell and the next, the '|' sits one column past the cell's
   * end (its start plus its width), and no later cell overwrites it.
   */
  lemma SeparatorBetweenCells(cells: seq<string>, widths: seq<nat>, width: nat, k: nat, sep: nat)
    requires k + 1 < |cells|
    requires sep == LineState(cells, widths, width, k).1 + CellWidth(widths, k) + 1 < width
    ensures ColumnRow(cells, widths, width)[sep] == '|'
  {
    NextCellSeparator(cells, widths, width, k, sep);
    LaterCellsKeepLeft(cells, widths, width, k + 1, |cells|, sep);
  }

  /** Right after cell `k` its '|' is in place and the next cell starts past it. */
  lemma NextCellSeparator(cells: seq<string>, widths: seq<nat>, width: nat, k: nat, sep: nat)
    requires k + 1 < |cells|
    requires sep == LineState(cells, widths, width, k).1 + CellWidth(widths, k) + 1 < width
    ensures LineState(cells, widths, width, k + 1).0[sep] == '|' && LineState(cells, widths, width, k + 1).1 > sep
  {
    var st := LineState(cells, widths, width, k);
    assert LineState(cells, widths, width, k + 1) == CellStep(st.0, st.1, cells[k], CellWidth(widths, k), false, width);
    CellStepSeparator(st.0, st.1, cells[k], CellWidth(widths, k), width);
  }

  /** A cell that is not the last puts its '|' one column past its end, and the next cell starts after it. */
  lemma CellStepSeparator(row: seq<char>, gridX: nat, text: string, colWidth: nat, width: nat)
    requires |row| == width && gridX + colWidth + 1 < width
    ensures CellStep(row, gridX, text, colWidth, false, width).0[gridX + colWidth + 1] == '|'
    ensures CellStep(row, gridX, text, colWidth, false, width).1 > gridX + colWidth + 1
  {
  }

  /** `ColumnAwareGridMapper::map_to_grid`: one grid row per line, blank rows below the lines. */
  method MapToGrid(widths: seq<nat>, lines: seq<seq<string>>, width: nat, height: nat) returns (grid: array2<char>)
    ensures grid.Length0 == height && grid.Length1 == width
    ensures forall r, c :: 0 <= r < height && 0 <= c < width ==>
      grid[r, c] == if r < |lines| then ColumnRow(lines[r], widths, width)[c] else ' '
  {
    grid := new char[height, width]((_, _) => ' ');
    var y := 0;
    while y < |lines|
      invariant 0 <= y <= |lines|
      invariant grid.Length0 == height && grid.Length1 == width
      invariant forall r, c :: 0 <= r < height && 0 <= c < width ==>
        grid[r, c] == if r < y then ColumnRow(lines[r], widths, width)[c] else ' '
    {
      if y >= height {
        break;
      }
      var cells := lines[y];
      ghost var row := Repeat(' ', width);
      var gridX := 0;
      var colIdx := 0;
      while colIdx < |cells|
        invariant 0 <= colIdx <= |cells|
        invariant (row, gridX) == LineState(cells, widths, width, colIdx)
        invariant forall c :: 0 <= c < width ==> grid[y, c] == row[c]
        invariant forall r, c :: 0 <= r < height && 0 <= c < width && r != y ==>
          grid[r, c] == if r < y then ColumnRow(lines[r], widths, width)[c] else ' '
      {
        var colWidth := if colIdx < |widths| then widths[colIdx] else DEFAULT_CELL_WIDTH;
        ghost var next := CellStep(row, gridX, cells[colIdx], colWidth, colIdx == |cells| - 1, width).0;
        gridX := MapCell(grid, y, row, gridX, cells[colIdx], colWidth, colIdx == |cells| - 1);
        row := next;
        colIdx := colIdx + 1;
      }
      assert row == ColumnRow(cells, widths, width);
      y := y + 1;
    }
  }

  /** One iteration of the cell loop of `map_to_grid`: row `y` goes from `row` to its `CellStep`. */
  method MapCell(grid: array2<char>, y: nat, ghost row: seq<char>, gridX: nat, cellText: string, colWidth: nat, last: bool)
    returns (next: nat)
    requires y < grid.Length0 && |row| == grid.Length1
    requires forall c :: 0 <= c < grid.Length1 ==> grid[y, c] == row[c]
    modifies grid
    ensures next == CellStep(row, gridX, cellText, colWidth, last, grid.Length1).1
    ensures forall r, c :: 0 <= r < grid.Length0 && 0 <= c < grid.Length1 ==>
      grid[r, c] == if r == y then CellStep(row, gridX, cellText, colWidth, last, grid.Length1).0[c] else old(grid[r, c])
  {
    var width := grid.Length1;
    var start := CellStart(cellText, gridX, colWidth);
    var text := CellText(cellText, colWidth);
    WriteCell(grid, y, start, text);
    ghost var row1 := Overlay(row, start, text);
    assert forall r, c :: 0 <= r < grid.Length0 && 0 <= c < width ==>
      grid[r, c] == if r == y then row1[c] else old(grid[r, c]);
    next := gridX + colWidth;
    if next < width && !last {
      next := next + 1;
      if next < width {
        grid[y, next] := '|';
        assert CellStep(row, gridX, cellText, colWidth, last, width).0 == row1[next := '|'];
      }
      next := next + 2;
    }
  }

  /** Write `text` into row `y` from column `start`, skipping what falls past the right edge. */
  method WriteCell(grid: array2<char>, y: nat, start: nat, text: string)
    requires y < grid.Length0
    modifies grid
    ensures forall r, c :: 0 <= r < grid.Length0 && 0 <= c < grid.Length1 ==>
      grid[r, c] == if r == y && start <= c < start + |text| then text[c - start] else old(grid[r, c])
  {
    var i := 0;
    while i < |text|
      invariant 0 <= i <= |text|
      invariant forall r, c :: 0 <= r < grid.Length0 && 0 <= c < grid.Length1 ==>
        grid[r, c] == if r == y && start <= c < start + i then text[c - start] else old(grid[r, c])
    {
      if start + i < grid.Length1 {
        grid[y, start + i] := text[i];
      }
      i := i + 1;
    }
  }

  // ---------------------------------------------------------------------
  // simple_text_fallback

  /** The row-major position of cell (r, c) in a grid `width` columns wide. */
  function CellIndex(r: nat, c: nat, width: nat): nat {
    r * width + c
  }

  lemma MulMono(a: nat, b: nat, w: nat)
    requires a <= b
    ensures a * w <= b * w
  {
  }

  /** Row-major positions follow the lexicographic order of cells. */
  lemma IndexOrder(r: nat, c: nat, row: nat, col: nat, width: nat)
    requires c < width && col <= width
    ensures CellIndex(r, c, width) < CellIndex(row, col, width) <==> r < row || (r == row && c < col)
  {
    if r < row {
      MulMono(r + 1, row, width);
      assert (r + 1) * width == r * width + width;
    } else if r > row {
      MulMono(row + 1, r, width);
      assert (row + 1) * width == row * width + width;
    }
  }

  /** The first cell of a row follows the last cell of the row above. */
  lemma NextRowIndex(row: nat, width: nat)
    ensures CellIndex(row + 1, 0, width) == CellIndex(row, width, width)
  {
    assert (row + 1) * width == row * width + width;
  }

  /** Every cell of a `height`-row grid comes before any cell on a row at or below `height`. */
  lemma CellsBefore(row: nat, col: nat, width: nat, height: nat)
    requires row >= height && col <= width
    ensures forall r, c :: 0 <= r < height && 0 <= c < width ==> CellIndex(r, c, width) < CellIndex(row, col, width)
  {
    forall r, c | 0 <= r < height && 0 <= c < width
      ensures CellIndex(r, c, width) < CellIndex(row, col, width)
    {
      IndexOrder(r, c, row, col, width);
    }
  }

  /** The cells before position k + 1 are those before position k and the cell at k. */
  lemma NextCell(row: nat, col: nat, width: nat)
    requires col < width
    ensures forall r, c :: 0 <= c < width ==>
      (CellIndex(r, c, width) <= CellIndex(row, col, width) <==> CellIndex(r, c, width) < CellIndex(row, col, width) || (r == row && c == col))
  {
    forall r, c | 0 <= c < width
      ensures CellIndex(r, c, width) <= CellIndex(row, col, width) <==> CellIndex(r, c, width) < CellIndex(row, col, width) || (r == row && c == col)
    {
      IndexOrder(r, c, row, col, width);
      IndexOrder(r, c, row, col + 1, width);
    }
  }

  /**
   * `simple_text_fallback`: the characters fill the grid row by row, the
   * k-th at (k div width, k mod width); whatever does not fit is dropped.
   * A zero width with more than one row would index past an empty row.
   */
  method SimpleTextFallback(chars: string, width: nat, height: nat) returns (grid: array2<char>)
    requires width > 0 || height <= 1 || chars == []
    ensures grid.Length0 == height && grid.Length1 == width
    ensures forall r, c :: 0 <= r < height && 0 <= c < width ==>
      grid[r, c] == if CellIndex(r, c, width) < |chars| then chars[CellIndex(r, c, width)] else ' '
  {
    grid := new char[height, width]((_, _) => ' ');
    var row := 0;
    var col := 0;
    var k := 0;
    while k < |chars|
      invariant 0 <= k <= |chars| && col <= width
      invariant CellIndex(row, col, width) == k
      invariant width == 0 ==> k == 0 && row == 0
      invariant grid.Length0 == height && grid.Length1 == width
      invariant forall r, c :: 0 <= r < height && 0 <= c < width ==>
        grid[r, c] == if CellIndex(r, c, width) < k then chars[CellIndex(r, c, width)] else ' '
    {
      if col >= width {
        NextRowIndex(row, width);
        col := 0;
        row := row + 1;
      }
      if row >= height {
        CellsBefore(row, col, width, height);
        break;
      }
      NextCell(row, col, width);
      grid[row, col] := chars[k];
      col := col + 1;
      k := k + 1;
    }
  }

  // ---------------------------------------------------------------------
  // map_lines_to_grid and the text loop of map_to_grid_with_tables

  /** `map_lines_to_grid`: line y's characters go to row y from column 0, cut at the grid's edges. */
  method MapLinesToGrid(grid: array2<char>, lines: seq<string>, width: nat, height: nat)
    requires height <= grid.Length0 && width <= grid.Length1
    modifies grid
    ensures forall r, c :: 0 <= r < grid.Length0 && 0 <= c < grid.Length1 ==>
      grid[r, c] == if r < |lines| && r < height && c < |lines[r]| && c < width then lines[r][c] else old(grid[r, c])
  {
    var y := 0;
    while y < |lines|
      invariant 0 <= y <= |lines|
      invariant forall r, c :: 0 <= r < grid.Length0 && 0 <= c < grid.Length1 ==>
        grid[r, c] == if r < y && r < height && c < |lines[r]| && c < width then lines[r][c] else old(grid[r, c])
    {
      if y >= height {
        break;
      }
      var line := lines[y];
      var x := 0;
      var i := 0;
      while i < |line|
        invariant 0 <= i <= |line|
        invariant x == if i < width then i else width
        invariant forall r, c :: 0 <= r < grid.Length0 && 0 <= c < grid.Length1 ==>
          grid[r, c] == if (r < y && r < height && c < |lines[r]| && c < width) || (r == y && c < x) then lines[r][c] else old(grid[r, c])
      {
        if x < width {
          grid[y, x] := line[i];
          x := x + 1;
        }
        i := i + 1;
      }
      y := y + 1;
    }
  }

  /** The words of a line, each followed by one space. */
  function Spaced(words: seq<string>): string {
    if words == [] then [] else Spaced(words[..|words| - 1]) + words[|words| - 1] + [' ']
  }

  /** One text line per row: each word's characters in turn, then a space, cut at the right edge. */
  method MapWordsToGrid(grid: array2<char>, lines: seq<seq<string>>, gridWidth: nat, gridHeight: nat)
    requires gridHeight <= grid.Length0 && gridWidth <= grid.Length1
    modifies grid
    ensures forall r, c :: 0 <= r < grid.Length0 && 0 <= c < grid.Length1 ==>
      grid[r, c] == if r < |lines| && r < gridHeight && c < |Spaced(lines[r])| && c < gridWidth
        then Spaced(lines[r])[c] else old(grid[r, c])
  {
    var currentY := 0;
    while currentY < |lines|
      invariant 0 <= currentY <= |lines|
      invariant forall r, c :: 0 <= r < grid.Length0 && 0 <= c < grid.Length1 ==>
        grid[r, c] == if r < currentY && r < gridHeight && c < |Spaced(lines[r])| && c < gridWidth
          then Spaced(lines[r])[c] else old(grid[r, c])
    {
      if currentY >= gridHeight {
        break;
      }
      var line := lines[currentY];
      var currentX := 0;
      var j := 0;
      while j < |line|
        invariant 0 <= j <= |line|
        invariant currentX == if |Spaced(line[..j])| < gridWidth then |Spaced(line[..j])| else gridWidth
        invariant forall r, c :: 0 <= r < grid.Length0 && 0 <= c < grid.Length1 ==>
          grid[r, c] == if r < currentY && r < gridHeight && c < |Spaced(lines[r])| && c < gridWidth then Spaced(lines[r])[c]
            else if r == currentY && c < currentX then Spaced(line[..j])[c]
            else old(grid[r, c])
      {
        var word := line[j];
        ghost var done := Spaced(line[..j]);
        currentX := PushWord(grid, currentY, currentX, word, gridWidth, gridHeight, done);
        if currentX < gridWidth {
          grid[currentY, currentX] := ' ';
          currentX := currentX + 1;
        }
        assert line[..j + 1][..j] == line[..j];
        assert Spaced(line[..j + 1]) == done + word + [' '];
        j := j + 1;
      }
      assert line[..j] == line;
      currentY := currentY + 1;
    }
  }

  /** The innermost loop: a word's characters go to row `y` from column `x`, cut at the right edge. */
  method PushWord(grid: array2<char>, y: nat, x: nat, word: string, gridWidth: nat, gridHeight: nat, ghost done: string)
    returns (next: nat)
    requires y < gridHeight <= grid.Length0 && gridWidth <= grid.Length1
    requires x == if |done| < gridWidth then |done| else gridWidth
    modifies grid
    ensures next == if |done| + |word| < gridWidth then |done| + |word| else gridWidth
    ensures forall r, c :: 0 <= r < grid.Length0 && 0 <= c < grid.Length1 ==>
      grid[r, c] == if r == y && x <= c < next then (done + word)[c] else old(grid[r, c])
  {
    next := x;
    var i := 0;
    while i < |word|
      invariant 0 <= i <= |word|
      invariant next == if |done| + i < gridWidth then |done| + i else gridWidth
      invariant forall r, c :: 0 <= r < grid.Length0 && 0 <= c < grid.Length1 ==>
        grid[r, c] == if r == y && x <= c < next then (done + word)[c] else old(grid[r, c])
    {
      if next < gridWidth && y < gridHeight {
        grid[y, next] := word[i];
        next := next + 1;
      }
      i := i + 1;
    }
  }

  // ---------------------------------------------------------------------
  // place_text_on_grid_spatial

  /**
   * `place_text_on_grid_spatial`: the `Sequential` placement rules, starting
   * at (x_start, y_start) inside a max_width×max_height area.
   */
  method PlaceTextOnGridSpatial(grid: array2<char>, text: string, xStart: nat, yStart: nat, maxWidth: nat, maxHeight: nat)
    requires maxHeight <= grid.Length0 && maxWidth <= grid.Length1
    modifies grid
    ensures var w := Written(Area(Sequential, xStart, maxWidth, maxHeight), Pen(xStart, yStart, false), text);
      forall r, c :: 0 <= r < grid.Length0 && 0 <= c < grid.Length1 ==> grid[r, c] == Over(w, old(grid[r, c]), r, c)
  {
    var a := Area(Sequential, xStart, maxWidth, maxHeight);
    ghost var start := Pen(xStart, yStart, false);
    var x: nat := xStart;
    var y: nat := yStart;
    var i := 0;
    while i < |text|
      invariant 0 <= i <= |text|
      invariant PenAfter(a, start, text[..i]) == Pen(x, y, false)
      invariant forall r, c :: 0 <= r < grid.Length0 && 0 <= c < grid.Length1 ==>
        grid[r, c] == Over(Written(a, start, text[..i]), old(grid[r, c]), r, c)
    {
      Unfold(a, start, text, i);
      var stop;
      x, y, stop := SpatialStep(grid, a, x, y, text[i]);
      if stop {
        StopEndsPlacement(a, start, text, i + 1);
        break;
      }
      i := i + 1;
    }
    if i == |text| {
      assert text[..i] == text;
    }
  }

  /** One iteration of the loop of `place_text_on_grid_spatial`; `stop` is its `break`. */
  method SpatialStep(grid: array2<char>, a: Area, x0: nat, y0: nat, ch: char) returns (x: nat, y: nat, stop: bool)
    requires a.kind == Sequential && a.height <= grid.Length0 && a.width <= grid.Length1
    modifies grid
    ensures Pen(x, y, stop) == Step(a, Pen(x0, y0, false), ch).0
    ensures forall r, c :: 0 <= r < grid.Length0 && 0 <= c < grid.Length1 ==>
      grid[r, c] == if Step(a, Pen(x0, y0, false), ch).1 == Some((r, c)) then ch else old(grid[r, c])
  {
    x, y, stop := x0, y0, false;
    var maxWidth, maxHeight := a.width, a.height;
    if ch == '\n' {
      y := y + 1;
      x := 0;
      if y >= maxHeight {
        stop := true;
      }
      return;
    }
    if x >= maxWidth {
      y := y + 1;
      if y >= maxHeight {
        stop := true;
        return;
      }
      x := 0;
    }
    if x < maxWidth && y < maxHeight {
      grid[y, x] := ch;
      x := x + 1;
    }
  }
}
