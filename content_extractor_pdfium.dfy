/**
 * The grid mapping of the character-level PDF extractor: each clustered
 * line becomes one line of text (a Markdown-like prefix, optional italic
 * markers, its words joined by spaces), placed at an indentation chosen from
 * the line's horizontal position, with the `Anchored` placement rules.  The
 * clustering, font analysis and coordinate conversion are floating point and
 * arrive here as their results: a row, a style and an x ratio per line.
 */
module PdfiumExtractor {
  import opened Wrappers
  import opened Text
  import opened Placement

  /** The font analysis of a line's first character. */
  datatype Style = Style(header: bool, largeHeader: bool, italic: bool, monospace: bool)

  /** One clustered line: its words, its grid row, its style and the relative x of its first character. */
  datatype LineLayout = LineLayout(words: seq<string>, gridY: nat, style: Style, xRatio: real)

  /**
   * `detect_indentation_level`: a column for each band of the page width;
   * the bands between 35% and 60% of the width share column 6.
   */
  function DetectIndentationLevel(xRatio: real): (r: nat)
    ensures r == 0 || r == 2 || r == 4 || r == 6 || r == 8
    ensures r == 0 <==> xRatio < 0.15
    ensures r == 8 <==> xRatio > 0.6
  {
    if xRatio < 0.15 then 0
    else if xRatio < 0.25 then 2
    else if xRatio < 0.35 then 4
    else if xRatio > 0.6 then 8
    else 6
  }

  /** Content further right is never indented less. */
  lemma IndentationMonotone(a: real, b: real)
    requires a <= b
    ensures DetectIndentationLevel(a) <= DetectIndentationLevel(b)
  {
  }

  /** "# " for a large header, "## " for another header, four spaces for monospace text. */
  function Prefix(s: Style): string {
    if s.header && s.largeHeader then "# "
    else if s.header then "## "
    else if s.monospace then "    "
    else ""
  }

  /** The italic marker, which monospace text never gets. */
  function Marker(s: Style): string {
    if s.italic && !s.monospace then "*" else ""
  }

  /** The text `map_to_grid` builds for a line. */
  function LineText(words: seq<string>, s: Style): string {
    Prefix(s) + Marker(s) + Join(words, " ") + Marker(s)
  }

  lemma {:induction false} JoinSnoc(parts: seq<string>, w: string, sep: string)
    ensures Join(parts + [w], sep) == if parts == [] then w else Join(parts, sep) + sep + w
    decreases |parts|
  {
    if |parts| > 1 {
      assert (parts + [w])[1..] == parts[1..] + [w];
      JoinSnoc(parts[1..], w, sep);
    } else if |parts| == 1 {
      assert (parts + [w])[1..] == [w];
    } else {
      assert parts + [w] == [w];
    }
  }

  /** Joining one more word adds a separator (unless it is the first word) and the word. */
  lemma JoinStep(words: seq<string>, k: nat)
    requires k < |words|
    ensures Join(words[..k + 1], " ") == Join(words[..k], " ") + (if k > 0 then " " else "") + words[k]
  {
    assert words[..k + 1] == words[..k] + [words[k]];
    JoinSnoc(words[..k], words[k], " ");
  }

  lemma Middle(p: string, m: string, j: string)
    ensures var t := p + m + j + m; |p| + 2 * |m| <= |t| && t[..|p|] == p && t[|p| + |m| .. |t| - |m|] == j
  {
  }

  /** The inner `for char in word` loop: push every char of `word`. */
  method PushChars(text: string, word: string) returns (r: string)
    ensures r == text + word
  {
    r := text;
    var i := 0;
    while i < |word|
      invariant 0 <= i <= |word|
      invariant r == text + word[..i]
    {
      assert word[..i + 1] == word[..i] + [word[i]];
      r := r + [word[i]];
      i := i + 1;
    }
    assert word[..i] == word;
  }

  /** The line-text loop of `map_to_grid`. */
  method BuildLineText(words: seq<string>, s: Style) returns (lineText: string)
    ensures lineText == LineText(words, s)
  {
    lineText := [];
    if s.header && s.largeHeader {
      lineText := lineText + "# ";
    } else if s.header {
      lineText := lineText + "## ";
    } else if s.monospace {
      lineText := lineText + "    ";
    }
    assert lineText == Prefix(s);
    if s.italic && !s.monospace {
      lineText := lineText + ['*'];
    }
    assert lineText == Prefix(s) + Marker(s);
    lineText := PushWords(lineText, words);
    if s.italic && !s.monospace {
      lineText := lineText + ['*'];
    }
  }

  /** The `for (word_idx, word)` loop: a space before every word but the first. */
  method PushWords(text: string, words: seq<string>) returns (r: string)
    ensures r == text + Join(words, " ")
  {
    r := text;
    var wordIdx := 0;
    while wordIdx < |words|
      invariant 0 <= wordIdx <= |words|
      invariant r == text + Join(words[..wordIdx], " ")
    {
      var word := words[wordIdx];
      if wordIdx > 0 {
        r := r + [' '];
      }
      r := PushChars(r, word);
      JoinStep(words, wordIdx);
      wordIdx := wordIdx + 1;
    }
    assert words[..wordIdx] == words;
  }

  /**
   * The words of a line come back from its text: what follows the prefix and
   * the opening marker, up to the closing marker, splits into the words.
   */
  lemma LineTextWords(words: seq<string>, s: Style)
    requires forall k :: 0 <= k < |words| ==> IsWord(words[k])
    ensures var t := LineText(words, s); var m := |Marker(s)|;
      |Prefix(s)| + 2 * m <= |t| &&
      t[..|Prefix(s)|] == Prefix(s) &&
      SplitWhitespace(t[|Prefix(s)| + m .. |t| - m]) == words
    ensures Marker(s) == "*" <==> s.italic && !s.monospace
  {
    Middle(Prefix(s), Marker(s), Join(words, " "));
    SplitJoin(words);
  }

  // ---------------------------------------------------------------------
  // place_text_on_grid

  /** `place_text_on_grid`: the `Anchored` rules over the grid_width×grid_height grid. */
  method PlaceTextOnGrid(grid: array2<char>, text: string, xStart: nat, yStart: nat, gridWidth: nat, gridHeight: nat)
    requires gridHeight <= grid.Length0 && gridWidth <= grid.Length1
    modifies grid
    ensures var w := Written(Area(Anchored, xStart, gridWidth, gridHeight), Pen(xStart, yStart, false), text);
      forall r, c :: 0 <= r < grid.Length0 && 0 <= c < grid.Length1 ==> grid[r, c] == Over(w, old(grid[r, c]), r, c)
  {
    var a := Area(Anchored, xStart, gridWidth, gridHeight);
    ghost var start := Pen(xStart, yStart, false);
    var x: nat := xStart;
    var y: nat := yStart;
    var i := 0;
    while i < |text|
      invariant 0 <= i <= |text|
      invariant PenAfter(a, start, text[..i]) == Pen(x, y, false)
      invariant forall r, c :: 0 <= r < grid.Length0 && 0 <= c < grid.Length1 ==>
        grid[r, c] == Over(Written(a, start, text[..i]), old(grid[r, c]), r, c)
    {
      Unfold(a, start, text, i);
      var stop;
      x, y, stop := GridStep(grid, a, x, y, text[i]);
      if stop {
        StopEndsPlacement(a, start, text, i + 1);
        break;
      }
      i := i + 1;
    }
    if i == |text| {
      assert text[..i] == text;
    }
  }

  /** One iteration of the loop of `place_text_on_grid`; `stop` is its `break`. */
  method GridStep(grid: array2<char>, a: Area, x0: nat, y0: nat, ch: char) returns (x: nat, y: nat, stop: bool)
    requires a.kind == Anchored && a.height <= grid.Length0 && a.width <= grid.Length1
    modifies grid
    ensures Pen(x, y, stop) == Step(a, Pen(x0, y0, false), ch).0
    ensures forall r, c :: 0 <= r < grid.Length0 && 0 <= c < grid.Length1 ==>
      grid[r, c] == if Step(a, Pen(x0, y0, false), ch).1 == Some((r, c)) then ch else old(grid[r, c])
  {
    x, y, stop := x0, y0, false;
    var xStart, gridWidth, gridHeight := a.xStart, a.width, a.height;
    if ch == '\n' {
      y := y + 1;
      x := xStart;
      if y >= gridHeight {
        stop := true;
      }
      return;
    }
    if x >= gridWidth {
      y := y + 1;
      if y >= gridHeight {
        stop := true;
        return;
      }
      x := 0;
    }
    if x < gridWidth && y < gridHeight {
      grid[y, x] := ch;
      x := x + 1;
    }
  }

  // ---------------------------------------------------------------------
  // map_to_grid

  /** A line `map_to_grid` skips: no words, an empty first word, or a row below the grid. */
  predicate Skipped(l: LineLayout, gridHeight: nat) {
    l.words == [] || l.words[0] == [] || l.gridY >= gridHeight
  }

  /** The cells one line writes. */
  function LineWritten(l: LineLayout, gridWidth: nat, gridHeight: nat): map<(nat, nat), char> {
    if Skipped(l, gridHeight) then map[]
    else
      var x := DetectIndentationLevel(l.xRatio);
      Written(Area(Anchored, x, gridWidth, gridHeight), Pen(x, l.gridY, false), LineText(l.words, l.style))
  }

  /** The cells all lines write; a later line overwrites an earlier one. */
  function PageWritten(lines: seq<LineLayout>, gridWidth: nat, gridHeight: nat): map<(nat, nat), char> {
    if lines == [] then map[]
    else PageWritten(lines[..|lines| - 1], gridWidth, gridHeight) + LineWritten(lines[|lines| - 1], gridWidth, gridHeight)
  }

  /** The text part of `SpatialGridMapper::map_to_grid`: a blank grid, then each line in order. */
  method MapToGrid(lines: seq<LineLayout>, gridWidth: nat, gridHeight: nat) returns (grid: array2<char>)
    ensures grid.Length0 == gridHeight && grid.Length1 == gridWidth
    ensures forall r, c :: 0 <= r < gridHeight && 0 <= c < gridWidth ==>
      grid[r, c] == Over(PageWritten(lines, gridWidth, gridHeight), ' ', r, c)
  {
    grid := new char[gridHeight, gridWidth]((_, _) => ' ');
    var lineIdx := 0;
    while lineIdx < |lines|
      invariant 0 <= lineIdx <= |lines|
      invariant grid.Length0 == gridHeight && grid.Length1 == gridWidth
      invariant forall r, c :: 0 <= r < gridHeight && 0 <= c < gridWidth ==>
        grid[r, c] == Over(PageWritten(lines[..lineIdx], gridWidth, gridHeight), ' ', r, c)
    {
      var line := lines[lineIdx];
      assert lines[..lineIdx + 1][..lineIdx] == lines[..lineIdx];
      if line.words == [] || line.words[0] == [] || line.gridY >= gridHeight {
        lineIdx := lineIdx + 1;
        continue;
      }
      var lineText := BuildLineText(line.words, line.style);
      var gridX := DetectIndentationLevel(line.xRatio);
      PlaceTextOnGrid(grid, lineText, gridX, line.gridY, gridWidth, gridHeight);
      lineIdx := lineIdx + 1;
    }
    assert lines[..lineIdx] == lines;
  }

  /** Every cell the page writes lies in the grid: the grid size bounds all placement. */
  lemma {:induction false} PageWrittenInGrid(lines: seq<LineLayout>, gridWidth: nat, gridHeight: nat)
    ensures forall cell :: cell in PageWritten(lines, gridWidth, gridHeight) ==> cell.0 < gridHeight && cell.1 < gridWidth
  {
    if lines != [] {
      var l := lines[|lines| - 1];
      PageWrittenInGrid(lines[..|lines| - 1], gridWidth, gridHeight);
      if !Skipped(l, gridHeight) {
        var x := DetectIndentationLevel(l.xRatio);
        WrittenInArea(Area(Anchored, x, gridWidth, gridHeight), Pen(x, l.gridY, false), LineText(l.words, l.style));
      }
    }
  }

  /**
   * Under these rules a newline returns to the line's own indentation while
   * a wrap returns to column 0: "ab\nc" from column 1 of a 2×3 grid puts
   * 'b' at (1, 0) and 'c' at (2, 1).
   */
  lemma NewlineAnchorsWrapDoesNot()
    ensures Written(Area(Anchored, 1, 2, 3), Pen(1, 0, false), "ab\nc") == map[(0, 1) := 'a', (1, 0) := 'b', (2, 1) := 'c']
  {
    assert "ab\nc"[..3] == "ab\n" && "ab\n"[..2] == "ab" && "ab"[..1] == "a" && "a"[..0] == "";
  }
}
