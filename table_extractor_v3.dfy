/**
 * The advanced table extractor: rows whose column positions line up form
 * regions, regions become tables whose cells carry a column index, and the
 * renderers place each cell in its column.  The f32 clustering of segments
 * into rows, the alignment test, the merging of column positions and the
 * building of a table from a region arrive as functions; the renderers and
 * the region scan are modelled in full.
 */
module TableExtractorV3 {
  import opened Wrappers
  import opened Text
  import opened Ints
  import opened TableExtractor

  /** `TextSegment`: a run of text with its box; `right` and `bottom` are the far edges. */
  datatype TextSegment = TextSegment(text: string, x: real, y: real, width: real, height: real, right: real, bottom: real)

  // ---------------------------------------------------------------------
  // detect_tables_advanced and find_table_regions

  /** A region: two rows or more, each of two segments or more, taken consecutively from `rows`. */
  ghost predicate IsRegion(rows: seq<seq<TextSegment>>, region: seq<seq<TextSegment>>) {
    |region| >= 2 && WideRows(region) &&
    exists a, b :: 0 <= a <= b <= |rows| && region == rows[a..b]
  }

  predicate WideRows(run: seq<seq<TextSegment>>) {
    forall r :: 0 <= r < |run| ==> |run[r]| >= 2
  }

  ghost predicate AllRegions(rows: seq<seq<TextSegment>>, regions: seq<seq<seq<TextSegment>>>) {
    forall k :: 0 <= k < |regions| ==> IsRegion(rows, regions[k])
  }

  /** The column positions of a row: each segment's `x`. */
  function Columns(row: seq<TextSegment>): (r: seq<real>)
    ensures |r| == |row| && forall j :: 0 <= j < |row| ==> r[j] == row[j].x
  {
    seq(|row|, j requires 0 <= j < |row| => row[j].x)
  }

  /**
   * `detect_tables_advanced`: nothing for fewer than four segments;
   * otherwise every table is the one built from a region of the rows.
   */
  method DetectTablesAdvanced(segments: seq<TextSegment>,
                              clusterIntoRows: seq<TextSegment> -> seq<seq<TextSegment>>,
                              columnsAlign: (seq<real>, seq<real>) -> bool,
                              mergeColumnPositions: (seq<real>, seq<real>) -> seq<real>,
                              buildTableFromRegion: seq<seq<TextSegment>> -> Option<Table>)
    returns (tables: seq<Table>)
    ensures |segments| < 4 ==> tables == []
    ensures forall k :: 0 <= k < |tables| ==> FromRegion(clusterIntoRows(segments), buildTableFromRegion, tables[k])
  {
    tables := [];
    if |segments| < 4 {
      return;
    }
    var rows := clusterIntoRows(segments);
    var tableRegions := FindTableRegions(rows, columnsAlign, mergeColumnPositions);
    for k := 0 to |tableRegions|
      invariant forall j :: 0 <= j < |tables| ==> FromRegion(rows, buildTableFromRegion, tables[j])
    {
      var region := tableRegions[k];
      var table := buildTableFromRegion(region);
      if table.Some? {
        assert IsRegion(rows, region);
        assert FromRegion(rows, buildTableFromRegion, table.value);
        tables := tables + [table.value];
      }
    }
  }

  /** `t` is the table built from some region of `rows`. */
  ghost predicate FromRegion(rows: seq<seq<TextSegment>>, buildTableFromRegion: seq<seq<TextSegment>> -> Option<Table>, t: Table) {
    exists region :: IsRegion(rows, region) && buildTableFromRegion(region) == Some(t)
  }

  /** The scan's state before row `i`: the current region is `rows[start..i]`, all of its rows wide. */
  ghost predicate Scanning(rows: seq<seq<TextSegment>>, i: nat, regions: seq<seq<seq<TextSegment>>>,
                           current: seq<seq<TextSegment>>, start: nat) {
    start <= i <= |rows| && current == rows[start..i] && WideRows(current) && AllRegions(rows, regions)
  }

  /**
   * `find_table_regions`: every region returned has at least two rows, each
   * of at least two segments, and is a run of consecutive rows.
   */
  method FindTableRegions(rows: seq<seq<TextSegment>>,
                          columnsAlign: (seq<real>, seq<real>) -> bool,
                          mergeColumnPositions: (seq<real>, seq<real>) -> seq<real>)
    returns (regions: seq<seq<seq<TextSegment>>>)
    ensures AllRegions(rows, regions)
  {
    regions := [];
    var currentRegion: seq<seq<TextSegment>> := [];
    var prevColumns: seq<real> := [];
    ghost var start := 0;
    for i := 0 to |rows|
      invariant Scanning(rows, i, regions, currentRegion, start)
    {
      regions, currentRegion, prevColumns, start :=
        ScanRow(rows, i, regions, currentRegion, prevColumns, start, columnsAlign, mergeColumnPositions);
    }
    regions := FlushRegion(rows, regions, currentRegion, start, |rows|);
  }

  /** One turn of the loop in `find_table_regions`. */
  method ScanRow(rows: seq<seq<TextSegment>>, i: nat, regions: seq<seq<seq<TextSegment>>>,
                 currentRegion: seq<seq<TextSegment>>, prevColumns: seq<real>, ghost start: nat,
                 columnsAlign: (seq<real>, seq<real>) -> bool,
                 mergeColumnPositions: (seq<real>, seq<real>) -> seq<real>)
    returns (regions': seq<seq<seq<TextSegment>>>, currentRegion': seq<seq<TextSegment>>,
             prevColumns': seq<real>, ghost start': nat)
    requires i < |rows| && Scanning(rows, i, regions, currentRegion, start)
    ensures Scanning(rows, i + 1, regions', currentRegion', start')
  {
    var row := rows[i];
    if |row| < 2 {
      regions' := FlushRegion(rows, regions, currentRegion, start, i);
      currentRegion', prevColumns', start' := [], [], i + 1;
      return;
    }
    var columns := Columns(row);
    if prevColumns == [] {
      GrowRegion(rows, start, i);
      regions', currentRegion', prevColumns', start' := regions, currentRegion + [row], columns, start;
    } else if columnsAlign(columns, prevColumns) {
      GrowRegion(rows, start, i);
      regions', currentRegion', prevColumns', start' :=
        regions, currentRegion + [row], mergeColumnPositions(prevColumns, columns), start;
    } else {
      regions' := FlushRegion(rows, regions, currentRegion, start, i);
      assert rows[i..i + 1] == [row];
      currentRegion', prevColumns', start' := [row], columns, i;
    }
  }

  lemma GrowRegion(rows: seq<seq<TextSegment>>, start: nat, i: nat)
    requires start <= i < |rows| && WideRows(rows[start..i]) && |rows[i]| >= 2
    ensures rows[start..i + 1] == rows[start..i] + [rows[i]] && WideRows(rows[start..i + 1])
  {
    assert rows[start..i + 1] == rows[start..i] + [rows[i]];
  }

  /** Ends the current region: it is kept when it has two rows or more. */
  method FlushRegion(rows: seq<seq<TextSegment>>, regions: seq<seq<seq<TextSegment>>>,
                     currentRegion: seq<seq<TextSegment>>, ghost start: nat, ghost i: nat)
    returns (r: seq<seq<seq<TextSegment>>>)
    requires start <= i <= |rows| && currentRegion == rows[start..i] && WideRows(currentRegion)
    requires AllRegions(rows, regions)
    ensures AllRegions(rows, r)
    ensures r == if |currentRegion| >= 2 then regions + [currentRegion] else regions
  {
    r := regions;
    if |currentRegion| >= 2 {
      assert IsRegion(rows, currentRegion) by {
        assert currentRegion == rows[start..i];
      }
      r := regions + [currentRegion];
      forall k | 0 <= k < |r| ensures IsRegion(rows, r[k]) {
        if k < |regions| {
          assert r[k] == regions[k];
        }
      }
    }
  }

  // ---------------------------------------------------------------------
  // find_column_index

  /** The first boundary to the right of `center`, or `|boundaries|` when there is none. */
  function FirstRightOf(center: real, boundaries: seq<real>): (k: nat)
    ensures k <= |boundaries|
    ensures forall j :: 0 <= j < k ==> boundaries[j] <= center
    ensures k < |boundaries| ==> center < boundaries[k]
  {
    if boundaries == [] then 0
    else if center < boundaries[0] then 0
    else 1 + FirstRightOf(center, boundaries[1..])
  }

  /** Strictly increasing boundaries, as `determine_column_boundaries` produces them. */
  predicate Increasing(boundaries: seq<real>) {
    forall i, j :: 0 <= i < j < |boundaries| ==> boundaries[i] < boundaries[j]
  }

  /**
   * `find_column_index`: the column whose left boundary is the last one at
   * or before the segment's centre (column 0 when the centre is left of every
   * boundary); always below `max(1, |boundaries|)`.
   */
  method FindColumnIndex(segment: TextSegment, boundaries: seq<real>) returns (r: nat)
    ensures r < if |boundaries| == 0 then 1 else |boundaries|
    ensures r == SatSub(FirstRightOf(segment.x + segment.width / 2.0, boundaries), 1)
  {
    var centerX := segment.x + segment.width / 2.0;
    var i := 0;
    while i < |boundaries|
      invariant 0 <= i <= |boundaries|
      invariant forall j :: 0 <= j < i ==> boundaries[j] <= centerX
    {
      if centerX < boundaries[i] {
        FirstRightOfIs(centerX, boundaries, i);
        return SatSub(i, 1);
      }
      i := i + 1;
    }
    FirstRightOfIs(centerX, boundaries, i);
    r := SatSub(|boundaries|, 1);
  }

  /** `FirstRightOf` is pinned down by its two conditions. */
  lemma FirstRightOfIs(center: real, boundaries: seq<real>, k: nat)
    requires k <= |boundaries|
    requires forall j :: 0 <= j < k ==> boundaries[j] <= center
    requires k < |boundaries| ==> center < boundaries[k]
    ensures FirstRightOf(center, boundaries) == k
  {
  }

  /**
   * With increasing boundaries and a centre at or past the first one, the
   * segment lands in the column that contains its centre: its left boundary
   * is at or before the centre and the next boundary, if any, is after it.
   */
  lemma CenterInColumn(center: real, boundaries: seq<real>)
    requires Increasing(boundaries) && boundaries != [] && boundaries[0] <= center
    ensures var r := SatSub(FirstRightOf(center, boundaries), 1);
      boundaries[r] <= center && (r + 1 < |boundaries| ==> center < boundaries[r + 1])
  {
  }

  // ---------------------------------------------------------------------
  // Cells placed by column index

  /** One more than the largest column index in a row, 0 for an empty row. */
  function RowColumns(row: seq<Cell>): (m: nat)
    ensures forall j :: 0 <= j < |row| ==> row[j].col < m
  {
    if row == [] then 0 else Max(RowColumns(row[..|row| - 1]), row[|row| - 1].col + 1)
  }

  /** `max_cols`: one more than the largest column index of any cell, 0 without cells. */
  function MaxColumns(cells: seq<seq<Cell>>): (m: nat)
    ensures forall i, j :: 0 <= i < |cells| && 0 <= j < |cells[i]| ==> cells[i][j].col < m
  {
    if cells == [] then 0 else Max(MaxColumns(cells[..|cells| - 1]), RowColumns(cells[|cells| - 1]))
  }

  lemma {:induction false} RowColumnsAttained(row: seq<Cell>)
    ensures RowColumns(row) == 0 || exists j :: 0 <= j < |row| && row[j].col + 1 == RowColumns(row)
  {
    if row != [] {
      var init := row[..|row| - 1];
      RowColumnsAttained(init);
      if RowColumns(row) != row[|row| - 1].col + 1 {
        var j :| 0 <= j < |init| && init[j].col + 1 == RowColumns(init);
        assert row[j] == init[j];
      }
    }
  }

  /** `max_cols` is met: when positive, some cell sits in column `max_cols - 1`. */
  lemma {:induction false} MaxColumnsAttained(cells: seq<seq<Cell>>)
    ensures MaxColumns(cells) == 0 ||
      exists i, j :: 0 <= i < |cells| && 0 <= j < |cells[i]| && cells[i][j].col + 1 == MaxColumns(cells)
  {
    if cells != [] {
      var init := cells[..|cells| - 1];
      var last := cells[|cells| - 1];
      MaxColumnsAttained(init);
      RowColumnsAttained(last);
      if MaxColumns(cells) == RowColumns(last) {
        if RowColumns(last) != 0 {
          var j :| 0 <= j < |last| && last[j].col + 1 == RowColumns(last);
          assert cells[|cells| - 1][j].col + 1 == MaxColumns(cells);
        }
      } else {
        var i, j :| 0 <= i < |init| && 0 <= j < |init[i]| && init[i][j].col + 1 == MaxColumns(init);
        assert cells[i] == init[i];
      }
    }
  }

  /** `cells_text`: `maxCols` slots, each holding the trimmed text of the last cell with that column index. */
  function Placed(row: seq<Cell>, maxCols: nat): (r: seq<string>)
    ensures |r| == maxCols
  {
    if row == [] then seq(maxCols, _ => [])
    else
      var p := Placed(row[..|row| - 1], maxCols);
      var cell := row[|row| - 1];
      if cell.col < maxCols then p[cell.col := Trim(cell.text)] else p
  }

  /** When two cells share a column index, the later one's text is shown. */
  lemma {:induction false} LaterCellWins(row: seq<Cell>, maxCols: nat, k: nat)
    requires k < |row| && row[k].col < maxCols
    requires forall j :: k < j < |row| ==> row[j].col != row[k].col
    ensures Placed(row, maxCols)[row[k].col] == Trim(row[k].text)
  {
    if k < |row| - 1 {
      LaterCellWins(row[..|row| - 1], maxCols, k);
    }
  }

  /** A column that no cell names stays empty. */
  lemma {:induction false} UnnamedColumnEmpty(row: seq<Cell>, maxCols: nat, c: nat)
    requires c < maxCols
    requires forall j :: 0 <= j < |row| ==> row[j].col != c
    ensures Placed(row, maxCols)[c] == []
  {
    if row != [] {
      UnnamedColumnEmpty(row[..|row| - 1], maxCols, c);
    }
  }

  /** Each slot is empty or the trimmed text of a cell with that column index. */
  lemma {:induction false} PlacedFrom(row: seq<Cell>, maxCols: nat, c: nat)
    requires c < maxCols
    ensures Placed(row, maxCols)[c] == [] ||
      exists j :: 0 <= j < |row| && row[j].col == c && Placed(row, maxCols)[c] == Trim(row[j].text)
  {
    if row != [] {
      var init := row[..|row| - 1];
      PlacedFrom(init, maxCols, c);
      PlacedSnoc(row, maxCols, c);
      if row[|row| - 1].col != c && Placed(init, maxCols)[c] != [] {
        var j :| 0 <= j < |init| && init[j].col == c && Placed(init, maxCols)[c] == Trim(init[j].text);
        assert row[j] == init[j];
      }
    }
  }

  /** How the last cell of a row affects one slot. */
  lemma PlacedSnoc(row: seq<Cell>, maxCols: nat, c: nat)
    requires row != [] && c < maxCols
    ensures Placed(row, maxCols)[c] ==
      if row[|row| - 1].col == c then Trim(row[|row| - 1].text) else Placed(row[..|row| - 1], maxCols)[c]
  {
  }

  /** The row loop of both renderers: fills `cells_text` cell by cell. */
  method PlaceCells(row: seq<Cell>, maxCols: nat) returns (cellsText: seq<string>)
    ensures cellsText == Placed(row, maxCols)
  {
    cellsText := seq(maxCols, _ => []);
    for j := 0 to |row|
      invariant cellsText == Placed(row[..j], maxCols)
    {
      assert row[..j + 1][..j] == row[..j];
      var cell := row[j];
      if cell.col < maxCols {
        cellsText := cellsText[cell.col := Trim(cell.text)];
      }
    }
    assert row[..|row|] == row;
  }

  /** The placed texts of every row. */
  function PlacedRows(cells: seq<seq<Cell>>, maxCols: nat): (r: seq<seq<string>>)
    ensures |r| == |cells| && forall i :: 0 <= i < |cells| ==> r[i] == Placed(cells[i], maxCols)
  {
    seq(|cells|, i requires 0 <= i < |cells| => Placed(cells[i], maxCols))
  }

  // ---------------------------------------------------------------------
  // table_to_markdown

  /** The Markdown the advanced extractor writes for a table. */
  function MarkdownV3(t: Table): string {
    MarkdownOf(PlacedRows(t.cells, MaxColumns(t.cells)), MaxColumns(t.cells))
  }

  /**
   * `table_to_markdown`: "" exactly when there are no rows; otherwise the
   * first row, the separator, then the other rows, each cell in the slot
   * of its column index.
   */
  method TableToMarkdown(table: Table) returns (markdown: string)
    ensures markdown == MarkdownV3(table)
    ensures markdown == [] <==> table.cells == []
  {
    if table.cells == [] {
      return [];
    }
    var maxCols := MaxColumns(table.cells);
    ghost var rows := PlacedRows(table.cells, maxCols);
    markdown := [];
    for rowIdx := 0 to |table.cells|
      invariant rowIdx == 0 ==> markdown == []
      invariant rowIdx > 0 ==> markdown == Unlines(MarkdownLines(rows[..rowIdx], maxCols))
    {
      var cellsText := PlaceCells(table.cells[rowIdx], maxCols);
      markdown := PushTexts(markdown, cellsText);
      if rowIdx == 0 {
        markdown := PushSeparatorRow(markdown, maxCols);
        MarkdownLinesHead(rows, maxCols);
      } else {
        MarkdownLinesSnoc(rows, rowIdx, maxCols);
      }
    }
    assert rows[..|table.cells|] == rows;
  }

  /** Writes one row: a bar, then `" {} |"` per slot, then a line break. */
  method PushTexts(md: string, texts: seq<string>) returns (r: string)
    ensures r == md + MarkdownRow(texts, |texts|) + "\n"
  {
    r := md + "|";
    for k := 0 to |texts|
      invariant r == md + "|" + Slots(texts[..k])
    {
      assert texts[..k + 1][..k] == texts[..k];
      r := r + Slot(texts[k]);
    }
    assert texts[..|texts|] == texts;
    r := r + "\n";
  }

  /** Cell texts without line breaks keep every Markdown line apart. */
  lemma PlacedNoBreak(cells: seq<seq<Cell>>, maxCols: nat, ch: char)
    requires forall i, j :: 0 <= i < |cells| && 0 <= j < |cells[i]| ==> ch !in cells[i][j].text
    ensures forall i, c :: 0 <= i < |cells| && 0 <= c < maxCols ==> ch !in PlacedRows(cells, maxCols)[i][c]
  {
    forall i, c | 0 <= i < |cells| && 0 <= c < maxCols
      ensures ch !in PlacedRows(cells, maxCols)[i][c]
    {
      PlacedFrom(cells[i], maxCols, c);
      var p := Placed(cells[i], maxCols);
      if p[c] != [] {
        var j :| 0 <= j < |cells[i]| && cells[i][j].col == c && p[c] == Trim(cells[i][j].text);
        TrimKeepsOut(cells[i][j].text, ch);
      }
    }
  }

  /**
   * Read back line by line, the Markdown is the first row, the separator and
   * the other rows, and every line has `max_cols` slots (one more bar).
   */
  lemma MarkdownV3Shape(t: Table, k: nat)
    requires t.cells != [] && k <= |t.cells|
    requires forall i, j :: 0 <= i < |t.cells| && 0 <= j < |t.cells[i]| ==>
      '\n' !in t.cells[i][j].text && '|' !in t.cells[i][j].text
    ensures Lines(MarkdownV3(t)) == MarkdownLines(PlacedRows(t.cells, MaxColumns(t.cells)), MaxColumns(t.cells))
    ensures Count(Lines(MarkdownV3(t))[k], '|') == MaxColumns(t.cells) + 1
  {
    var m := MaxColumns(t.cells);
    var rows := PlacedRows(t.cells, m);
    PlacedNoBreak(t.cells, m, '\n');
    PlacedNoBreak(t.cells, m, '|');
    MarkdownReadsBack(rows, m);
    var ls := MarkdownLines(rows, m);
    if k == 1 {
      SeparatorSlots(m);
    } else {
      var i := if k == 0 then 0 else k - 1;
      assert ls[k] == MarkdownRow(rows[i], m);
      MarkdownRowSlots(rows[i], m);
    }
  }

  // ---------------------------------------------------------------------
  // table_to_grid

  /** One more row of cells widens their columns to byte length plus two; columns past `max_cols` are skipped. */
  function WidenRow(ws: seq<nat>, row: seq<Cell>): (r: seq<nat>)
    ensures |r| == |ws|
  {
    if row == [] then ws
    else
      var w := WidenRow(ws, row[..|row| - 1]);
      var cell := row[|row| - 1];
      if cell.col < |w| then w[cell.col := Max(w[cell.col], ByteLen(cell.text) + 2)] else w
  }

  /** `col_widths` before scaling: 3 per column, widened by every cell. */
  function RawWidthsV3(cells: seq<seq<Cell>>, maxCols: nat): (r: seq<nat>)
    ensures |r| == maxCols
  {
    if cells == [] then seq(maxCols, _ => 3) else WidenRow(RawWidthsV3(cells[..|cells| - 1], maxCols), cells[|cells| - 1])
  }

  lemma {:induction false} WidenRowBounds(ws: seq<nat>, row: seq<Cell>)
    ensures forall c :: 0 <= c < |ws| ==> ws[c] <= WidenRow(ws, row)[c]
    ensures forall j :: 0 <= j < |row| && row[j].col < |ws| ==> ByteLen(row[j].text) + 2 <= WidenRow(ws, row)[row[j].col]
  {
    if row != [] {
      var init := row[..|row| - 1];
      WidenRowBounds(ws, init);
      forall j | 0 <= j < |init| ensures row[j] == init[j] { }
    }
  }

  /** Every raw width is at least 3 and holds each of its cells' byte length plus two. */
  lemma {:induction false} RawWidthsV3Bounds(cells: seq<seq<Cell>>, maxCols: nat)
    ensures forall c :: 0 <= c < maxCols ==> RawWidthsV3(cells, maxCols)[c] >= 3
    ensures forall i, j :: 0 <= i < |cells| && 0 <= j < |cells[i]| && cells[i][j].col < maxCols ==>
      ByteLen(cells[i][j].text) + 2 <= RawWidthsV3(cells, maxCols)[cells[i][j].col]
  {
    if cells != [] {
      var init := cells[..|cells| - 1];
      var prev := RawWidthsV3(init, maxCols);
      RawWidthsV3Bounds(init, maxCols);
      WidenRowBounds(prev, cells[|cells| - 1]);
      forall i | 0 <= i < |init| ensures cells[i] == init[i] { }
    }
  }

  /** A column's width after scaling by `scale`: truncated, but never below 3. */
  function ScaledWidth(w: nat, scale: real): (r: nat)
    requires scale >= 0.0
    ensures r >= 3
  {
    var f := ((w as real) * scale).Floor;
    if f < 3 then 3 else f
  }

  /** `col_widths` after the "Ensure total width fits" step. */
  function FinalWidthsV3(raw: seq<nat>, width: nat): (r: seq<nat>)
    ensures |r| == |raw|
  {
    var total := Sum(raw) + |raw| + 1;
    if total > width then
      seq(|raw|, c requires 0 <= c < |raw| => ScaledWidth(raw[c], (width as real) / (total as real)))
    else raw
  }

  /** Scaling only narrows a column of width 3 or more. */
  lemma ScaledNarrows(w: nat, scale: real)
    requires w >= 3 && 0.0 <= scale <= 1.0
    ensures ScaledWidth(w, scale) <= w
  {
    assert (w as real) * scale <= w as real;
  }

  /**
   * The width steps of `table_to_grid`: a column per index below `max_cols`,
   * every width at least 3 whether or not the table was scaled, and without
   * scaling each width holds its cells' byte length plus two.
   */
  method ColumnWidthsV3(table: Table, maxCols: nat, width: nat) returns (colWidths: seq<nat>)
    ensures colWidths == FinalWidthsV3(RawWidthsV3(table.cells, maxCols), width)
    ensures |colWidths| == maxCols && forall c :: 0 <= c < maxCols ==> colWidths[c] >= 3
  {
    colWidths := RawWidthsOf(table.cells, maxCols);
    RawWidthsV3Bounds(table.cells, maxCols);
    var totalWidth := Sum(colWidths) + maxCols + 1;
    if totalWidth > width {
      colWidths := ScaleWidths(colWidths, (width as real) / (totalWidth as real));
    }
  }

  /** The outer loop over the table's rows. */
  method RawWidthsOf(cells: seq<seq<Cell>>, maxCols: nat) returns (colWidths: seq<nat>)
    ensures colWidths == RawWidthsV3(cells, maxCols)
  {
    colWidths := seq(maxCols, _ => 3);
    for i := 0 to |cells|
      invariant colWidths == RawWidthsV3(cells[..i], maxCols)
    {
      assert cells[..i + 1][..i] == cells[..i];
      colWidths := WidenByRow(colWidths, cells[i]);
    }
    assert cells[..|cells|] == cells;
  }

  /** Every width multiplied by `scale`, rounded down and raised to at least 3. */
  method ScaleWidths(raw: seq<nat>, scale: real) returns (colWidths: seq<nat>)
    requires scale >= 0.0
    ensures colWidths == seq(|raw|, c requires 0 <= c < |raw| => ScaledWidth(raw[c], scale))
  {
    colWidths := raw;
    for c := 0 to |colWidths|
      invariant |colWidths| == |raw|
      invariant forall d :: 0 <= d < |raw| ==> colWidths[d] == if d < c then ScaledWidth(raw[d], scale) else raw[d]
    {
      colWidths := colWidths[c := ScaledWidth(colWidths[c], scale)];
    }
  }

  /** The inner loop over a row's cells. */
  method WidenByRow(ws: seq<nat>, row: seq<Cell>) returns (r: seq<nat>)
    ensures r == WidenRow(ws, row)
  {
    r := ws;
    for j := 0 to |row|
      invariant r == WidenRow(ws, row[..j])
    {
      assert row[..j + 1][..j] == row[..j];
      var cell := row[j];
      if cell.col < |r| {
        r := r[cell.col := Max(r[cell.col], ByteLen(cell.text) + 2)];
      }
    }
    assert row[..|row|] == row;
  }

  /** The widths the grid is drawn with. */
  function GridWidthsV3(t: Table, width: nat): seq<nat> {
    FinalWidthsV3(RawWidthsV3(t.cells, MaxColumns(t.cells)), width)
  }

  /** Every placed text fits its unscaled column. */
  lemma PlacedFit(t: Table)
    ensures Fits(PlacedRows(t.cells, MaxColumns(t.cells)), RawWidthsV3(t.cells, MaxColumns(t.cells)))
  {
    var m := MaxColumns(t.cells);
    var ws := RawWidthsV3(t.cells, m);
    var rows := PlacedRows(t.cells, m);
    RawWidthsV3Bounds(t.cells, m);
    forall i | 0 <= i < |rows| ensures RowFits(rows[i], ws) {
      forall c | 0 <= c < m ensures |rows[i][c]| + 2 <= ws[c] {
        PlacedCellFits(t.cells, i, m, c, ws);
      }
    }
  }

  lemma PlacedCellFits(cells: seq<seq<Cell>>, i: nat, m: nat, c: nat, ws: seq<nat>)
    requires i < |cells| && c < m == |ws|
    requires forall j :: 0 <= j < |cells[i]| && cells[i][j].col < m ==> ByteLen(cells[i][j].text) + 2 <= ws[cells[i][j].col]
    requires forall d :: 0 <= d < m ==> ws[d] >= 3
    ensures |Placed(cells[i], m)[c]| + 2 <= ws[c]
  {
    var p := Placed(cells[i], m);
    PlacedFrom(cells[i], m, c);
    if p[c] != [] {
      var j :| 0 <= j < |cells[i]| && cells[i][j].col == c && p[c] == Trim(cells[i][j].text);
      TrimNoLonger(cells[i][j].text);
      ByteLenBounds(cells[i][j].text);
    }
  }

  /**
   * `table_to_grid` when the widths fit the requested width: no rows give
   * no lines; otherwise a border, a line per row with each cell in the
   * column of its index, and the border again, all of one length.
   */
  method TableToGrid(table: Table, width: nat) returns (lines: seq<string>)
    requires table.cells != [] ==> TotalWidth(RawWidthsV3(table.cells, MaxColumns(table.cells))) <= width
    ensures table.cells == [] ==> lines == []
    ensures table.cells != [] ==>
      lines == GridOf(PlacedRows(table.cells, MaxColumns(table.cells)), GridWidthsV3(table, width))
    ensures table.cells != [] ==>
      |lines| == |table.cells| + 2 && lines[0] == lines[|lines| - 1] &&
      forall k :: 0 <= k < |lines| ==> |lines[k]| == |lines[0]|
  {
    if table.cells == [] {
      return [];
    }
    var maxCols := MaxColumns(table.cells);
    var colWidths := ColumnWidthsV3(table, maxCols, width);
    var rows := PlacedRowsOf(table.cells, maxCols);
    assert rows == PlacedRows(table.cells, maxCols);
    lines := RenderGrid(rows, colWidths);
    PlacedFit(table);
    GridShape(rows, colWidths);
  }

  /** One step of `PlacedRowsOf`: appending the next row's slots keeps every row placed. */
  lemma PushPlaced(rows: seq<seq<string>>, cells: seq<seq<Cell>>, maxCols: nat, t: seq<string>)
    requires |rows| < |cells| && t == Placed(cells[|rows|], maxCols)
    requires forall r {:trigger rows[r]} :: 0 <= r < |rows| ==> rows[r] == Placed(cells[r], maxCols)
    ensures forall r {:trigger (rows + [t])[r]} :: 0 <= r <= |rows| ==> (rows + [t])[r] == Placed(cells[r], maxCols)
  {
    forall r | 0 <= r <= |rows| ensures (rows + [t])[r] == Placed(cells[r], maxCols) {
      if r < |rows| {
        assert (rows + [t])[r] == rows[r];
      }
    }
  }

  /** Fills `cells_text` for every row. */
  method PlacedRowsOf(cells: seq<seq<Cell>>, maxCols: nat) returns (rows: seq<seq<string>>)
    ensures |rows| == |cells| && forall i {:trigger rows[i]} :: 0 <= i < |cells| ==> rows[i] == Placed(cells[i], maxCols)
  {
    rows := [];
    var i := 0;
    while i < |cells|
      invariant 0 <= i <= |cells|
      invariant |rows| == i && forall r {:trigger rows[r]} :: 0 <= r < i ==> rows[r] == Placed(cells[r], maxCols)
    {
      var cellsText := PlaceCells(cells[i], maxCols);
      PushPlaced(rows, cells, maxCols, cellsText);
      rows := rows + [cellsText];
      i := i + 1;
    }
  }
}
