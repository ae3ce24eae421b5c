/**
 * The segment-based table extractor: rows of segments become candidate
 * tables when consecutive rows have similar column counts, and tables render
 * as in `TableExtractor` except that cell texts are trimmed first.  Grouping
 * segments into rows by their f32 `y` and the f32 alignment test
 * `is_likely_table` are not modelled: they arrive as the functions
 * `groupRows` and `isLikelyTable`.
 */
module TableExtractorV2 {
  import opened Wrappers
  import opened Text
  import opened TableExtractor

  // ---------------------------------------------------------------------
  // detect_tables_from_segments_fast

  /** A run of rows that can make a table: each row has two cells or more, and neighbours differ by at most one cell. */
  predicate TableRun(run: seq<seq<Segment>>) {
    (forall i :: 0 <= i < |run| ==> |run[i]| >= 2) &&
    (forall i :: 0 < i < |run| ==> -1 <= |run[i]| - |run[i - 1]| <= 1)
  }

  /** `t` is built from a run of at least two consecutive rows that the alignment test accepts. */
  ghost predicate FromRun(rows: seq<seq<Segment>>, t: Table, isLikelyTable: seq<seq<Segment>> -> bool) {
    exists a, b :: 0 <= a && a + 2 <= b <= |rows| && TableRun(rows[a..b]) && isLikelyTable(rows[a..b]) && t == TableOf(rows[a..b])
  }

  /**
   * `detect_tables_from_segments_fast`: nothing for fewer than four segments;
   * otherwise every table found is built from a run of at least two
   * consecutive rows, each of two cells or more, whose column counts differ
   * by at most one from row to row.
   */
  method DetectTablesFromSegmentsFast(segments: seq<Segment>,
                                      groupRows: seq<Segment> -> seq<seq<Segment>>,
                                      isLikelyTable: seq<seq<Segment>> -> bool)
    returns (tables: seq<Table>)
    ensures |segments| < 4 ==> tables == []
    ensures forall k :: 0 <= k < |tables| ==> FromRun(groupRows(segments), tables[k], isLikelyTable)
  {
    tables := [];
    if |segments| < 4 {
      return;
    }
    var sortedRows := groupRows(segments);
    var currentTableRows: seq<seq<Segment>> := [];
    var prevColCount: nat := 0;
    ghost var start := 0;
    var i := 0;
    while i < |sortedRows|
      invariant Scanning(sortedRows, i, tables, currentTableRows, prevColCount, start, isLikelyTable)
      decreases |sortedRows| - i
    {
      tables, currentTableRows, prevColCount, start :=
        ScanRow(sortedRows, i, tables, currentTableRows, prevColCount, start, isLikelyTable);
      i := i + 1;
    }
    tables := CloseRun(tables, sortedRows, start, i, currentTableRows, isLikelyTable);
  }

  /** Every table found so far comes from a run of `rows`. */
  ghost predicate AllFromRuns(rows: seq<seq<Segment>>, tables: seq<Table>, isLikelyTable: seq<seq<Segment>> -> bool) {
    forall k :: 0 <= k < |tables| ==> FromRun(rows, tables[k], isLikelyTable)
  }

  /** The scan's state before row `i`: the current run is `rows[start..i]` and `prevColCount` its last row's cell count (0 when empty). */
  ghost predicate Scanning(rows: seq<seq<Segment>>, i: nat, tables: seq<Table>, cur: seq<seq<Segment>>,
                           prevColCount: nat, start: nat, isLikelyTable: seq<seq<Segment>> -> bool) {
    start <= i <= |rows| && cur == rows[start..i] && TableRun(cur) &&
    prevColCount == (if cur == [] then 0 else |cur[|cur| - 1]|) &&
    AllFromRuns(rows, tables, isLikelyTable)
  }

  /** One turn of the loop over the sorted rows. */
  method ScanRow(rows: seq<seq<Segment>>, i: nat, tables: seq<Table>, cur: seq<seq<Segment>>,
                 prevColCount: nat, ghost start: nat, isLikelyTable: seq<seq<Segment>> -> bool)
    returns (tables': seq<Table>, cur': seq<seq<Segment>>, prevColCount': nat, ghost start': nat)
    requires i < |rows| && Scanning(rows, i, tables, cur, prevColCount, start, isLikelyTable)
    ensures Scanning(rows, i + 1, tables', cur', prevColCount', start', isLikelyTable)
  {
    var row := rows[i];
    var colCount := |row|;
    if colCount >= 2 {
      if prevColCount == 0 || -1 <= colCount - prevColCount <= 1 {
        tables', cur', prevColCount', start' := ExtendRun(rows, i, tables, cur, start, isLikelyTable);
      } else {
        tables' := CloseRun(tables, rows, start, i, cur, isLikelyTable);
        assert rows[i..i + 1] == [row];
        cur', prevColCount', start' := [row], colCount, i;
      }
    } else {
      tables' := CloseRun(tables, rows, start, i, cur, isLikelyTable);
      cur', prevColCount', start' := [], 0, i + 1;
    }
  }

  /** A row of two cells or more that continues the run joins it; at three rows or more a likely table is emitted and the run restarts. */
  method ExtendRun(rows: seq<seq<Segment>>, i: nat, tables: seq<Table>, cur: seq<seq<Segment>>,
                   ghost start: nat, isLikelyTable: seq<seq<Segment>> -> bool)
    returns (tables': seq<Table>, cur': seq<seq<Segment>>, prevColCount': nat, ghost start': nat)
    requires start <= i < |rows| && cur == rows[start..i] && TableRun(cur) && |rows[i]| >= 2
    requires cur != [] ==> -1 <= |rows[i]| - |cur[|cur| - 1]| <= 1
    requires AllFromRuns(rows, tables, isLikelyTable)
    ensures Scanning(rows, i + 1, tables', cur', prevColCount', start', isLikelyTable)
  {
    var row := rows[i];
    RunGrows(rows, start, i);
    ScanningGrows(rows, i, tables, start, isLikelyTable);
    tables', cur', prevColCount', start' := tables, cur + [row], |row|, start;
    if |cur'| >= 3 {
      if isLikelyTable(cur') {
        var table := CreateTableFromRowsFast(cur');
        if table.Some? {
          ScanningEmits(rows, i, tables, start, table.value, isLikelyTable);
          tables', cur', prevColCount', start' := tables + [table.value], [], 0, i + 1;
        }
      }
    }
  }

  /** The row joins the run. */
  lemma ScanningGrows(rows: seq<seq<Segment>>, i: nat, tables: seq<Table>, start: nat, isLikelyTable: seq<seq<Segment>> -> bool)
    requires start <= i < |rows| && TableRun(rows[start..i + 1]) && AllFromRuns(rows, tables, isLikelyTable)
    ensures Scanning(rows, i + 1, tables, rows[start..i] + [rows[i]], |rows[i]|, start, isLikelyTable)
  {
    assert rows[start..i + 1] == rows[start..i] + [rows[i]];
  }

  /** The run, three rows or more, becomes a table and a new run starts after it. */
  lemma ScanningEmits(rows: seq<seq<Segment>>, i: nat, tables: seq<Table>, start: nat, t: Table, isLikelyTable: seq<seq<Segment>> -> bool)
    requires start + 2 <= i + 1 <= |rows| && TableRun(rows[start..i + 1]) && isLikelyTable(rows[start..i + 1])
    requires Built(rows[start..i + 1], t.cells) && AllFromRuns(rows, tables, isLikelyTable)
    ensures Scanning(rows, i + 1, tables + [t], [], 0, i + 1, isLikelyTable)
  {
    RunTable(rows, start, i + 1, t, isLikelyTable);
    AllFromRunsSnoc(rows, tables, t, isLikelyTable);
  }

  lemma RunGrows(rows: seq<seq<Segment>>, start: nat, i: nat)
    requires start <= i < |rows| && TableRun(rows[start..i]) && |rows[i]| >= 2
    requires start < i ==> -1 <= |rows[i]| - |rows[i - 1]| <= 1
    ensures rows[start..i + 1] == rows[start..i] + [rows[i]] && TableRun(rows[start..i + 1])
  {
    assert rows[start..i + 1] == rows[start..i] + [rows[i]];
  }

  lemma AllFromRunsSnoc(rows: seq<seq<Segment>>, tables: seq<Table>, t: Table, isLikelyTable: seq<seq<Segment>> -> bool)
    requires AllFromRuns(rows, tables, isLikelyTable) && FromRun(rows, t, isLikelyTable)
    ensures AllFromRuns(rows, tables + [t], isLikelyTable)
  {
    forall k | 0 <= k < |tables| + 1 ensures FromRun(rows, (tables + [t])[k], isLikelyTable) {
      if k < |tables| {
        assert (tables + [t])[k] == tables[k];
      }
    }
  }

  /** Ends the current run: it becomes a table when it has two rows or more and looks like one. */
  method CloseRun(tables: seq<Table>, ghost rows: seq<seq<Segment>>, ghost a: nat, ghost b: nat,
                  currentTableRows: seq<seq<Segment>>, isLikelyTable: seq<seq<Segment>> -> bool)
    returns (r: seq<Table>)
    requires a <= b <= |rows| && currentTableRows == rows[a..b] && TableRun(currentTableRows)
    requires AllFromRuns(rows, tables, isLikelyTable)
    ensures AllFromRuns(rows, r, isLikelyTable)
    ensures r == if |currentTableRows| >= 2 && isLikelyTable(currentTableRows) then tables + [TableOf(currentTableRows)] else tables
  {
    r := tables;
    if |currentTableRows| >= 2 && isLikelyTable(currentTableRows) {
      var table := CreateTableFromRowsFast(currentTableRows);
      if table.Some? {
        RunTable(rows, a, b, table.value, isLikelyTable);
        BuiltIsTableOf(currentTableRows, table.value.cells);
        AllFromRunsSnoc(rows, tables, table.value, isLikelyTable);
        r := tables + [table.value];
      }
    }
  }

  lemma RunTable(rows: seq<seq<Segment>>, a: nat, b: nat, t: Table, isLikelyTable: seq<seq<Segment>> -> bool)
    requires a + 2 <= b <= |rows| && TableRun(rows[a..b]) && isLikelyTable(rows[a..b])
    requires Built(rows[a..b], t.cells)
    ensures FromRun(rows, t, isLikelyTable)
  {
    BuiltIsTableOf(rows[a..b], t.cells);
  }

  /** `create_table_from_rows_fast`, a copy of `create_table_from_rows`. */
  method CreateTableFromRowsFast(rows: seq<seq<Segment>>) returns (t: Option<Table>)
    ensures t.None? <==> rows == []
    ensures t.Some? ==> Built(rows, t.value.cells)
  {
    t := CreateTableFromRows(rows);
  }

  // ---------------------------------------------------------------------
  // Rendering with trimmed cell texts

  /** The table with every cell text trimmed (`cell.text.trim()`). */
  function Trimmed(t: Table): (r: Table)
    ensures |r.cells| == |t.cells|
    ensures forall i :: 0 <= i < |t.cells| ==> r.cells[i] == TrimRow(t.cells[i])
  {
    Table(seq(|t.cells|, i requires 0 <= i < |t.cells| => TrimRow(t.cells[i])))
  }

  function TrimRow(row: seq<Cell>): (r: seq<Cell>)
    ensures |r| == |row|
    ensures forall j :: 0 <= j < |row| ==> r[j] == row[j].(text := Trim(row[j].text))
  {
    seq(|row|, j requires 0 <= j < |row| => row[j].(text := Trim(row[j].text)))
  }

  lemma {:induction false} MaxLenTrimmed(t: Table)
    ensures MaxLen(Trimmed(t).cells) == MaxLen(t.cells)
  {
    SameLengthsSameMax(Trimmed(t).cells, t.cells);
  }

  lemma {:induction false} SameLengthsSameMax(a: seq<seq<Cell>>, b: seq<seq<Cell>>)
    requires |a| == |b| && forall i :: 0 <= i < |a| ==> |a[i]| == |b[i]|
    ensures MaxLen(a) == MaxLen(b)
    decreases |a|
  {
    if a != [] {
      SameLengthsSameMax(a[..|a| - 1], b[..|b| - 1]);
    }
  }

  /**
   * `table_to_markdown`: the first extractor's Markdown of the trimmed
   * cells; "" exactly when there are no rows, and otherwise the header,
   * the separator and every other row, each with as many slots as the widest
   * row has cells.
   */
  method TableToMarkdown(table: Table) returns (markdown: string)
    ensures markdown == MarkdownOf(Texts(Trimmed(table)), MaxLen(table.cells))
    ensures markdown == [] <==> table.cells == []
  {
    MaxLenTrimmed(table);
    markdown := TableExtractor.TableToMarkdown(Trimmed(table));
  }

  /** On a table whose texts are already trimmed, both extractors write the same Markdown. */
  lemma SameMarkdownWhenTrimmed(t: Table)
    requires forall i, j :: 0 <= i < |t.cells| && 0 <= j < |t.cells[i]| ==> Trim(t.cells[i][j].text) == t.cells[i][j].text
    ensures MarkdownOf(Texts(Trimmed(t)), MaxLen(t.cells)) == Markdown(t)
  {
    var r := Trimmed(t);
    forall i | 0 <= i < |t.cells| ensures r.cells[i] == t.cells[i] {
      var row := TrimRow(t.cells[i]);
      forall j | 0 <= j < |t.cells[i]| ensures row[j] == t.cells[i][j] {
      }
    }
    assert r.cells == t.cells;
  }

  /**
   * `table_to_grid` where the columns fit the requested width: widths from
   * the untrimmed byte lengths, trimmed texts in the cells; a border, a line
   * per row and the same border again, every line as long as the border.
   */
  method TableToGrid(table: Table, width: nat) returns (lines: seq<string>)
    requires TotalWidth(ColumnWidths(table)) <= width
    ensures table.cells == [] ==> lines == []
    ensures table.cells != [] ==> lines == GridOf(Texts(Trimmed(table)), ColumnWidths(table))
    ensures table.cells != [] ==>
      |lines| == |table.cells| + 2 && lines[0] == lines[|lines| - 1] &&
      forall k :: 0 <= k < |lines| ==> |lines[k]| == |lines[0]|
  {
    if table.cells == [] {
      return [];
    }
    var colWidths := ComputeColumnWidths(table);
    var shown := Texts(Trimmed(table));
    lines := RenderGrid(shown, colWidths);
    TrimmedFit(table);
    GridShape(shown, colWidths);
  }

  /** A trimmed text fits the column sized by its untrimmed byte length. */
  lemma TrimmedFit(t: Table)
    ensures Fits(Texts(Trimmed(t)), ColumnWidths(t))
  {
    TextsFit(Texts(t));
    FitsShorter(Texts(Trimmed(t)), Texts(t), ColumnWidths(t));
  }
}
