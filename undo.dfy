/**
 * The undo/redo history of the chunked editor: two stacks of commands with
 * a size cap, and the commands themselves, each of which knows how to apply
 * itself to the grid and how to take itself back. The line commands do so
 * by clearing whole rows (columns 0 to 999) and rewriting them from a
 * snapshot of `to_lines`.
 */
module Undo {
  import opened Wrappers
  import opened Text
  import opened Chunked

  /** The row rewrites clear the columns below this bound and no others. */
  const REWRITE_WIDTH: nat := 1000

  datatype Command =
    | InsertChar(row: nat, col: nat, ch: char)
    | DeleteChar(row: nat, col: nat, deletedChar: char)
    | InsertNewLine(row: nat, col: nat, textAfterCursor: string)
    | DeleteLine(row: nat, deletedLine: string, prevLineLength: nat)
    | PasteBlock(row: nat, col: nat, lines: seq<string>, replacedContent: seq<string>)
  {
    /**
     * The commands whose grid effect is modelled: InsertChar and DeleteChar
     * call `shift_right`/`shift_left`, which the grid does not define.
     */
    predicate Modelled() {
      !InsertChar? && !DeleteChar?
    }

    /** `execute` evaluates `row - 1` only to write a char of `deleted_line`. */
    predicate CanExecute() {
      Modelled() && (DeleteLine? ==> row > 0 || deletedLine == [])
    }

    /** `undo` evaluates `row - 1` only to clear a column below 1000. */
    predicate CanUndo() {
      Modelled() && (DeleteLine? ==> row > 0 || prevLineLength >= REWRITE_WIDTH)
    }

    /** The grid after `execute`, given the `to_lines` snapshot it reads. */
    function ExecutedOn(g: Canvas, snapshot: seq<string>): Canvas
      requires CanExecute()
    {
      match this
      case InsertNewLine(row, col, text) => NewlineInserted(g, snapshot, row, col, text)
      case DeleteLine(row, deleted, prevLen) => LineDeleted(g, snapshot, row, deleted, prevLen)
      case PasteBlock(row, col, lines, _) => g.WriteRows(row, col, lines, |lines|, {})
    }

    /** The grid after `undo`, given the `to_lines` snapshot it reads. */
    function UndoneOn(g: Canvas, snapshot: seq<string>): Canvas
      requires CanUndo()
    {
      match this
      case InsertNewLine(row, col, text) => NewlineRemoved(g, snapshot, row, col, text)
      case DeleteLine(row, deleted, prevLen) => LineRestored(g, snapshot, row, deleted, prevLen)
      case PasteBlock(row, col, lines, replaced) => PasteRemoved(g, row, col, lines, replaced)
    }

    /** The grid after `execute`. */
    ghost function Executed(g: Canvas): Canvas
      requires g.Valid() && CanExecute()
    {
      ExecutedOn(g, g.Export())
    }

    /** The grid after `undo`. */
    ghost function Undone(g: Canvas): Canvas
      requires g.Valid() && CanUndo()
    {
      UndoneOn(g, g.Export())
    }

    /** `Command::execute`. */
    method Execute(grid: ChunkedGrid)
      requires grid.Valid() && CanExecute()
      modifies grid`chunks, grid`minChunk, grid`maxChunk
      ensures grid.Valid() && grid.State() == Executed(old(grid.State()))
    {
      match this
      case InsertNewLine(row, col, text) =>
        ExecuteInsertNewline(grid, row, col, text);
      case DeleteLine(row, deleted, prevLen) =>
        ExecuteDeleteLine(grid, row, deleted, prevLen);
      case PasteBlock(row, col, lines, _) =>
        grid.PasteBlock(lines, row, col);
    }

    /** `Command::undo`. */
    method Undo(grid: ChunkedGrid)
      requires grid.Valid() && CanUndo()
      modifies grid`chunks, grid`minChunk, grid`maxChunk
      ensures grid.Valid() && grid.State() == Undone(old(grid.State()))
    {
      match this
      case InsertNewLine(row, col, text) =>
        UndoInsertNewline(grid, row, col, text);
      case DeleteLine(row, deleted, prevLen) =>
        UndoDeleteLine(grid, row, deleted, prevLen);
      case PasteBlock(row, col, lines, replaced) =>
        UndoPasteBlock(grid, row, col, lines, replaced);
    }
  }

  /** A row of `n` spaces. */
  function Spaces(n: nat): (r: string)
    ensures |r| == n
  {
    seq(n, _ => ' ')
  }

  /** The number of columns from `from` up to 1000. */
  function ClearWidth(from: nat): nat {
    if from < REWRITE_WIDTH then REWRITE_WIDTH - from else 0
  }

  /** One row of spaces per line, as long as the line is in UTF-8 bytes: what `undo_paste_block` clears. */
  function ByteBlanks(lines: seq<string>): (r: seq<string>)
    ensures |r| == |lines| && forall i :: 0 <= i < |r| ==> r[i] == Spaces(ByteLen(lines[i]))
  {
    seq(|lines|, i requires 0 <= i < |lines| => Spaces(ByteLen(lines[i])))
  }

  /** The line above `r` in the snapshot, or "" where there is none. */
  function Previous(lines: seq<string>, r: nat): string {
    if r > 0 && r - 1 < |lines| then lines[r - 1] else ""
  }

  /** The line below `r` in the snapshot, or "" where there is none. */
  function Following(lines: seq<string>, r: nat): string {
    if r + 1 < |lines| then lines[r + 1] else ""
  }

  /** `for c in from..1000 { set(r, c, ' ') }`. */
  function ClearFrom(g: Canvas, r: nat, from: nat): Canvas {
    g.WriteRow(r, from, Spaces(ClearWidth(from)), ClearWidth(from), {})
  }

  /** Row `r` cleared over columns 0..999 and then `text` written from column 0. */
  function Rewrite(g: Canvas, r: nat, text: string): Canvas {
    ClearFrom(g, r, 0).WriteRow(r, 0, text, |text|, {})
  }

  /**
   * The downward shift loop, `for r in (lo..=lines.len()).rev()`, once the
   * rows from `lines.len()` down to `r` are done: each is cleared and, unless
   * it is `skip`, given the snapshot line above it.
   */
  function MovedDown(g: Canvas, lines: seq<string>, r: nat, skip: nat): Canvas
    decreases |lines| + 1 - r
  {
    if r > |lines| then g
    else
      var h := MovedDown(g, lines, r + 1, skip);
      if r == skip then ClearFrom(h, r, 0) else Rewrite(h, r, Previous(lines, r))
  }

  /**
   * The upward shift loop, `for r in lo..lines.len()`, once the rows before
   * `r` are done: each is cleared and given the snapshot line below it.
   */
  function MovedUp(g: Canvas, lines: seq<string>, lo: nat, r: nat): Canvas
    decreases r
  {
    if r <= lo then g else Rewrite(MovedUp(g, lines, lo, r - 1), r - 1, Following(lines, r - 1))
  }

  lemma ClearValid(g: Canvas, r: nat)
    requires g.Valid()
    ensures ClearFrom(g, r, 0).Valid()
  {
    WriteRowValid(g, r, 0, Spaces(ClearWidth(0)), ClearWidth(0), {});
  }

  lemma RewriteValid(g: Canvas, r: nat, text: string)
    requires g.Valid()
    ensures Rewrite(g, r, text).Valid()
  {
    ClearValid(g, r);
    WriteRowValid(ClearFrom(g, r, 0), r, 0, text, |text|, {});
  }

  /** Row `k - 1` of the downward shift, after rows from `k` on are done. */
  lemma MovedDownAt(g: Canvas, lines: seq<string>, k: nat, skip: nat)
    requires 0 < k <= |lines| + 1
    ensures MovedDown(g, lines, k - 1, skip) ==
      if k - 1 == skip then ClearFrom(MovedDown(g, lines, k, skip), k - 1, 0)
      else Rewrite(MovedDown(g, lines, k, skip), k - 1, Previous(lines, k - 1))
  {
  }

  /** One more row of the downward shift keeps the chunk map well formed. */
  lemma MovedDownStepValid(g: Canvas, lines: seq<string>, r: nat, skip: nat)
    requires r <= |lines| && MovedDown(g, lines, r + 1, skip).Valid()
    ensures MovedDown(g, lines, r, skip).Valid()
  {
    var h := MovedDown(g, lines, r + 1, skip);
    if r == skip {
      ClearValid(h, r);
    } else {
      RewriteValid(h, r, Previous(lines, r));
    }
  }

  /** The downward shift keeps the chunk map well formed. */
  lemma {:induction false} MovedDownValid(g: Canvas, lines: seq<string>, r: nat, skip: nat)
    requires g.Valid()
    ensures MovedDown(g, lines, r, skip).Valid()
    decreases |lines| + 1 - r
  {
    if r <= |lines| {
      MovedDownValid(g, lines, r + 1, skip);
      MovedDownStepValid(g, lines, r, skip);
    }
  }

  /** One more row of the upward shift keeps the chunk map well formed. */
  lemma MovedUpStepValid(g: Canvas, lines: seq<string>, lo: nat, r: nat)
    requires lo < r && MovedUp(g, lines, lo, r - 1).Valid()
    ensures MovedUp(g, lines, lo, r).Valid()
  {
    RewriteValid(MovedUp(g, lines, lo, r - 1), r - 1, Following(lines, r - 1));
  }

  /** The upward shift keeps the chunk map well formed. */
  lemma {:induction false} MovedUpValid(g: Canvas, lines: seq<string>, lo: nat, r: nat)
    requires g.Valid()
    ensures MovedUp(g, lines, lo, r).Valid()
    decreases r
  {
    if r > lo {
      MovedUpValid(g, lines, lo, r - 1);
      MovedUpStepValid(g, lines, lo, r);
    }
  }

  /** A cell of a rewritten row: the text's char, else a space below column 1000, else as before. */
  function RewrittenCell(text: string, c: nat, before: char): char {
    if c < |text| then ReadBack(text[c]) else if c < REWRITE_WIDTH then ' ' else before
  }

  /** `execute_insert_newline` over the snapshot `lines`. */
  function NewlineInserted(g: Canvas, lines: seq<string>, row: nat, col: nat, text: string): Canvas {
    ClearFrom(MovedDown(g, lines, row + 1, row + 1), row, col).WriteRow(row + 1, 0, text, |text|, {})
  }

  /** `undo_insert_newline` over the snapshot `lines`. */
  function NewlineRemoved(g: Canvas, lines: seq<string>, row: nat, col: nat, text: string): Canvas {
    MovedUp(ClearFrom(g, row + 1, 0).WriteRow(row, col, text, |text|, {}), lines, row + 1, |lines|)
  }

  /** `execute_delete_line` over the snapshot `lines`. */
  function LineDeleted(g: Canvas, lines: seq<string>, row: nat, deleted: string, prevLen: nat): Canvas
    requires row > 0 || deleted == []
  {
    var h := if deleted == [] then g else g.WriteRow(row - 1, prevLen, deleted, |deleted|, {});
    MovedUp(h, lines, row, |lines|)
  }

  /** `undo_delete_line` over the snapshot `lines`. */
  function LineRestored(g: Canvas, lines: seq<string>, row: nat, deleted: string, prevLen: nat): Canvas
    requires row > 0 || prevLen >= REWRITE_WIDTH
  {
    var h := MovedDown(g, lines, row, row).WriteRow(row, 0, deleted, |deleted|, {});
    if prevLen >= REWRITE_WIDTH then h else ClearFrom(h, row - 1, prevLen)
  }

  /** `undo_paste_block`. */
  function PasteRemoved(g: Canvas, row: nat, col: nat, lines: seq<string>, replaced: seq<string>): Canvas {
    g.WriteRows(row, col, ByteBlanks(lines), |lines|, {}).WriteRows(row, col, replaced, |replaced|, {})
  }

  // ---------------------------------------------------------------------
  // The row rewrites on the grid object

  /** `for c in from..1000 { grid.set(r, c, ' ') }`: the same `set` calls in the same order. */
  method ClearColumns(grid: ChunkedGrid, r: nat, from: nat)
    modifies grid`chunks, grid`minChunk, grid`maxChunk
    ensures grid.State() == ClearFrom(old(grid.State()), r, from)
    ensures old(grid.Valid()) ==> grid.Valid()
  {
    grid.WriteLine(r, from, Spaces(ClearWidth(from)), {});
  }

  /** The downward shift loop over rows `lines.len()` down to `lo`. */
  method MoveRowsDown(grid: ChunkedGrid, lines: seq<string>, lo: nat, skip: nat)
    modifies grid`chunks, grid`minChunk, grid`maxChunk
    ensures grid.State() == MovedDown(old(grid.State()), lines, lo, skip)
    ensures old(grid.Valid()) ==> grid.Valid()
  {
    ghost var g0 := grid.State();
    var k := if lo > |lines| then lo else |lines| + 1;
    while k > lo
      invariant lo <= k && (k <= |lines| + 1 || k == lo)
      invariant grid.State() == MovedDown(g0, lines, k, skip)
      decreases k
    {
      ShiftRowDown(grid, g0, lines, k, skip);
      k := k - 1;
    }
    if g0.Valid() {
      MovedDownValid(g0, lines, k, skip);
    }
  }

  /** One step of the downward shift: row `k - 1` of `MovedDown`. */
  method ShiftRowDown(grid: ChunkedGrid, ghost g0: Canvas, lines: seq<string>, k: nat, skip: nat)
    requires 0 < k <= |lines| + 1 && grid.State() == MovedDown(g0, lines, k, skip)
    modifies grid`chunks, grid`minChunk, grid`maxChunk
    ensures grid.State() == MovedDown(g0, lines, k - 1, skip)
  {
    MovedDownAt(g0, lines, k, skip);
    if k - 1 == skip {
      ClearColumns(grid, k - 1, 0);
    } else {
      RewriteRow(grid, k - 1, Previous(lines, k - 1));
    }
  }

  /** One row of a shift loop: columns 0..999 cleared, then `text` written from column 0. */
  method RewriteRow(grid: ChunkedGrid, r: nat, text: string)
    modifies grid`chunks, grid`minChunk, grid`maxChunk
    ensures grid.State() == Rewrite(old(grid.State()), r, text)
    ensures old(grid.Valid()) ==> grid.Valid()
  {
    ClearColumns(grid, r, 0);
    grid.WriteLine(r, 0, text, {});
  }

  /** The upward shift loop over rows `lo` to `lines.len() - 1`. */
  method MoveRowsUp(grid: ChunkedGrid, lines: seq<string>, lo: nat)
    modifies grid`chunks, grid`minChunk, grid`maxChunk
    ensures grid.State() == MovedUp(old(grid.State()), lines, lo, |lines|)
    ensures old(grid.Valid()) ==> grid.Valid()
  {
    ghost var g0 := grid.State();
    var r := lo;
    while r < |lines|
      invariant lo <= r && (r <= |lines| || r == lo)
      invariant grid.State() == MovedUp(g0, lines, lo, r)
    {
      ShiftRowUp(grid, g0, lines, lo, r);
      r := r + 1;
    }
    if g0.Valid() {
      MovedUpValid(g0, lines, lo, r);
    }
  }

  /** One step of the upward shift: row `r` of `MovedUp`. */
  method ShiftRowUp(grid: ChunkedGrid, ghost g0: Canvas, lines: seq<string>, lo: nat, r: nat)
    requires lo <= r && grid.State() == MovedUp(g0, lines, lo, r)
    modifies grid`chunks, grid`minChunk, grid`maxChunk
    ensures grid.State() == MovedUp(g0, lines, lo, r + 1)
  {
    RewriteRow(grid, r, Following(lines, r));
  }

  /** `execute_insert_newline`. */
  method ExecuteInsertNewline(grid: ChunkedGrid, row: nat, col: nat, text: string)
    requires grid.Valid()
    modifies grid`chunks, grid`minChunk, grid`maxChunk
    ensures grid.Valid() && grid.State() == NewlineInserted(old(grid.State()), old(grid.State()).Export(), row, col, text)
  {
    var lines := grid.ToLines();
    MoveRowsDown(grid, lines, row + 1, row + 1);
    ClearColumns(grid, row, col);
    grid.WriteLine(row + 1, 0, text, {});
  }

  /** `undo_insert_newline`. */
  method UndoInsertNewline(grid: ChunkedGrid, row: nat, col: nat, text: string)
    requires grid.Valid()
    modifies grid`chunks, grid`minChunk, grid`maxChunk
    ensures grid.Valid() && grid.State() == NewlineRemoved(old(grid.State()), old(grid.State()).Export(), row, col, text)
  {
    var lines := grid.ToLines();
    ClearColumns(grid, row + 1, 0);
    grid.WriteLine(row, col, text, {});
    MoveRowsUp(grid, lines, row + 1);
  }

  /** `execute_delete_line`; the append loop evaluates `row - 1` only when it has a char to write. */
  method ExecuteDeleteLine(grid: ChunkedGrid, row: nat, deleted: string, prevLen: nat)
    requires grid.Valid() && (row > 0 || deleted == [])
    modifies grid`chunks, grid`minChunk, grid`maxChunk
    ensures grid.Valid() && grid.State() == LineDeleted(old(grid.State()), old(grid.State()).Export(), row, deleted, prevLen)
  {
    var lines := grid.ToLines();
    RemoveLine(grid, lines, row, deleted, prevLen);
  }

  /** `execute_delete_line` after its `to_lines` snapshot. */
  method RemoveLine(grid: ChunkedGrid, lines: seq<string>, row: nat, deleted: string, prevLen: nat)
    requires row > 0 || deleted == []
    modifies grid`chunks, grid`minChunk, grid`maxChunk
    ensures grid.State() == LineDeleted(old(grid.State()), lines, row, deleted, prevLen)
    ensures old(grid.Valid()) ==> grid.Valid()
  {
    if deleted != [] {
      grid.WriteLine(row - 1, prevLen, deleted, {});
    }
    MoveRowsUp(grid, lines, row);
  }

  /** `undo_delete_line`; the final clearing loop evaluates `row - 1` only below column 1000. */
  method UndoDeleteLine(grid: ChunkedGrid, row: nat, deleted: string, prevLen: nat)
    requires grid.Valid() && (row > 0 || prevLen >= REWRITE_WIDTH)
    modifies grid`chunks, grid`minChunk, grid`maxChunk
    ensures grid.Valid() && grid.State() == LineRestored(old(grid.State()), old(grid.State()).Export(), row, deleted, prevLen)
  {
    var lines := grid.ToLines();
    RestoreLine(grid, lines, row, deleted, prevLen);
  }

  /** `undo_delete_line` after its `to_lines` snapshot. */
  method RestoreLine(grid: ChunkedGrid, lines: seq<string>, row: nat, deleted: string, prevLen: nat)
    requires row > 0 || prevLen >= REWRITE_WIDTH
    modifies grid`chunks, grid`minChunk, grid`maxChunk
    ensures grid.State() == LineRestored(old(grid.State()), lines, row, deleted, prevLen)
    ensures old(grid.Valid()) ==> grid.Valid()
  {
    MoveRowsDown(grid, lines, row, row);
    grid.WriteLine(row, 0, deleted, {});
    if prevLen < REWRITE_WIDTH {
      ClearColumns(grid, row - 1, prevLen);
    }
  }

  /** `undo_paste_block`: each pasted line's byte length cleared, then the replaced rows written back. */
  method UndoPasteBlock(grid: ChunkedGrid, row: nat, col: nat, lines: seq<string>, replaced: seq<string>)
    requires grid.Valid()
    modifies grid`chunks, grid`minChunk, grid`maxChunk
    ensures grid.Valid() && grid.State() == PasteRemoved(old(grid.State()), row, col, lines, replaced)
  {
    grid.WriteLines(row, col, ByteBlanks(lines), {});
    grid.WriteLines(row, col, replaced, {});
  }

  // ---------------------------------------------------------------------
  // What the rewrites do to each cell

  /** Clearing from `from` blanks exactly the columns from..999 of the row. */
  lemma ClearFromCell(g: Canvas, r: nat, from: nat, r': nat, c': nat)
    ensures ClearFrom(g, r, from).Get(r', c') == if r' == r && from <= c' < REWRITE_WIDTH then ' ' else g.Get(r', c')
  {
    WriteRowCell(g, r, from, Spaces(ClearWidth(from)), ClearWidth(from), {}, r', c');
  }

  /** A rewritten row holds the text, then spaces up to column 999; past that and elsewhere nothing changes. */
  lemma RewriteCell(g: Canvas, r: nat, text: string, r': nat, c': nat)
    ensures Rewrite(g, r, text).Get(r', c') == if r' == r then RewrittenCell(text, c', g.Get(r', c')) else g.Get(r', c')
  {
    ClearFromCell(g, r, 0, r', c');
    WriteRowCell(ClearFrom(g, r, 0), r, 0, text, |text|, {}, r', c');
  }

  /**
   * After the downward shift from `r`, each row from `r` to `lines.len()`
   * holds the snapshot line above it (row `skip` nothing) and every other
   * row is as it was.
   */
  lemma {:induction false} MovedDownCell(g: Canvas, lines: seq<string>, r: nat, skip: nat, r': nat, c': nat)
    ensures MovedDown(g, lines, r, skip).Get(r', c') ==
      if r <= r' <= |lines| then RewrittenCell(if r' == skip then "" else Previous(lines, r'), c', g.Get(r', c'))
      else g.Get(r', c')
    decreases |lines| + 1 - r
  {
    if r <= |lines| {
      MovedDownCell(g, lines, r + 1, skip, r', c');
      MovedDownCellStep(g, lines, r, skip, r', c');
    }
  }

  /** Row `r` of the downward shift, cell by cell, over the rows already shifted. */
  lemma MovedDownCellStep(g: Canvas, lines: seq<string>, r: nat, skip: nat, r': nat, c': nat)
    requires r <= |lines|
    ensures MovedDown(g, lines, r, skip).Get(r', c') ==
      var h := MovedDown(g, lines, r + 1, skip);
      if r' == r then RewrittenCell(if r == skip then "" else Previous(lines, r), c', h.Get(r', c')) else h.Get(r', c')
  {
    var h := MovedDown(g, lines, r + 1, skip);
    if r == skip {
      ClearFromCell(h, r, 0, r', c');
    } else {
      RewriteCell(h, r, Previous(lines, r), r', c');
    }
  }

  /**
   * After the upward shift over rows `lo` to `r - 1`, each of them holds the
   * snapshot line below it and every other row is as it was.
   */
  lemma {:induction false} MovedUpCell(g: Canvas, lines: seq<string>, lo: nat, r: nat, r': nat, c': nat)
    ensures MovedUp(g, lines, lo, r).Get(r', c') ==
      if lo <= r' < r then RewrittenCell(Following(lines, r'), c', g.Get(r', c')) else g.Get(r', c')
    decreases r
  {
    if r > lo {
      MovedUpCell(g, lines, lo, r - 1, r', c');
      MovedUpCellStep(g, lines, lo, r, r', c');
    }
  }

  /** Row `r - 1` of the upward shift, cell by cell, over the rows already shifted. */
  lemma MovedUpCellStep(g: Canvas, lines: seq<string>, lo: nat, r: nat, r': nat, c': nat)
    requires lo < r
    ensures MovedUp(g, lines, lo, r).Get(r', c') ==
      var h := MovedUp(g, lines, lo, r - 1);
      if r' == r - 1 then RewrittenCell(Following(lines, r - 1), c', h.Get(r', c')) else h.Get(r', c')
  {
    RewriteCell(MovedUp(g, lines, lo, r - 1), r - 1, Following(lines, r - 1), r', c');
  }

  /**
   * `execute` of InsertNewLine, cell by cell, against the `to_lines`
   * snapshot: the cursor row loses its columns col..999, the next row gets
   * the text after the cursor, and each row below gets the snapshot line
   * above it; columns from 1000 on keep whatever they held.
   */
  lemma InsertNewlineCell(g: Canvas, lines: seq<string>, row: nat, col: nat, text: string, r: nat, c: nat)
    ensures NewlineInserted(g, lines, row, col, text).Get(r, c) ==
      if r == row then (if col <= c < REWRITE_WIDTH then ' ' else g.Get(r, c))
      else if r == row + 1 then
        (if c < |text| then ReadBack(text[c]) else if r <= |lines| && c < REWRITE_WIDTH then ' ' else g.Get(r, c))
      else if row + 1 < r <= |lines| then RewrittenCell(lines[r - 1], c, g.Get(r, c))
      else g.Get(r, c)
  {
    var h := MovedDown(g, lines, row + 1, row + 1);
    MovedDownCell(g, lines, row + 1, row + 1, r, c);
    var h' := ClearFrom(h, row, col);
    ClearFromCell(h, row, col, r, c);
    WriteRowCell(h', row + 1, 0, text, |text|, {}, r, c);
  }

  /**
   * `undo` of InsertNewLine, cell by cell, against the `to_lines` snapshot:
   * the text goes back from column `col` of the cursor row and each row
   * from the next on gets the snapshot line below it.
   */
  lemma UndoInsertNewlineCell(g: Canvas, lines: seq<string>, row: nat, col: nat, text: string, r: nat, c: nat)
    ensures NewlineRemoved(g, lines, row, col, text).Get(r, c) ==
      if row + 1 <= r < |lines| then RewrittenCell(Following(lines, r), c, g.Get(r, c))
      else if r == row + 1 then (if c < REWRITE_WIDTH then ' ' else g.Get(r, c))
      else if r == row && col <= c < col + |text| then ReadBack(text[c - col])
      else g.Get(r, c)
  {
    var h0 := ClearFrom(g, row + 1, 0);
    var h := h0.WriteRow(row, col, text, |text|, {});
    ClearFromCell(g, row + 1, 0, r, c);
    WriteRowCell(h0, row, col, text, |text|, {}, r, c);
    MovedUpCell(h, lines, row + 1, |lines|, r, c);
    if r == row + 1 {
      assert h.Get(r, c) == h0.Get(r, c);
      if c < REWRITE_WIDTH {
        assert RewrittenCell(Following(lines, r), c, h.Get(r, c)) == RewrittenCell(Following(lines, r), c, g.Get(r, c));
      }
    }
  }

  /**
   * `execute` of DeleteLine, cell by cell: the deleted line is appended at
   * column `prevLen` of the row above, and each row from `row` on gets the
   * snapshot line below it.
   */
  lemma DeleteLineCell(g: Canvas, lines: seq<string>, row: nat, deleted: string, prevLen: nat, r: nat, c: nat)
    requires row > 0 || deleted == []
    ensures LineDeleted(g, lines, row, deleted, prevLen).Get(r, c) ==
      if row <= r < |lines| then RewrittenCell(Following(lines, r), c, g.Get(r, c))
      else if r + 1 == row && prevLen <= c < prevLen + |deleted| then ReadBack(deleted[c - prevLen])
      else g.Get(r, c)
  {
    if deleted == [] {
      MovedUpCell(g, lines, row, |lines|, r, c);
    } else {
      var h := g.WriteRow(row - 1, prevLen, deleted, |deleted|, {});
      WriteRowCell(g, row - 1, prevLen, deleted, |deleted|, {}, r, c);
      MovedUpCell(h, lines, row, |lines|, r, c);
    }
  }

  /**
   * `undo` of DeleteLine, cell by cell: each row below `row` gets the
   * snapshot line above it, the deleted line is written back at `row`, and
   * the row above loses its columns prevLen..999.
   */
  lemma UndoDeleteLineCell(g: Canvas, lines: seq<string>, row: nat, deleted: string, prevLen: nat, r: nat, c: nat)
    requires row > 0 || prevLen >= REWRITE_WIDTH
    ensures LineRestored(g, lines, row, deleted, prevLen).Get(r, c) ==
      if r == row then (if c < |deleted| then ReadBack(deleted[c]) else if r <= |lines| && c < REWRITE_WIDTH then ' ' else g.Get(r, c))
      else if row < r <= |lines| then RewrittenCell(lines[r - 1], c, g.Get(r, c))
      else if r + 1 == row && prevLen <= c < REWRITE_WIDTH then ' '
      else g.Get(r, c)
  {
    var h0 := MovedDown(g, lines, row, row);
    var h := h0.WriteRow(row, 0, deleted, |deleted|, {});
    var shifted := if row <= r <= |lines| then RewrittenCell(if r == row then "" else Previous(lines, r), c, g.Get(r, c)) else g.Get(r, c);
    assert h0.Get(r, c) == shifted by {
      MovedDownCell(g, lines, row, row, r, c);
    }
    assert h.Get(r, c) == RowWritten(row, 0, deleted, |deleted|, {}, r, c, shifted) by {
      WriteRowCell(h0, row, 0, deleted, |deleted|, {}, r, c);
    }
    if prevLen < REWRITE_WIDTH {
      ClearFromCell(h, row - 1, prevLen, r, c);
    }
  }

  /**
   * `undo` of PasteBlock, cell by cell: line i of the replaced content goes
   * back at (row + i, col); failing that, the cells over the byte length of
   * pasted line i are blanked; the rest is as it was.
   */
  lemma UndoPasteCell(g: Canvas, row: nat, col: nat, lines: seq<string>, replaced: seq<string>, r: nat, c: nat)
    ensures PasteRemoved(g, row, col, lines, replaced).Get(r, c) ==
      RowsWritten(row, col, replaced, |replaced|, {}, r, c,
        RowsWritten(row, col, ByteBlanks(lines), |lines|, {}, r, c, g.Get(r, c)))
  {
    var blanks := ByteBlanks(lines);
    WriteRowsCell(g, row, col, blanks, |lines|, {}, r, c);
    WriteRowsCell(g.WriteRows(row, col, blanks, |lines|, {}), row, col, replaced, |replaced|, {}, r, c);
  }

  /** The cells `replaced` holds the grid's cells under where `lines` is pasted. */
  ghost predicate Captures(g: Canvas, row: nat, col: nat, lines: seq<string>, replaced: seq<string>) {
    |replaced| == |lines| &&
    forall i :: 0 <= i < |lines| ==> replaced[i] == g.Row(row + i, col, |lines[i]|)
  }

  /**
   * Pasting a block and undoing the paste restores every cell, provided the
   * replaced content captured the cells under the block and the pasted lines
   * are ASCII (the clearing loop goes by byte length).
   */
  lemma PasteThenUndoRestores(g: Canvas, row: nat, col: nat, lines: seq<string>, replaced: seq<string>, r: nat, c: nat)
    requires g.Valid() && Captures(g, row, col, lines, replaced)
    requires forall i :: 0 <= i < |lines| ==> ByteLen(lines[i]) == |lines[i]|
    ensures PasteRemoved(g.WriteRows(row, col, lines, |lines|, {}), row, col, lines, replaced).Get(r, c) == g.Get(r, c)
  {
    var p := g.WriteRows(row, col, lines, |lines|, {});
    UndoPasteCell(p, row, col, lines, replaced, r, c);
    WriteRowsCell(g, row, col, lines, |lines|, {}, r, c);
    UndoOverPasteCell(g, row, col, lines, replaced, r, c);
  }

  /** The cell-level half of `PasteThenUndoRestores`. */
  lemma UndoOverPasteCell(g: Canvas, row: nat, col: nat, lines: seq<string>, replaced: seq<string>, r: nat, c: nat)
    requires g.Valid() && Captures(g, row, col, lines, replaced)
    requires forall i :: 0 <= i < |lines| ==> ByteLen(lines[i]) == |lines[i]|
    ensures var pasted := RowsWritten(row, col, lines, |lines|, {}, r, c, g.Get(r, c));
      var blanked := RowsWritten(row, col, ByteBlanks(lines), |lines|, {}, r, c, pasted);
      RowsWritten(row, col, replaced, |replaced|, {}, r, c, blanked) == g.Get(r, c)
  {
    if row <= r < row + |lines| {
      var i := r - row;
      assert |ByteBlanks(lines)[i]| == |lines[i]| == |replaced[i]|;
      if col <= c < col + |lines[i]| {
        assert replaced[i] == g.Row(r, col, |lines[i]|);
        assert replaced[i][c - col] == g.Get(r, c);
        GetIsStored(g, r, c);
      }
    }
  }

  /** The same through the commands: `undo` after `execute` of a captured ASCII paste gives every cell back. */
  lemma PasteCommandRoundTrip(g: Canvas, row: nat, col: nat, lines: seq<string>, replaced: seq<string>, r: nat, c: nat)
    requires g.Valid() && Captures(g, row, col, lines, replaced)
    requires forall i :: 0 <= i < |lines| ==> ByteLen(lines[i]) == |lines[i]|
    ensures var cmd := PasteBlock(row, col, lines, replaced);
      cmd.Executed(g).Valid() && cmd.Undone(cmd.Executed(g)).Get(r, c) == g.Get(r, c)
  {
    WriteRowsValid(g, row, col, lines, |lines|, {});
    PasteThenUndoRestores(g, row, col, lines, replaced, r, c);
  }

  /**
   * With a non-ASCII line the byte-length clearing reaches past the pasted
   * chars: undoing a paste of "é" at (0, 0) over an empty grid leaves (0, 1)
   * blank even where something was written there after the paste.
   */
  lemma ByteLengthClearsPastLine(g: Canvas)
    requires g.Valid()
    ensures PasteRemoved(g, 0, 0, ["é"], [" "]).Get(0, 1) == ' '
  {
    var lines := ["é"];
    assert Utf8Len('é') == 2;
    assert ByteLen(lines[0]) == 2 by {
      assert lines[0][1..] == [];
    }
    UndoPasteCell(g, 0, 0, lines, [" "], 0, 1);
  }

  // ---------------------------------------------------------------------
  // The stacks

  /** The contents of the two stacks, oldest command first. */
  datatype Stacks = Stacks(undo: seq<Command>, redo: seq<Command>) {
    /** `push`: the redo stack cleared, the command on top, the oldest dropped past `maxSize`. */
    function Push(c: Command, maxSize: nat): Stacks {
      var u := undo + [c];
      Stacks(if |u| > maxSize then u[1..] else u, [])
    }

    /** `undo`'s bookkeeping: the top command moves to the redo stack. */
    function Undo(): Stacks {
      if undo == [] then this else Stacks(undo[..|undo| - 1], redo + [undo[|undo| - 1]])
    }

    /** `redo`'s bookkeeping: the top of the redo stack moves back. */
    function Redo(): Stacks {
      if redo == [] then this else Stacks(undo + [redo[|redo| - 1]], redo[..|redo| - 1])
    }

    /** `can_undo`. */
    predicate CanUndo() { undo != [] }

    /** `can_redo`. */
    predicate CanRedo() { redo != [] }
  }

  /**
   * Push clears the redo stack and puts the command on top; when the stack
   * was full its oldest command is the one dropped, and it never grows past
   * `maxSize`.
   */
  lemma PushSpec(s: Stacks, c: Command, maxSize: nat)
    requires |s.undo| <= maxSize
    ensures var t := s.Push(c, maxSize);
      && t.redo == [] && |t.undo| <= maxSize
      && (maxSize > 0 ==> t.undo[|t.undo| - 1] == c && t.CanUndo())
      && (|s.undo| < maxSize ==> t.undo == s.undo + [c])
      && (0 < |s.undo| == maxSize ==> t.undo == s.undo[1..] + [c])
  {
    var u := s.undo + [c];
    if |u| > maxSize && |s.undo| > 0 {
      assert u[1..] == s.undo[1..] + [c];
    }
  }

  /** Undo and redo each move the top command exactly when its stack is not empty. */
  lemma CanUndoIffMoves(s: Stacks)
    ensures s.CanUndo() <==> s.Undo() != s
    ensures s.CanRedo() <==> s.Redo() != s
  {
    if s.CanUndo() {
      assert |s.Undo().undo| < |s.undo|;
    }
    if s.CanRedo() {
      assert |s.Redo().redo| < |s.redo|;
    }
  }

  /** Redo after undo, and undo after redo, give both stacks back. */
  lemma UndoRedoRoundTrip(s: Stacks)
    ensures s.CanUndo() ==> s.Undo().Redo() == s
    ensures s.CanRedo() ==> s.Redo().Undo() == s
  {
    if s.CanUndo() {
      assert s.undo[..|s.undo| - 1] + [s.undo[|s.undo| - 1]] == s.undo;
    }
    if s.CanRedo() {
      assert s.redo[..|s.redo| - 1] + [s.redo[|s.redo| - 1]] == s.redo;
    }
  }

  /** Undo and redo move commands between the stacks and so keep their total. */
  lemma MovesKeepTotal(s: Stacks)
    ensures |s.Undo().undo| + |s.Undo().redo| == |s.undo| + |s.redo|
    ensures |s.Redo().undo| + |s.Redo().redo| == |s.undo| + |s.redo|
  {
  }

  class UndoStack {
    var undoStack: seq<Command>
    var redoStack: seq<Command>
    const maxSize: nat

    function Contents(): Stacks
      reads this
    {
      Stacks(undoStack, redoStack)
    }

    /** The two stacks together never hold more than `maxSize` commands. */
    ghost predicate Valid()
      reads this
    {
      |undoStack| + |redoStack| <= maxSize
    }

    /** `UndoStack::new`. */
    constructor (maxSize: nat)
      ensures Valid() && undoStack == [] && redoStack == [] && this.maxSize == maxSize
    {
      undoStack := [];
      redoStack := [];
      this.maxSize := maxSize;
    }

    /** `push`. */
    method Push(command: Command)
      requires Valid()
      modifies this
      ensures Valid() && Contents() == old(Contents()).Push(command, maxSize)
    {
      redoStack := [];
      undoStack := undoStack + [command];
      if |undoStack| > maxSize {
        undoStack := undoStack[1..];
      }
    }

    /** `undo`: the top command taken back on the grid and moved to the redo stack. */
    method Undo(grid: ChunkedGrid) returns (done: bool)
      requires Valid() && grid.Valid()
      requires undoStack != [] ==> undoStack[|undoStack| - 1].CanUndo()
      modifies this, grid`chunks, grid`minChunk, grid`maxChunk
      ensures Valid() && grid.Valid()
      ensures done == old(Contents()).CanUndo() && Contents() == old(Contents()).Undo()
      ensures grid.State() == if done then old(undoStack[|undoStack| - 1]).Undone(old(grid.State())) else old(grid.State())
    {
      if undoStack == [] {
        return false;
      }
      var command := undoStack[|undoStack| - 1];
      undoStack := undoStack[..|undoStack| - 1];
      command.Undo(grid);
      redoStack := redoStack + [command];
      return true;
    }

    /** `redo`: the top of the redo stack executed on the grid and moved back. */
    method Redo(grid: ChunkedGrid) returns (done: bool)
      requires Valid() && grid.Valid()
      requires redoStack != [] ==> redoStack[|redoStack| - 1].CanExecute()
      modifies this, grid`chunks, grid`minChunk, grid`maxChunk
      ensures Valid() && grid.Valid()
      ensures done == old(Contents()).CanRedo() && Contents() == old(Contents()).Redo()
      ensures grid.State() == if done then old(redoStack[|redoStack| - 1]).Executed(old(grid.State())) else old(grid.State())
    {
      if redoStack == [] {
        return false;
      }
      var command := redoStack[|redoStack| - 1];
      redoStack := redoStack[..|redoStack| - 1];
      command.Execute(grid);
      undoStack := undoStack + [command];
      return true;
    }

    /** `can_undo`. */
    function CanUndo(): bool
      reads this
    {
      Contents().CanUndo()
    }

    /** `can_redo`. */
    function CanRedo(): bool
      reads this
    {
      Contents().CanRedo()
    }

    /** `clear`. */
    method Clear()
      modifies this
      ensures Valid() && undoStack == [] && redoStack == []
    {
      undoStack := [];
      redoStack := [];
    }
  }
}
