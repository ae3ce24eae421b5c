# chonk-note core, modelled in Dafny

chonk-note is a terminal note editor. Its canvas is an infinite character
grid, stored sparsely in 32x32 chunks. On that grid you edit with
rectangular block selections and undo. This project models the sequential
core of the program and proves properties about the model:

- **Grid and selections.** The chunked sparse grid (`Chunked`) and the
  block selection of the rope editor (`Selection`).
- **Undo.** The undo/redo stack and its row-rewriting commands (`Undo`).
- **Rope editor.** The rope-backed virtual grid (`Rope`, `Virtual`) and
  the grid cursor (`Cursor`).
- **Edit handlers.** The main editor's editing arms over the chunked grid
  (`Keyboard`), and the overwrite-mode editor of the notes panes
  (`DualPane`).
- **Screen coordinates.** The click pipeline (`Coordinates`), the click
  and scroll validator (`Validator`), the viewport and scrollbar hit-tests
  (`Viewports`), and the renderer's scroll clamps (`Renderer`).
- **Terminal input.** Key decoding and xterm SGR mouse-report decoding
  (`Kitty`), and the ANSI/control-character filter (`TextFilter`).
- **Laying text on a grid.** `Placement` holds the shared placement rules.
  It is used by the PDF extractors (`ContentExtractor`, `Ferrules`,
  `PdfiumExtractor`), by the matrix serialiser (`TextMatrix`) and by the
  three table extractors' Markdown and boxed-grid renderers
  (`TableExtractor`, `TableExtractorV2`, `TableExtractorV3`).
- **Smaller pieces.**
  - The chunker, the attention mask and the tensor cache (`TensorUtils`).
  - The macOS text services (`MacosServices`).

State that the program updates in place is modelled as classes:

- `ChunkedGrid`, `UndoStack`, `VirtualGrid`, `GridCursor`, `Viewport`,
  `TextRenderer`, `CoordinateValidator` and `MemoryManager`;
- the editors (`Keyboard.Editor`, `DualPane.Pane`);
- the character grids as `array2<char>`.

Each method is proved against a specification function over values, and
the lemmas are proved about those functions.

Rust's fixed-width integers are written out where their width matters
(`Ints`: `u16`, `usize`, `i32` casts, wrapping and saturating arithmetic).

Where the code and its own unit tests disagree, the model follows the code:

- `to_lines` moves the content to the origin (`Chunked.ExportImportTranslates`),
  provided no stored character is whitespace. A stored '\t' is dropped by
  `trim_end` and does not come back.
- `strip_ansi_codes` drops only the character after an ESC
  (`TextFilter.StripExampleColours`).

## Model

| member | source | states |
|---|---|---|
| Selection.BlockSelection.constructor | src/block_selection.rs:23-31 | a new selection is an empty drag: both corners and the cursor at (line, col), both visual columns equal to col |
| Selection.BlockSelection.ExtendTo | src/block_selection.rs:33-38 | only the dragged corner, the cursor and its visual column move; the anchor corner and the anchor's visual column stay |
| Selection.BlockSelection.Normalized | src/block_selection.rs:48-61 | the corners come out ordered on both axes and are the drag's own lines and columns, whichever way it went |
| Selection.BlockSelection.IterLines | src/block_selection.rs:41-46 | one entry per line from the top corner's line to the bottom one, consecutive, each spanning the normalised columns |
| Selection.BlockSelection.Contains | src/block_selection.rs:63-67 | a cell is inside exactly when its line and its column each lie between the two corners, in either order |
| Selection.ContainsIffIterLines | src/block_selection.rs:41-67 | `contains` and `iter_lines` agree: a cell is contained exactly when one of the iterated lines is its line and covers its column |
| Chunked.ReadBack | src/chunked_grid.rs:23-33 | a cell written with ' ', '\n' or '\r' reads back as ' ' and any other char reads back as itself |
| Chunked.SetKeepsWellFormed | src/chunked_grid.rs:23-29 | `Chunk::set` inside the 32x32 chunk never stores a blank and keeps every local position in range |
| Chunked.ValidRemove | src/chunked_grid.rs:133-136 | dropping an emptied chunk keeps the chunk-map invariant with the same tracked chunk bounds |
| Chunked.ValidPut | src/chunked_grid.rs:137-142 | storing a well-formed chunk and widening min_chunk/max_chunk to its key keeps the chunk-map invariant |
| Chunked.PosToChunkAsWrittenAliases | src/chunked_grid.rs:110-116 | with the `as i32` cast, row 2^37 lands in the same chunk and local cell as row 0 |
| Chunked.PosToChunk | src/chunked_grid.rs:110-116 | the local offsets of a position are both below the chunk size 32 |
| Chunked.ChunkIndex | src/chunked_grid.rs:111-112 | the chunk index of x is the q with 32q <= x < 32q + 32 |
| Chunked.ChunkIndexIsDiv | src/chunked_grid.rs:111-114 | the chunk index is floor division by 32 and the local offset the remainder |
| Chunked.PosToChunkRoundTrip | src/chunked_grid.rs:110-123 | `chunk_to_pos(pos_to_chunk(p)) == p` for every position |
| Chunked.ChunkToPosRoundTrip | src/chunked_grid.rs:110-123 | every in-chunk (chunk, local) pair comes back unchanged through `chunk_to_pos` then `pos_to_chunk` |
| Chunked.PosToChunkAgrees | src/chunked_grid.rs:110-116 | below 32 * 2^31 on both axes the `i32` cast is harmless: the as-written and the corrected forms agree |
| Chunked.PosToChunkInjective | src/chunked_grid.rs:110-116 | distinct grid positions map to distinct (chunk, local) cells, so no two positions share storage |
| Chunked.BlockSelection.New | src/chunked_grid.rs:55-62 | a new selection's bounds are the single cell (row, col) and it contains that cell and no other |
| Chunked.BlockSelection.Update | src/chunked_grid.rs:64-67 | the anchor corner stays and (row, col) becomes the other corner: the bounds are the min and max of the anchor and (row, col) on each axis, and a cell is inside exactly when it lies in that rectangle |
| Chunked.BlockSelection.Bounds | src/chunked_grid.rs:69-75 | the bounds are ordered on both axes and are the two corners' rows and columns, whichever way the drag went |
| Chunked.BlockSelection.Contains | src/chunked_grid.rs:77-80 | a cell is inside exactly when its row and column each lie between the corners, inclusive, in either order |
| Chunked.StoreCell | src/chunked_grid.rs:126-153 | read-after-write on the chunk map: the written chunk cell reads back the char (' ' for blanks) and every other chunk cell is unchanged |
| Chunked.ContentBoxExists | src/chunked_grid.rs:198-219 | when some cell is stored there is a box holding every stored cell with a stored cell on each of its four edges |
| Chunked.ContentBoxUnique | src/chunked_grid.rs:198-219 | that content box is unique, so `bounds` has one right answer |
| Chunked.ScanChunk | src/chunked_grid.rs:209-215 | the inner loop of `bounds` over one chunk: a cell was found exactly when one was found before or the chunk has cells, and the box then holds every visited cell with a visited cell on each edge |
| Chunked.Canvas.ContentBox | src/chunked_grid.rs:198-219 | for a canvas with a chunk, the box holds every stored cell and each of its edges runs through a stored cell |
| Chunked.BlockSpec | src/chunked_grid.rs:297-311 | a copied block has one line per selected row, each exactly as wide as the selection, char j of line i being cell (row + i, col + j) |
| Chunked.Blanks | src/chunked_grid.rs:317-326 | what `cut_block` writes: one line of `width` spaces per selected row |
| Chunked.LineSpec | src/chunked_grid.rs:188-195 | `get_line` keeps at most last - first + 1 cells, each equal to the grid cell below it; the last kept char is not whitespace and every dropped cell up to `last` is whitespace |
| Chunked.SetValid | src/chunked_grid.rs:126-143 | `set` keeps the grid invariant: no empty chunk stored, every chunk inside min_chunk..max_chunk |
| Chunked.SetCell | src/chunked_grid.rs:126-153 | after `set(row, col, ch)` the cell (row, col) reads back ch (' ' for a blank) and any other cell reads as before |
| Chunked.SetFrame | src/chunked_grid.rs:126-153 | `set` changes exactly one cell, for all cells at once |
| Chunked.WriteRowValid | src/chunked_grid.rs:156-163 | the `insert_at` loop keeps the grid invariant after any number of writes |
| Chunked.WriteRowCell | src/chunked_grid.rs:156-163 | after the first n writes of a row, each cell holds the last char written to it, else what it held before |
| Chunked.WriteRowFrame | src/chunked_grid.rs:156-163 | after writing all of a row, its written chars read back in place and every other cell is unchanged |
| Chunked.WriteRowsValid | src/chunked_grid.rs:333-339 | writing several rows keeps the grid invariant |
| Chunked.WriteRowsCell | src/chunked_grid.rs:333-339 | after writing n lines, char j of line i is read at (row + i, col + j) and any cell not written keeps its value |
| Chunked.WriteRowsFrame | src/chunked_grid.rs:333-339 | the same for all lines and all cells at once |
| Chunked.CutFrame | src/chunked_grid.rs:314-326 | writing the blank rows over a selection clears exactly the cells the selection contains and leaves every other cell alone |
| Chunked.GetIsStored | src/chunked_grid.rs:145-153 | a valid grid never reads back '\n' or '\r', so re-writing what `get` returned is a no-op |
| Chunked.OccupiedIsNonBlank | src/chunked_grid.rs:145-153 | a position holds a stored char exactly when it reads as something other than ' ' |
| Chunked.OutsideBoxIsBlank | src/chunked_grid.rs:198-219 | every cell outside the content box reads ' ' |
| Chunked.SomeCellStored | src/chunked_grid.rs:133-136 | because emptied chunks are dropped, a grid with a chunk stores some cell |
| Chunked.NoChunksIffEmpty | src/chunked_grid.rs:226-229 | `chunk_count` is zero exactly when the grid holds no character |
| Chunked.CutThenPasteRestores | src/chunked_grid.rs:314-339 | cutting a rectangle and pasting the copy taken before it at its top-left corner gives back every cell of the grid |
| Chunked.ImportSpec | src/chunked_grid.rs:247-259 | `from_lines` builds a valid grid whose cell (r, c) is char c of line r, and ' ' where there is none |
| Chunked.LinesTranslate | src/chunked_grid.rs:232-259 | reading the lines of a box and importing them gives back the box moved so its top-left corner is at (0, 0), when nothing whitespace is stored and the cells past the box are blank |
| Chunked.ExportImportTranslates | src/chunked_grid.rs:232-259 | for a grid that stores no whitespace char (a stored '\t' is dropped by `trim_end`), `from_lines(to_lines())` reproduces the content shifted so that its bounding box's top-left corner lands on (0, 0) |
| Chunked.ExportIsBoxLines | src/chunked_grid.rs:232-244 | a grid with content box b exports one trimmed line per row of b, taken over b's columns |
| Chunked.ExportImportEmpty | src/chunked_grid.rs:233-235 | an empty grid exports as [""], which imports as an empty grid |
| Chunked.LineHasNoBreak | src/chunked_grid.rs:188-195 | a line read from a valid grid holds neither '\n' nor '\r' |
| Chunked.LinesJoinSplit | src/chunked_grid.rs:268-271 | when the last row of the box holds a char, joining the box's lines with "\n" and splitting with `str::lines` gives them back |
| Chunked.StringRoundTrip | src/chunked_grid.rs:268-277 | for a non-empty grid that stores no whitespace char, splitting `to_string()` with `str::lines` gives back exactly `to_lines()` |
| Chunked.ChunkedGrid.constructor | src/chunked_grid.rs:100-107 | a new grid is valid, has no selection and reads ' ' everywhere |
| Chunked.ChunkedGrid.Set | src/chunked_grid.rs:126-143 | the cell reads back ch (' ' for a blank), every other cell is unchanged and the invariant is kept |
| Chunked.ChunkedGrid.InsertAt | src/chunked_grid.rs:156-163 | char i of the text lands at (row, col + i), a newline is skipped but still takes a column, every other cell is unchanged and the invariant is kept |
| Chunked.ChunkedGrid.WriteLine | src/chunked_grid.rs:157-162 | the shared write loop: the new canvas is the old one with every char of the text not in `skip` written from (row, col) in order |
| Chunked.ChunkedGrid.DeleteAt | src/chunked_grid.rs:166-168 | the cell reads ' ' afterwards, no other cell changes and the invariant is kept |
| Chunked.ChunkedGrid.GetVisibleChunks | src/chunked_grid.rs:171-185 | exactly the live chunks between the chunks of the viewport's two corners, listed in strictly increasing row-major order |
| Chunked.ChunkedGrid.GetLine | src/chunked_grid.rs:188-195 | the returned line is the trimmed cells first..=last of the row, as `LineSpec` characterises |
| Chunked.ChunkedGrid.Bounds | src/chunked_grid.rs:198-219 | None for a grid without chunks, otherwise the unique tight box around the stored characters |
| Chunked.ChunkedGrid.CellCount | src/chunked_grid.rs:222-224 | the number of occupied positions, which is never below the number of chunks |
| Chunked.ChunkedGrid.ToLines | src/chunked_grid.rs:232-244 | [""] for an empty grid, otherwise one trimmed line per row of the content box |
| Chunked.ChunkedGrid.FromLines | src/chunked_grid.rs:247-259 | a fresh valid grid without selection whose cell (r, c) is char c of line r, spaces left empty |
| Chunked.ChunkedGrid.ToString | src/chunked_grid.rs:269-271 | the exported lines joined by "\n" |
| Chunked.ChunkedGrid.FromString | src/chunked_grid.rs:274-277 | a fresh valid grid whose cells are those of `from_lines` over the `str::lines` of the string |
| Chunked.ChunkedGrid.StartSelection | src/chunked_grid.rs:280-282 | the selection becomes the one-cell selection at (row, col) |
| Chunked.ChunkedGrid.UpdateSelection | src/chunked_grid.rs:285-289 | an existing selection's end corner moves; without a selection nothing happens |
| Chunked.ChunkedGrid.ClearSelection | src/chunked_grid.rs:292-294 | no selection afterwards |
| Chunked.ChunkedGrid.Clear | src/chunked_grid.rs:262-266 | every cell reads ' ' afterwards, the canvas is the empty one and the selection is kept |
| Chunked.ChunkedGrid.CopyBlock | src/chunked_grid.rs:297-311 | None exactly without a selection; otherwise one line per selected row holding every cell of the selected columns, blanks included |
| Chunked.ChunkedGrid.CutBlock | src/chunked_grid.rs:314-330 | returns the copy taken before the cut, blanks exactly the selected cells, leaves all others, keeps the invariant and drops the selection |
| Chunked.ChunkedGrid.BlankBlock | src/chunked_grid.rs:317-326 | every cell inside the selection reads ' ' afterwards and every cell outside it is unchanged |
| Chunked.ChunkedGrid.PasteBlock | src/chunked_grid.rs:333-339 | char j of line i is written at (row + i, col + j), overwriting without shifting; other cells are unchanged |
| Chunked.ChunkedGrid.WriteLines | src/chunked_grid.rs:334-338 | the shared nested loop: the canvas is the old one with each line written at (row + i, col) in order, and the invariant is kept |
| Undo.Command.Execute | src/undo.rs:36-57 | `execute` keeps the grid invariant and leaves the grid as `Executed` describes for the command (cell by cell in the lemmas below) |
| Undo.Command.Undo | src/undo.rs:58-77 | `undo` keeps the grid invariant and leaves the grid as `Undone` describes for the command |
| Undo.ByteBlanks | src/undo.rs:211-218 | one row of spaces per pasted line, as long as the line's UTF-8 byte length: what the clearing loop of `undo_paste_block` covers |
| Undo.ClearColumns | src/undo.rs:105-107 | the `for c in from..1000 { set(r, c, ' ') }` loop: the grid after it is the old one with that stretch of row r blanked, invariant kept |
| Undo.MoveRowsDown | src/undo.rs:84-102 | the downward shift loop: every row from the snapshot's length down to `lo` is cleared and given the snapshot line above it, except the `skip` row |
| Undo.ShiftRowDown | src/undo.rs:85-101 | one iteration of the downward shift extends the finished rows by one |
| Undo.RewriteRow | src/undo.rs:137-145 | one row of a shift loop: columns 0..999 cleared, then the text written from column 0 |
| Undo.MoveRowsUp | src/undo.rs:130-146 | the upward shift loop: every row from `lo` to the snapshot's last is cleared and given the snapshot line below it |
| Undo.ExecuteInsertNewline | src/undo.rs:80-113 | keeps the invariant and leaves the grid as `NewlineInserted` over the grid's own `to_lines` snapshot |
| Undo.UndoInsertNewline | src/undo.rs:115-146 | keeps the invariant and leaves the grid as `NewlineRemoved` over the `to_lines` snapshot |
| Undo.ExecuteDeleteLine | src/undo.rs:148-174 | keeps the invariant and leaves the grid as `LineDeleted` over the `to_lines` snapshot; `row - 1` is needed only when there is a char to append |
| Undo.RemoveLine | src/undo.rs:152-173 | the body of `execute_delete_line` after its snapshot: the append loop then the upward shift |
| Undo.UndoDeleteLine | src/undo.rs:176-209 | keeps the invariant and leaves the grid as `LineRestored` over the `to_lines` snapshot; `row - 1` is needed only when some column below 1000 is cleared |
| Undo.RestoreLine | src/undo.rs:180-208 | the body of `undo_delete_line` after its snapshot: downward shift, the deleted line written back, the appended text cleared |
| Undo.UndoPasteBlock | src/undo.rs:211-227 | keeps the invariant; each pasted line's byte length of cells is blanked, then the replaced rows are written back at (row + i, col) |
| Undo.ClearFromCell | src/undo.rs:105-107 | clearing from `from` blanks exactly columns from..999 of the row; every other cell is unchanged |
| Undo.RewriteCell | src/undo.rs:137-145 | a rewritten row holds the text from column 0, then spaces up to column 999; cells from column 1000 and on other rows are unchanged |
| Undo.MovedDownCell | src/undo.rs:84-102 | after the downward shift from r, each row from r to the snapshot's length holds the snapshot line above it (the `skip` row holds nothing below column 1000) and all other rows are untouched |
| Undo.MovedUpCell | src/undo.rs:130-146 | after the upward shift, each shifted row holds the snapshot line below it and all other rows are untouched |
| Undo.InsertNewlineCell | src/undo.rs:80-113 | executing InsertNewLine: the cursor row loses columns col..999, the next row gets the text after the cursor, each lower row gets the snapshot line above it; columns from 1000 on keep their chars |
| Undo.UndoInsertNewlineCell | src/undo.rs:115-146 | undoing InsertNewLine: the text goes back from column col of the cursor row and each row below gets the snapshot line below it |
| Undo.DeleteLineCell | src/undo.rs:148-174 | executing DeleteLine: the deleted line is appended at column prev_line_length of the row above and each row from `row` on gets the snapshot line below it |
| Undo.UndoDeleteLineCell | src/undo.rs:176-209 | undoing DeleteLine: rows below `row` get the snapshot line above them, the deleted line is written back at `row` and the row above loses columns prev_line_length..999 |
| Undo.UndoPasteCell | src/undo.rs:211-227 | undoing PasteBlock: a cell under replaced line i gets its char back, else a cell under the byte length of pasted line i is blank, else it is unchanged |
| Undo.PasteThenUndoRestores | src/undo.rs:52-54 | pasting a block then undoing the paste restores every cell, when the replaced content captured the cells under the block and the pasted lines are ASCII |
| Undo.PasteCommandRoundTrip | src/undo.rs:36-77 | the same through the commands: `undo` after `execute` of a captured ASCII PasteBlock gives back every cell |
| Undo.ByteLengthClearsPastLine | src/undo.rs:214-216 | with a non-ASCII pasted line the byte-length clearing blanks a cell past the line: undoing a paste of "é" at (0, 0) blanks (0, 1) |
| Undo.PushSpec | src/undo.rs:245-255 | `push` clears the redo stack and puts the command on top; a full stack drops exactly its oldest command and never exceeds max_size |
| Undo.CanUndoIffMoves | src/undo.rs:257-283 | undo (redo) moves a command exactly when `can_undo` (`can_redo`) holds; otherwise the stacks are unchanged |
| Undo.UndoRedoRoundTrip | src/undo.rs:257-275 | redo after undo, and undo after redo, give back both stacks |
| Undo.MovesKeepTotal | src/undo.rs:257-275 | undo and redo keep the total number of commands on the two stacks |
| Undo.UndoStack.constructor | src/undo.rs:237-243 | a new history has both stacks empty and the given cap |
| Undo.UndoStack.Push | src/undo.rs:245-255 | the stacks become `Push` of the old ones and together stay within the cap |
| Undo.UndoStack.Undo | src/undo.rs:257-265 | returns `can_undo`; the top command is taken back on the grid and moved to the redo stack, or nothing changes |
| Undo.UndoStack.Redo | src/undo.rs:267-275 | returns `can_redo`; the top of the redo stack is executed on the grid and moved back, or nothing changes |
| Undo.UndoStack.Clear | src/undo.rs:285-288 | both stacks are empty afterwards |
| Virtual.Blanks | src/virtual_grid.rs:159-165 | h rows of w spaces: what `delete_block` and `cut_block` leave in a rectangle |
| Virtual.Grid.EnsureLineLength | src/virtual_grid.rs:46-70 | afterwards the line exists and is at least min_length long |
| Virtual.EnsureLineLengthSpec | src/virtual_grid.rs:46-70 | padding is invisible: every cell shows what it showed; missing lines are added empty, only the target line grows, and it is recorded as padded exactly when it was shorter than min_length |
| Virtual.Grid.SetCharAt | src/virtual_grid.rs:74-94 | `set_char_at` always leaves at least one line |
| Virtual.SetCharAtKeepsRope | src/virtual_grid.rs:74-94 | `set_char_at` keeps the rope a rope, whatever the char, '\n' included |
| Virtual.SetCharAtShape | src/virtual_grid.rs:74-94 | the lines up to `line` are added (one more when a '\n' splits the line) and the line is recorded as padded exactly when it was shorter than col + 1 |
| Virtual.SetCharAtSpec | src/virtual_grid.rs:72-94 | read after write: a char other than '\n' set at (line, col) is shown there, and every other cell shows what it showed, so text to the right never shifts |
| Virtual.PaddedView | src/virtual_grid.rs:63-65 | appending spaces to a line changes no shown cell |
| Virtual.AddedView | src/virtual_grid.rs:47-52 | adding empty lines below the last changes no shown cell |
| Virtual.ReplacedView | src/virtual_grid.rs:87-93 | replacing one char inside a line changes that shown cell only |
| Virtual.WriteRowKeepsRope | src/virtual_grid.rs:152-154 | the inner write loop of the block writers keeps the rope a rope |
| Virtual.WriteRowLength | src/virtual_grid.rs:152-154 | writing a row never removes lines, and a row without '\n' reaches exactly its own line once one char is written |
| Virtual.WriteRowSpec | src/virtual_grid.rs:152-154 | writing a row without '\n' shows its first n chars from (line, col) and leaves every other cell as it was |
| Virtual.WriteBlockKeepsRope | src/virtual_grid.rs:149-156 | writing rows keeps the rope a rope |
| Virtual.WriteBlockLength | src/virtual_grid.rs:149-156 | writing rows without '\n' reaches every line a non-empty row was written to |
| Virtual.WriteBlockSpec | src/virtual_grid.rs:149-156 | writing rows without '\n' shows row i's chars on line line + i from col, the last write winning, and leaves every other cell as it was |
| Virtual.Cells | src/virtual_grid.rs:135-141 | n shown cells from column `first`, each the view at that column |
| Virtual.BlockRow | src/virtual_grid.rs:135-143 | a `get_block` row is as wide as the column range on an existing line and empty below the last line |
| Virtual.Block | src/virtual_grid.rs:132-146 | `get_block` gives one row per line of the inclusive range, row i being that line's row |
| Virtual.CutRow | src/virtual_grid.rs:173-183 | a cut row is always as wide as the column range, a space standing in below the last line |
| Virtual.CutRows | src/virtual_grid.rs:168-192 | one cut row per line of the inclusive range |
| Virtual.CutRowsHaveNoBreaks | src/virtual_grid.rs:168-192 | a rope shows no '\n', so the cut rows hold none |
| Virtual.PasteThenGetBlock | src/virtual_grid.rs:132-203 | a rectangle of equally wide rows without '\n', pasted at (line, col), is exactly what `get_block` reads back there |
| Virtual.RowReadBack | src/virtual_grid.rs:135-143 | a line showing `text` from col is what `get_block` reads over those columns |
| Virtual.CutThenPaste | src/virtual_grid.rs:168-203 | cutting a rectangle blanks exactly it and keeps every other cell; pasting the cut rows back at the same corner shows the original grid |
| Virtual.CutRowUntouched | src/virtual_grid.rs:172-189 | blanking the lines above a line leaves what `cut_block` reads on it unchanged |
| Virtual.VirtualGrid.constructor | src/virtual_grid.rs:15-20 | a new grid holds the given rope and records no padded line |
| Virtual.VirtualGrid.GetCharAt | src/virtual_grid.rs:22-43 | None below the last line, else the line's char at col or a virtual space past its end, found through the line's start offset |
| Virtual.VirtualGrid.EnsureLineLength | src/virtual_grid.rs:46-70 | working on rope offsets, the new state is the line-level `EnsureLineLength` of the old one |
| Virtual.VirtualGrid.SetCharAt | src/virtual_grid.rs:74-94 | working on rope offsets, the new state is the line-level `SetCharAt` of the old one |
| Virtual.VirtualGrid.GetLineLength | src/virtual_grid.rs:96-110 | the real length of an existing line, 0 below the last line |
| Virtual.VirtualGrid.GetVirtualLineLength | src/virtual_grid.rs:112-119 | at least the real length and at least any recorded padded length, and equal to one of them |
| Virtual.VirtualGrid.ClearVirtualCols | src/virtual_grid.rs:121-124 | the line's padding record is dropped; the rope and other records are unchanged |
| Virtual.VirtualGrid.ClearAllVirtualCols | src/virtual_grid.rs:126-129 | no padding record remains; the rope is unchanged |
| Virtual.VirtualGrid.ReadRow | src/virtual_grid.rs:136-142 | the inner loop of `get_block` returns the line's `get_block` row |
| Virtual.VirtualGrid.GetBlock | src/virtual_grid.rs:132-146 | returns the rectangle's rows as `Block` gives them, leaving the grid alone |
| Virtual.VirtualGrid.WriteRow | src/virtual_grid.rs:152-154 | the chars of the text are set from (line, col) rightwards in order |
| Virtual.VirtualGrid.WriteCell | src/virtual_grid.rs:153 | one step of the inner write loop extends the written prefix by one char |
| Virtual.VirtualGrid.SetBlock | src/virtual_grid.rs:149-156 | the rows are written downwards from (start_line, start_col) |
| Virtual.VirtualGrid.DeleteBlock | src/virtual_grid.rs:159-165 | every cell of the rectangle is set to a space, line by line, as writing rows of spaces does |
| Virtual.VirtualGrid.CutBlock | src/virtual_grid.rs:168-192 | returns the rectangle's cells before the cut (spaces below the last line) and leaves the rectangle blanked |
| Virtual.VirtualGrid.CutRowAt | src/virtual_grid.rs:173-188 | one line of `cut_block` returns that line's cells before the cut and blanks them |
| Virtual.VirtualGrid.ExtractRow | src/virtual_grid.rs:176-182 | the extracting loop returns the line's cut row |
| Virtual.VirtualGrid.PasteBlock | src/virtual_grid.rs:195-203 | the rows are written downwards from the cursor |
| Virtual.VirtualSpacesExample | src/virtual_grid.rs:210-222 | the first test: a read past "Hello" is a space; after setting 'X' at column 10 it reads 'X' and column 9 a padded space |
| Virtual.GetBlockExample | src/virtual_grid.rs:229-231 | the second test's block read gives "234", "BCD", "ghi" |
| Virtual.SetBlockExample | src/virtual_grid.rs:233-236 | writing "XXX", "YYY" at column 1 shows 'X' at (0, 1) and 'Y' at (1, 1) |
| Cursor.FromOffset | src/grid_cursor.rs:86-105 | (0, 0) for an empty rope; otherwise the offset clamped to the last char lies on the returned row, at the returned column from the row's start |
| Cursor.GridCursor.constructor | src/grid_cursor.rs:13-19 | the top-left cell with no remembered column |
| Cursor.GridCursor.FromCharOffset | src/grid_cursor.rs:87-105 | the cursor sits at `FromOffset` of the offset and remembers its column, except on an empty rope |
| Cursor.GridCursor.MoveUp | src/grid_cursor.rs:21-29 | one row up unless at the top, the column going back to the remembered one if any; at the top nothing moves |
| Cursor.GridCursor.MoveDown | src/grid_cursor.rs:31-39 | one row down while above the last of max_rows rows (saturating), back to the remembered column; otherwise nothing moves |
| Cursor.GridCursor.MoveLeft | src/grid_cursor.rs:41-47 | one column left and remembered, unless at column 0 where nothing changes |
| Cursor.GridCursor.MoveRight | src/grid_cursor.rs:49-54 | one column right without a limit, remembered; the row stays |
| Cursor.GridCursor.MoveTo | src/grid_cursor.rs:56-60 | the cursor jumps to (row, col) and remembers col |
| Cursor.GridCursor.ToCharOffset | src/grid_cursor.rs:62-84 | an offset exactly when the cursor is over a char of an existing line, and then it is the line's start plus the column |
| Cursor.OffsetRoundTrip | src/grid_cursor.rs:64-105 | a cursor placed from an offset gives that offset back exactly when the char there is not a line's '\n' (on a '\n' it sits in virtual space) |
| Cursor.PositionRoundTrip | src/grid_cursor.rs:64-105 | the offset of a cell holding a char places the cursor back on that cell |
| Keyboard.Without | src/keyboard.rs:358-366 | the line with its char at i left out, every later char moved one left; unchanged when there is no char at i |
| Keyboard.UpOne | src/keyboard.rs:304-309 | Up moves one row up, saturating at row 0, and changes nothing else |
| Keyboard.DownOne | src/keyboard.rs:310-313 | Down moves one row down with no bound, changes nothing else, and Up takes it back |
| Keyboard.LeftOn | src/keyboard.rs:314-326 | one column left; from column 0 to the end of the line above when that line exists, just up a row when it does not; nothing at (0, 0) |
| Keyboard.RightOn | src/keyboard.rs:327-342 | inside a line one column right; at or past a line's end to the start of the next row; below the last line always one column right |
| Keyboard.LeftUndoesRight | src/keyboard.rs:314-342 | within the text Left takes back a step Right, the wrap to the next line included |
| Keyboard.RightUndoesLeft | src/keyboard.rs:314-342 | within the text Right takes back a step Left, the wrap to the line above included |
| Keyboard.MaxWidth | src/keyboard.rs:74-77 | no line of the snapshot is wider, after `trim_end` and in UTF-8 bytes; 0 for no lines |
| Keyboard.MaxWidthAttained | src/keyboard.rs:74-77 | some line of a non-empty snapshot is exactly that wide |
| Keyboard.SelectAllCovers | src/keyboard.rs:68-87 | Ctrl+A selects exactly the rectangle from (0, 0) over every line and every column before the widest line's end (column 0 alone when all are blank) |
| Keyboard.RectangleFromOrigin | src/keyboard.rs:80-81 | `start_selection(0, 0)` then `update_selection` spans exactly rows 0..height - 1 and columns 0..width - 1, saturating at column 0 |
| Keyboard.RunEndIsBlank | src/keyboard.rs:552 | the column that ends a run of 101 spaces is itself a space |
| Keyboard.ScanEnd | src/keyboard.rs:545-555 | the scan reads at most 10000 cells and always one more than it has read when below the cap |
| Keyboard.ScanStopsAtFirstRun | src/keyboard.rs:547-555 | the scan reads at least one cell; when it stops before the cap its last column is past cursor + 100 and ends 101 spaces, and no earlier such column does |
| Keyboard.ScanOverBlanks | src/keyboard.rs:547-555 | when the 101 cells after the cursor are spaces the scan stops right after the last of them |
| Keyboard.ShiftedRightCell | src/keyboard.rs:557-562 | after the shift loop, each cell after the cursor up to the scan's end (below 10000) holds the scanned cell to its left; other cells are unchanged |
| Keyboard.TypedCell | src/keyboard.rs:543-569 | typing puts the char at the cursor, moves every scanned cell after it one right (below 10000), changes no other cell or row, and moves the cursor right by one |
| Keyboard.TypingErasesCellPastRun | src/keyboard.rs:547-562 | when 101 spaces follow the cursor, the cell just past them is overwritten with a space by typing |
| Keyboard.TypingAtOriginLosesX | src/keyboard.rs:543-569 | an 'x' at column 102 of an otherwise empty grid is gone after typing a char at (0, 0) |
| Keyboard.IntendedTypingKeepsEveryChar | src/keyboard.rs:543-569 | with the last scanned cell absorbing the shift, every char at or after the cursor below column 9999 survives: one column right when scanned, in place when past the scan |
| Keyboard.ShiftShortKeeps | src/keyboard.rs:557-562 | the intended shift moves each non-blank cell at or after the cursor one right and keeps the cell past the scan |
| Keyboard.ScanEndBlankOrCap | src/keyboard.rs:547-555 | the scan reads at least one cell and its last cell is a space unless it read all 10000 |
| Keyboard.BackspacePanicsIff | src/keyboard.rs:378-386 | Backspace panics exactly at column 0, with no selection, more than one row below the snapshot's last line |
| Keyboard.IntendedBackspaceAgrees | src/keyboard.rs:343-424 | a Backspace that reads a missing line above as "" agrees with the source wherever it does not panic, and where it panics only moves the cursor to column 0 of the row above |
| Keyboard.BackspaceCutsSelection | src/keyboard.rs:344-350 | with a selection Backspace blanks exactly the selected cells, drops the selection and keeps the cursor |
| Keyboard.RetypedCell | src/keyboard.rs:368-374 | a retyped row holds the text from column 0 and spaces up to the cleared width; other cells and rows are unchanged |
| Keyboard.BlankedCell | src/keyboard.rs:369-371 | blanking a row's first `width` columns leaves a space in each and every other cell unchanged |
| Keyboard.BackspaceInRow | src/keyboard.rs:353-377 | Backspace at a column > 0 of a snapshot line rewrites the row with the line minus its char col - 1, blanks the rest of its byte length and moves the cursor one left |
| Keyboard.AnchoredCell | src/keyboard.rs:355-357 | when the content starts at (0, 0) a cell reads as its char in the `to_lines` snapshot, a space past the line |
| Keyboard.BackspaceDeletesBeforeCursor | src/keyboard.rs:353-377 | with the content at (0, 0), Backspace over the text deletes the cell before the cursor: every later cell of the row takes its right neighbour's char |
| Keyboard.DeletedCell | src/keyboard.rs:360-374 | the rewritten row read at c is the old line read one cell further on from the deleted index |
| Keyboard.JoinedUpCell | src/keyboard.rs:378-422 | the column-0 join: the current line is appended to the row above from its length, each row from the cursor on gets the snapshot line below it, over a cursor row blanked across the current line's bytes |
| Keyboard.BlankedMovedUpCell | src/keyboard.rs:389-411 | blanking a row then moving the rows from it up gives each the snapshot line below it over the blanked cells |
| Keyboard.BackspaceJoinsRows | src/keyboard.rs:378-422 | Backspace at column 0 with a line above joins the rows and puts the cursor at the end of the line above |
| Keyboard.DeleteOn | src/keyboard.rs:425-486 | Delete never moves the cursor or touches the selection |
| Keyboard.DeleteJoinsCell | src/keyboard.rs:450-483 | Delete at a line's end appends the next line from the end, blanks the next row over its byte length and gives each row below the cursor the snapshot line below it |
| Keyboard.DeleteInRow | src/keyboard.rs:432-449 | Delete inside a line rewrites its row with the line minus the char at the cursor |
| Keyboard.EnterCell | src/keyboard.rs:487-542 | Enter: the cursor row keeps the text before the cursor with spaces over the rest of its bytes, the next row gets the text after it from column 0, each lower row up to the snapshot's length gets the line above it, and the cursor goes to the start of the next row |
| Keyboard.MovedDownRetypedCell | src/keyboard.rs:502-529 | the rows below moved down one, then the cursor row retyped with the text before the cursor |
| Keyboard.SplitAtCell | src/keyboard.rs:502-534 | the Enter split cell by cell, for the grid alone |
| Keyboard.TailWrittenCell | src/keyboard.rs:531-534 | the text after the cursor written from column 0 of the next row, every other cell unchanged |
| Keyboard.HandleOn | src/keyboard.rs:303-574 | the modelled arms of `handle_input` panic exactly for Backspace at column 0, with no selection, more than one row below the last line |
| Keyboard.BackspaceBelowEmptyGridPanics | src/keyboard.rs:378-386 | moving two rows below an empty grid and pressing Backspace panics |
| Keyboard.DropChar | src/keyboard.rs:360-366 | the char-by-char rebuild of the line leaves out exactly the char at i |
| Keyboard.Editor.HandleKey | src/keyboard.rs:6-574 | `handle_input` for the modelled keys: it panics exactly where `Handle` says, changing nothing then, and otherwise leaves the state `Handle` gives, the grid invariant kept |
| Keyboard.Editor.EditKey | src/keyboard.rs:303-574 | the arms after Ctrl+A and Esc over a snapshot: panics exactly where `HandleOn` does, else the state it gives |
| Keyboard.Editor.SelectAll | src/keyboard.rs:68-87 | the state after Ctrl+A is `SelectedAll` of the old one |
| Keyboard.Editor.MoveLeft | src/keyboard.rs:314-326 | the state after Left is `LeftOn` of the old one |
| Keyboard.Editor.MoveRight | src/keyboard.rs:327-342 | the state after Right is `RightOn` of the old one |
| Keyboard.Editor.DeleteBack | src/keyboard.rs:343-424 | Backspace panics exactly where `BackspaceOn` is None, with nothing changed, else leaves its state, the invariant kept |
| Keyboard.Editor.DeleteForward | src/keyboard.rs:425-486 | the state after Delete is `DeleteOn` of the old one, the invariant kept |
| Keyboard.Editor.SplitLine | src/keyboard.rs:487-542 | the state after Enter is `EnterOn` of the old one, the invariant kept |
| Keyboard.Editor.TypeChar | src/keyboard.rs:543-569 | the state after a printable key is `Typed` of the old one, the invariant kept |
| Keyboard.Editor.ScanRow | src/keyboard.rs:545-555 | the scan loop returns the row's cells up to `ScanEnd` |
| Keyboard.Editor.ShiftRight | src/keyboard.rs:557-562 | the shift loop leaves `ShiftedRight` of the grid |
| Keyboard.Editor.Retype | src/keyboard.rs:368-374 | a row blanked over `width` columns and rewritten from column 0 |
| Keyboard.Editor.JoinDown | src/keyboard.rs:452-481 | the Delete join at a line's end leaves `JoinedDown` of the grid |
| Keyboard.Editor.Split | src/keyboard.rs:502-534 | the Enter split leaves `SplitAt` of the grid |
| Keyboard.Editor.JoinUp | src/keyboard.rs:389-416 | the column-0 Backspace join leaves `JoinedUp` of the grid |
| Keyboard.WindowOfScan | src/keyboard.rs:552 | the window `chars_on_line[col - 100..]` is the run of 101 cells ending at col |
| DualPane.Prepared | src/dual_pane_keyboard.rs:34-54 | after line preparation the cursor's line exists and reaches at least the cursor's column |
| DualPane.PreparedSpec | src/dual_pane_keyboard.rs:34-54 | padding is invisible: every cell shows what it showed; the cursor's line exists and is at least col long; other lines are as before or empty when added; the rope stays a rope |
| DualPane.Handle | src/dual_pane_keyboard.rs:10-255 | a key not handled changes nothing; outside the notes editor no key is handled; a char rejected by `is_allowed_char` changes nothing |
| DualPane.Pane.AddMissingLines | src/dual_pane_keyboard.rs:35-38 | the `while` loop appends '\n' until line `row` exists, adding exactly the missing empty lines and nothing else |
| DualPane.Pane.PrepareLine | src/dual_pane_keyboard.rs:35-54 | the line is made to exist and padded up to col; returns the line's start offset; cursor, selection and history unchanged |
| DualPane.Pane.PadLine | src/dual_pane_keyboard.rs:51-54 | inserting n spaces at the line's end extends that line alone and does not move its start |
| DualPane.Pane.WriteOver | src/dual_pane_keyboard.rs:62-77 | the branchy insert/remove at the cell's offset leaves `Overwrite` of the rope: a '\n' gets the char inserted before it, another char is replaced, past the end the char is appended |
| DualPane.Pane.HandleDualPaneInput | src/dual_pane_keyboard.rs:10-255 | the handled flag and the new pane state are exactly what `Handle` gives for the old state |
| DualPane.Pane.TypeCharAtCursor | src/dual_pane_keyboard.rs:24-103 | the Char arm leaves `TypeChar` of the old state and reports the key handled |
| DualPane.Pane.EnterAtCursor | src/dual_pane_keyboard.rs:170-229 | the Enter arm leaves `Enter` of the old state and reports the key handled |
| DualPane.Pane.BackspaceAtCursor | src/dual_pane_keyboard.rs:106-167 | the Backspace arm leaves `Backspace` of the old state and reports the key handled |
| DualPane.Pane.DeleteLeft | src/dual_pane_keyboard.rs:110-129 | past column 0: the cursor moves left and the char at its new offset goes; reports whether a char was removed, history untouched until the commit |
| DualPane.Pane.JoinWithLineAbove | src/dual_pane_keyboard.rs:130-148 | at column 0 below the first row: the cursor moves up and the char before the next line's start goes; reports whether one was removed |
| DualPane.OverwriteInLine | src/dual_pane_keyboard.rs:63-73 | inside a line the offset holds the line's own char, not a '\n', and removing it then inserting the char there replaces it |
| DualPane.RemoveThenInsert | src/dual_pane_keyboard.rs:70-72 | removing the char at a column of a line and inserting another there replaces it |
| DualPane.InsertAfterRemoval | src/dual_pane_keyboard.rs:72 | the insert after the removal lands at the same column of the shortened line |
| DualPane.OverwriteAtLineEnd | src/dual_pane_keyboard.rs:63-77 | at a line's end the offset holds its '\n' or is the rope's end, and inserting there appends to the line |
| DualPane.OverwriteKeepsRope | src/dual_pane_keyboard.rs:62-77 | writing over a cell keeps the rope a rope |
| DualPane.OverwriteView | src/dual_pane_keyboard.rs:62-77 | overwriting with a char other than '\n' shows it at the cell and changes no other cell |
| DualPane.OverwriteStarts | src/dual_pane_keyboard.rs:84-85 | overwriting changes only the cursor's line, so that line and every earlier one start where they did |
| DualPane.TypeCharWrites | src/dual_pane_keyboard.rs:24-82 | a char key leaves the cursor's line existing with c at the cursor column, every other cell as shown before, and the cursor one column right remembering it |
| DualPane.TypeCharCommits | src/dual_pane_keyboard.rs:83-94 | a char key keeps the rope a rope, sets the selection at the cursor, and appends exactly one revision, from the padded document to the new one |
| DualPane.TypeCharOverwrites | src/dual_pane_keyboard.rs:62-77 | overwrite mode: only the cursor's line changes; over a char its length stays the same; in front of a '\n' the char is added and the '\n' kept |
| DualPane.EnterSplits | src/dual_pane_keyboard.rs:170-209 | Enter adds exactly one '\n' after padding, the text before the cursor stays, the rest starts the next line, the other lines shift down, and the cursor goes to (row + 1, 0) |
| DualPane.EnterCommits | src/dual_pane_keyboard.rs:211-220 | Enter puts the selection at the cursor and appends exactly one revision from the unpadded document |
| DualPane.BackspaceAtMostOne | src/dual_pane_keyboard.rs:106-158 | Backspace removes at most one char, commits a revision exactly when it removed one, and keeps the rope a rope |
| DualPane.BackspaceInLine | src/dual_pane_keyboard.rs:110-129 | with a char of the line left of the cursor, Backspace removes exactly that char and the cursor and selection move onto its cell |
| DualPane.BackspaceJoins | src/dual_pane_keyboard.rs:130-148 | at column 0 below the first line Backspace removes the '\n' before the line, joining it to the line above, and the cursor goes to where that line ended |
| DualPane.BackspacePastLineEnd | src/dual_pane_keyboard.rs:110-129 | one column past the end of a line that is not the last, Backspace removes the line's '\n' and joins the next line, though no char of the line is left of the cursor |
| DualPane.BackspaceRemovesFromNextLine | src/dual_pane_keyboard.rs:116-128 | two columns past the end of "ab" Backspace removes the 'c' of the next line "cd" |
| DualPane.BackspaceBelowLastLine | src/dual_pane_keyboard.rs:130-148 | at column 0 just below "abc", Backspace removes the 'c' and puts the cursor after the 'b' |
| DualPane.IntendedBackspaceStaysInLine | src/dual_pane_keyboard.rs:106-148 | the corrected Backspace changes the rope only by removing the char left of the cursor within its line or by joining the cursor's line to the one above |
| DualPane.BackspaceAgreesOverText | src/dual_pane_keyboard.rs:106-148 | where the cursor is over the text the handler's Backspace is the corrected one |
| Rope.LineToChar | src/virtual_grid.rs:28 | a line starts no earlier than its index, each earlier line counting at least its '\n' |
| Rope.LineEnd | src/virtual_grid.rs:29-33 | the end the editor computes, `line_to_char(k + 1) - 1` or `len_chars` for the last line, is the line's start plus its length |
| Rope.LineLen | src/virtual_grid.rs:35 | `line_end.saturating_sub(line_start)` is exactly the line's length |
| Rope.LineToCharMono | src/virtual_grid.rs:28-33 | lines start in order, and a line ends before the next one starts |
| Rope.FindLineSpec | src/grid_cursor.rs:96 | the upward search finds the line whose span, its '\n' included, holds the offset |
| Rope.CharToLineSpec | src/grid_cursor.rs:96-98 | `char_to_line(o)` is a line that starts at or before o and ends at or after it |
| Rope.CharToLineOfStart | src/grid_cursor.rs:96-98 | an offset inside the span of line k is found on line k |
| Rope.SplitLine | src/dual_pane_keyboard.rs:204 | splitting a line adds exactly one line |
| Rope.JoinLine | src/dual_pane_keyboard.rs:143 | joining two lines removes exactly one line |
| Rope.LastLineEnd | src/virtual_grid.rs:29-33 | only the last line ends at the end of the rope |
| Rope.RemoveAt | src/dual_pane_keyboard.rs:123 | removing one char always leaves at least one line |
| Rope.AddLines | src/dual_pane_keyboard.rs:35-38 | appending n '\n's adds exactly n lines |
| Rope.LineToCharPrefix | src/dual_pane_keyboard.rs:84-85 | an edit at or after line k does not move the starts of lines before it |
| Rope.CharAtLine | src/virtual_grid.rs:37-38 | the char at a line's start offset plus c is the line's char c |
| Rope.ReplaceCol | src/virtual_grid.rs:87-93 | replacing a char inside a line never loses lines |
| Rope.ReplaceAt | src/virtual_grid.rs:87-93 | replacing a char of the rope leaves at least one line |
| Rope.ReplaceInLine | src/virtual_grid.rs:78-93 | replacing the char at a line's start offset plus c touches that line alone |
| Rope.ReplaceColKeepsRope | src/virtual_grid.rs:87-93 | replacing a char inside a line keeps the rope a rope |
| Rope.ReplaceKeepsRope | src/virtual_grid.rs:87-93 | rebuilding the rope from its chars with one replaced keeps it a rope |
| Rope.InsertText | src/virtual_grid.rs:63-65 | inserting text without '\n' keeps the number of lines |
| Rope.InsertTextAtLineEnd | src/virtual_grid.rs:63-65 | inserting at the end of line k appends to line k |
| Rope.LineStart | src/dual_pane_keyboard.rs:141 | `line_to_char(k)` as the rope answers it is at most the computed line start, the rope's length for k == len_lines |
| Rope.LineSliceLen | src/dual_pane_keyboard.rs:135-136 | `line(k).len_chars()` counts the line's '\n' when it is not the last |
| Rope.LenCharsTotal | src/virtual_grid.rs:32 | `len_chars` is the lines' lengths plus one '\n' between each two |
| Rope.LenCharsSplit | src/dual_pane_keyboard.rs:204 | splitting a line adds one char, the '\n' |
| Rope.LenCharsJoin | src/dual_pane_keyboard.rs:143 | joining two lines removes one char, the '\n' |
| Rope.RemoveInLine | src/dual_pane_keyboard.rs:121-124 | removing the char at column c of line k shortens that line only |
| Rope.RemoveLineBreak | src/dual_pane_keyboard.rs:141-143 | removing the '\n' that ends line k joins it with the next line |
| Rope.InsertInLine | src/dual_pane_keyboard.rs:68-76 | inserting at column c of line k edits that line, or splits it for a '\n' |
| Rope.BreakAtLineEnd | src/dual_pane_keyboard.rs:63-67 | the char at the end of a line that is not the last is its '\n' |
| Rope.RemoveAtLength | src/dual_pane_keyboard.rs:121-124 | removing any char shortens the rope by exactly one |
| Rope.SplitKeepsRope | src/dual_pane_keyboard.rs:204 | splitting a line keeps the rope a rope |
| Rope.JoinKeepsRope | src/dual_pane_keyboard.rs:143 | joining two lines keeps the rope a rope |
| Rope.LineKeepsRope | src/virtual_grid.rs:63-65 | changing one line to a line without '\n' keeps the rope a rope |
| Rope.RemoveKeepsRope | src/dual_pane_keyboard.rs:121-124 | removing any char keeps the rope a rope |
| Rope.AppendLineBreak | src/dual_pane_keyboard.rs:35-38 | inserting '\n' at the end of the rope adds one empty line |
| Rope.AddLinesKeepsRope | src/virtual_grid.rs:47-52 | adding empty lines keeps the rope a rope |
| Coordinates.WhichPaneIsInterval | src/coordinate_system.rs:61-87 | `which_pane` returns a pane exactly when the column lies in that pane's half-open column interval (list 0..4, editor 4..4+(w-4)/2, extraction beyond; PDF before the split, extraction after it) |
| Coordinates.NotesModeTotal | src/coordinate_system.rs:62-75 | in notes mode every screen column belongs to some pane and never to the PDF pane |
| Coordinates.PdfModeDividerOnly | src/coordinate_system.rs:76-86 | in PDF mode the divider column is the only one in no pane; columns before it are the PDF pane, columns after it the extraction pane |
| Coordinates.PaneStartsBeforeClick | src/coordinate_system.rs:28-35 | the pane a column falls in starts at or before that column, so the left-edge clamp never fires and the pane-relative column is the plain difference |
| Coordinates.PaneStartIsIntervalStart | src/coordinate_system.rs:113-128 | each pane's start column is the lower end of the column interval `which_pane` assigns to it (the extraction pane starts one past the PDF-mode divider) |
| Coordinates.ProcessClickShape | src/coordinate_system.rs:24-51 | `process_click` answers exactly when the column is in a pane whose renderer is present; the pane is `which_pane`'s, the pane row is the screen row and the grid position equals the document position |
| Coordinates.UnscrolledPanes | src/coordinate_system.rs:130-142 | the list and PDF panes have offset (0, 0), so their document position is the pane-relative one |
| Coordinates.ScreenToDocumentAgrees | src/coordinate_system.rs:53-58 | `screen_to_document` answers exactly when `process_click` does; both give pane-relative position plus viewport offset, and they agree whenever the sums stay within `usize` (the one saturates, the other does not) |
| Validator.CursorIssueIff | src/coordinate_validator.rs:44-58 | a click check records nothing exactly when the cursor is at the clicked cell plus the viewport offset; otherwise it records a `CursorMismatch` with that expected position and the actual cursor |
| Validator.ExpectedAxisIsClampedSum | src/coordinate_validator.rs:73-74 | without `i32` overflow each expected viewport axis is the old offset plus the scroll, clamped at 0 |
| Validator.ViewportIssueIff | src/coordinate_validator.rs:73-91 | a viewport check records nothing exactly when each axis moved by its scroll amount clamped at 0; otherwise it records a `ViewportDrift` with expected and actual viewports |
| Validator.CoordinateValidator.constructor | src/coordinate_validator.rs:26-33 | a new validator has no last click, no last cursor and no issues |
| Validator.CoordinateValidator.ValidateClickToCursor | src/coordinate_validator.rs:36-65 | returns true exactly when the cursor is at the expected cell; appends exactly one `CursorMismatch` issue otherwise and leaves the list unchanged when it succeeds |
| Validator.CoordinateValidator.ValidateViewportConsistency | src/coordinate_validator.rs:68-93 | returns true exactly when the new viewport is the old one moved by the scroll amount clamped at 0; appends exactly one `ViewportDrift` issue otherwise |
| Validator.CoordinateValidator.AutoValidate | src/coordinate_validator.rs:108-134 | the issue list only grows; a missing or repeated mouse position changes nothing; a new one is checked against the active pane's cursor and viewport (0, 0 without a renderer) and is remembered |
| Viewports.Viewport.constructor | src/viewport.rs:22-32 | a new viewport has the given view size, no content, scroll (0, 0) and one row reserved for the title bar |
| Viewports.Viewport.SetYOffset | src/viewport.rs:34-36 | only the vertical offset changes, to the given value |
| Viewports.Viewport.Resize | src/viewport.rs:38-42 | only the view dimensions change; the scroll position is kept, since clamping does nothing |
| Viewports.Viewport.SetContentSize | src/viewport.rs:44-48 | only the content dimensions change; the scroll position is kept |
| Viewports.Viewport.SetScroll | src/viewport.rs:50-54 | the scroll position is stored as given, however far past the content it lies |
| Viewports.Viewport.VisibleRange | src/viewport.rs:150-157 | the range starts at the scroll position; each end is the smaller of scroll plus view size and the content size, and lies before the start exactly when the view is scrolled past the content |
| Viewports.VerticalHitIff | src/viewport.rs:160-171 | a click is on the vertical bar exactly when it is in the rightmost view column and within the bar's rows, from the offset for the view height |
| Viewports.HorizontalHitIff | src/viewport.rs:174-183 | a click is on the horizontal bar exactly when it is on the last row of the view (height plus offset, minus one) and left of the view width |
| Viewports.VerticalPaintedIsHit | src/viewport.rs:102-114 | the vertical hit-test accepts exactly the 0-based cells under the 1-based cells `draw_scrollbars` paints for the vertical bar |
| Viewports.HorizontalPaintedIsHit | src/viewport.rs:131-144 | the horizontal hit-test accepts exactly the 0-based cells under the 1-based cells `draw_scrollbars` paints for the horizontal bar |
| Viewports.CornerOnBothBars | src/viewport.rs:160-183 | the bottom-right view cell is on both scrollbars, so the hit-tests overlap there |
| Renderer.TextRenderer.constructor | src/renderer.rs:18-26 | a new renderer holds `height` rows of `width` spaces, has the given viewport size and is unscrolled |
| Renderer.TextRenderer.UpdateBuffer | src/renderer.rs:28-33 | the buffer becomes a row-by-row copy of the matrix; nothing else changes |
| Renderer.TextRenderer.ScrollUp | src/renderer.rs:35-37 | the row scroll moves back by `lines`, saturating at 0 |
| Renderer.TextRenderer.ScrollDown | src/renderer.rs:39-42 | the row scroll moves forward by `lines` but never past the buffer height less the view height (0 when the buffer fits) |
| Renderer.TextRenderer.ScrollLeft | src/renderer.rs:44-46 | the column scroll moves back by `cols`, saturating at 0 |
| Renderer.TextRenderer.ScrollRight | src/renderer.rs:48-52 | the column scroll moves forward by `cols` but never past the first row's width less the view width; with an empty buffer it is 0 |
| Renderer.TextRenderer.Resize | src/renderer.rs:155-158 | only the viewport size changes; buffer and scroll position are kept |
| Renderer.MaxScrollYIsOverhang | src/renderer.rs:40 | the scroll-down bound, after its 16-bit cast, is the buffer's overhang below the view, and 0 when the buffer fits |
| Kitty.KeyModifiers.Contains | src/kitty_native.rs:64-69 | `contains` holds exactly when every modifier held in the argument is held here too (set inclusion) |
| Kitty.ContainsPreorder | src/kitty_native.rs:64-69 | `contains` is reflexive and transitive |
| Kitty.ParseInput | src/kitty_native.rs:276-379 | no bytes give no event; a mouse event only comes from six or more bytes starting `ESC [ <` |
| Kitty.EncodeThenParse | src/kitty_native.rs:303-378 | every key event `parse_input` can produce (printable ASCII, Ctrl+letter, Cmd+char, Enter, Backspace, Tab, Esc, arrows and Shift-arrows, Home, End, PageUp, PageDown) decodes from its terminal encoding back to itself |
| Kitty.ParseThenEncode | src/kitty_native.rs:303-378 | every key `parse_input` returns came from exactly that key's encoding, so no two byte strings decode to the same key |
| Kitty.KeyRoundTrip | src/kitty_native.rs:303-378 | a byte string decodes to a key exactly when it is that key's encoding |
| Kitty.LineFeedIsCtrlJ | src/kitty_native.rs:319-334 | a lone line feed (10) is decoded as Ctrl+J, since only 13 and 9 are excluded from the control-character arm |
| Kitty.ParseUnsigned | src/kitty_native.rs:410-421 | `parse::<uN>` gives a value below the type's bound or fails |
| Kitty.ParseDecimal | src/kitty_native.rs:410-421 | `parse::<uN>` accepts a decimal rendering, with or without a leading '+', exactly when its value fits the type |
| Kitty.SplitFields | src/kitty_native.rs:404-408 | when three parts come out they are the texts around the only two semicolons, and none of them contains a semicolon |
| Kitty.SplitFieldsCount | src/kitty_native.rs:404-408 | `split(';')` gives exactly three parts exactly when the text holds exactly two semicolons |
| Kitty.ParseSgrMouse | src/kitty_native.rs:382-491 | a decoded report is a mouse event, found from the fields before the first terminator; it is a press exactly for 'M', and its 0-based coordinates are below 0xFFFF |
| Kitty.MouseFromFields | src/kitty_native.rs:410-421 | fields that parse give a mouse event with the given press flag and saturating 0-based coordinates below 0xFFFF |
| Kitty.ReportFieldsSpec | src/kitty_native.rs:390-408 | fields are found exactly when a terminator 'M' or 'm' follows `ESC [ <` and exactly two semicolons come before the first one; the report is a press exactly when that terminator is 'M' |
| Kitty.ReportFieldsOfDigits | src/kitty_native.rs:390-408 | a report made of three digit strings yields those strings as its fields, whatever follows its terminator |
| Kitty.SgrRoundTrip | src/kitty_native.rs:288-293 | a well-formed SGR report for a `u32` code and 1-based `u16` cell decodes to the event that code stands for at the 0-based cell, whatever bytes follow it |
| Kitty.OnlyExactScrollCodes | src/kitty_native.rs:470-477 | only the exact codes 64 and 65 decode as scroll up and scroll down; modifier or drag bits on them fall back to the low-bit button |
| Kitty.ShiftScrollIsLeftPress | src/kitty_native.rs:431-477 | code 68 (scroll up with Shift) decodes as a Left press with Shift |
| Kitty.DecodeButtonCode | src/kitty_native.rs:431-468 | a code built from a button number 0..2, Shift (4), Alt (8), Ctrl (16) and drag (32) decodes back to exactly that button, those modifiers and that drag flag |
| TextFilter.AllowedIffNotControl | src/text_filter.rs:4-19 | a char is allowed exactly when it is not a control char or is one of the whitespace control chars (tab, line feed, vertical tab, form feed, carriage return, next line) |
| TextFilter.AllowedExamples | src/text_filter.rs:86-94 | 'a', space, line feed and tab are allowed; ESC, NUL and BEL are refused, as the unit test asserts |
| TextFilter.StripAnsiCodes | src/text_filter.rs:22-64 | the char loop with its escape flag and escape type computes the stripping function, in which an ESC opens an escape that always ends at the next char |
| TextFilter.StripAllowed | src/text_filter.rs:51-60 | every char of the stripped text is allowed; no ESC survives |
| TextFilter.StripShorter | src/text_filter.rs:22-64 | the stripped text is never longer than the input |
| TextFilter.StripIdentity | src/text_filter.rs:51-60 | text without ESC whose chars are all allowed passes through unchanged |
| TextFilter.StripConcat | src/text_filter.rs:51-60 | text without ESC is filtered char by char and leaves no escape open for what follows |
| TextFilter.EscapeDropsNext | src/text_filter.rs:28-57 | as written, an ESC removes itself and exactly the one char after it: the '[' and ']' arms are reached only when no escape is open, so the escape type never changes |
| TextFilter.TwoEscapes | src/text_filter.rs:28-57 | two escapes, each after ESC-free text, each remove themselves and the char after them |
| TextFilter.StripExampleColours | src/text_filter.rs:80 | the code turns the unit test's colour-coded input into "Hello31mRed0mWorld", not the asserted "HelloRedWorld" |
| TextFilter.StripExampleClearScreen | src/text_filter.rs:81 | the code turns the unit test's clear-screen input into "2JH", not the asserted empty text |
| TextFilter.StripExamplePlain | src/text_filter.rs:82 | plain text passes unchanged, as the unit test asserts |
| TextFilter.KeepAllowed | src/text_filter.rs:69-71 | the filter keeps a subsequence of the text, so it is never longer |
| TextFilter.CleanIsStrip | src/text_filter.rs:67-72 | cleaning equals stripping: the second filter never removes anything, since stripping emits only allowed chars |
| TextFilter.CsiBodySkipped | src/text_filter.rs:31-37 | with the intended scanner, inside a CSI sequence everything up to and including its final letter is dropped |
| TextFilter.CsiRemoved | src/text_filter.rs:31-37 | with the intended scanner, a whole `ESC [ params letter` sequence after ESC-free text leaves nothing behind |
| TextFilter.IntendedAllowed | src/text_filter.rs:58-59 | every char the intended scanner emits is allowed |
| TextFilter.IntendedAgreesWithoutEscapes | src/text_filter.rs:58-59 | on text without ESC the intended scanner and the code give the same result |
| TextFilter.IntendedExampleColours | src/text_filter.rs:80 | the intended scanner gives "HelloRedWorld" for the unit test's colour-coded input |
| TextFilter.IntendedExampleClearScreen | src/text_filter.rs:81 | the intended scanner gives the empty text for the unit test's clear-screen input |
| TextMatrix.Rendered | src/text_matrix.rs:1-15 | the text is empty exactly when the matrix has no rows, and otherwise ends in a line break |
| TextMatrix.RenderedIntended | src/text_matrix.rs:1-15 | the corrected text is empty exactly when the matrix has no rows, and otherwise ends in a line break |
| TextMatrix.MatrixToString | src/text_matrix.rs:1-15 | the loop computes the as-written rendering, where each trim runs over the whole text built so far |
| TextMatrix.MatrixToStringIntended | src/text_matrix.rs:1-15 | the corrected loop, trimming only the row just added, computes the corrected rendering |
| TextMatrix.VisibleTrimEnd | src/text_matrix.rs:8-10 | trimming removes only whitespace |
| TextMatrix.TrimEndIdempotent | src/text_matrix.rs:9 | trimming twice is trimming once |
| TextMatrix.TrimEndPastWhitespace | src/text_matrix.rs:9 | appending whitespace does not change what trimming keeps |
| TextMatrix.VisibleInOrder | src/text_matrix.rs:4-12 | every non-whitespace char of the matrix reaches the text, in row-major order |
| TextMatrix.NoWhitespaceBeforeBreak | src/text_matrix.rs:8-11 | for rows without line breaks, every line break past the first char of the text follows a non-whitespace char |
| TextMatrix.NoDoubleBreak | src/text_matrix.rs:8-11 | for rows without line breaks the text never holds two consecutive line breaks |
| TextMatrix.BlankRowVanishes | src/text_matrix.rs:8-10 | a whitespace-only row after the first row leaves the text unchanged: its line disappears |
| TextMatrix.BlankMiddleRowLost | src/text_matrix.rs:8-10 | rows "a", " ", "b" give "a\nb\n" as written and "a\n\nb\n" when corrected |
| TextMatrix.IntendedKeepsEveryRow | src/text_matrix.rs:4-12 | for rows without line breaks the corrected text has exactly one line per row |
| TextMatrix.IntendedVisibleInOrder | src/text_matrix.rs:4-12 | the corrected text also keeps every non-whitespace char in row-major order |
| ContentExtractor.ExtractPlanChoice | src/content_extractor.rs:180-230 | a grid of more than 1,000,000 cells is refused before anything else is done; on a page of at most 50,000 characters the column-aware mapper is used exactly when at least two column boundaries were found |
| ContentExtractor.ColumnWidths | src/content_extractor.rs:72-82 | the mapper has one width more than there are column boundaries, each the total width divided evenly among them |
| ContentExtractor.ColumnWidthsFit | src/content_extractor.rs:72-82 | the column widths never add up to more than the total width |
| ContentExtractor.Take | src/content_extractor.rs:111 | `take(n)` gives a prefix of the text of length at most `n` |
| ContentExtractor.Overlay | src/content_extractor.rs:103-116 | writing a cell's text into a row keeps its length, changes exactly the columns from the start covered by the text and cuts off what falls past the right edge |
| ContentExtractor.LatinLetterCellIsText | src/content_extractor.rs:97-116 | a cell with a Latin-1 letter, such as "5é", is not numeric: it starts at the cell's start and is cut to the cell width |
| ContentExtractor.CellStep | src/content_extractor.rs:94-126 | one cell keeps the row's width and moves the next cell's start at least one column width to the right |
| ContentExtractor.LineState | src/content_extractor.rs:93-126 | after any number of cells the row still has the grid's width |
| ContentExtractor.ColumnRow | src/content_extractor.rs:84-131 | the row a line becomes is exactly as wide as the grid |
| ContentExtractor.CellStepKeepsLeft | src/content_extractor.rs:101-126 | a cell writes nothing left of where it starts |
| ContentExtractor.LaterCellsKeepLeft | src/content_extractor.rs:93-126 | later cells start no further left and never change a column left of an earlier cell's start |
| ContentExtractor.SeparatorBetweenCells | src/content_extractor.rs:118-125 | between consecutive cells a '|' sits one column past the cell's start plus its width, and no later cell overwrites it |
| ContentExtractor.MapToGrid | src/content_extractor.rs:84-131 | the grid is exactly height by width; row y holds the row line y's cells make, and rows below the last line stay blank |
| ContentExtractor.MapCell | src/content_extractor.rs:95-125 | one cell-loop iteration writes exactly that cell's row update into row y, returns the next start column, and leaves every other row alone |
| ContentExtractor.WriteCell | src/content_extractor.rs:103-116 | writing a cell's text changes only row y, exactly at the columns the text covers inside the grid |
| ContentExtractor.IndexOrder | src/content_extractor.rs:243-254 | row-major positions follow the lexicographic order of (row, column) |
| ContentExtractor.SimpleTextFallback | src/content_extractor.rs:236-257 | the grid is exactly height by width; the k-th character lands at (k div width, k mod width) while it fits and every other cell is blank |
| ContentExtractor.MapLinesToGrid | src/content_extractor.rs:596-615 | character i of line y goes to (y, i) for y below the height and i below the width; every other cell is unchanged |
| ContentExtractor.MapWordsToGrid | src/content_extractor.rs:631-656 | line y becomes its words, each followed by one space, written into row y from column 0 and cut at the grid's edges; every other cell is unchanged |
| ContentExtractor.PlaceTextOnGridSpatial | src/content_extractor.rs:684-722 | each cell ends up holding the last character the `Sequential` rules (newline and wrap both restart at column 0, stop below the last row) write there, or its old value |
| ContentExtractor.SpatialStep | src/content_extractor.rs:692-721 | one character of the loop moves the pen exactly as the `Sequential` rule step does and writes at most the one cell that step names |
| Placement.DormantWritesNothing | src/ferrules_extractor.rs:118-120 | once placement has stopped or passed the last row, it stays so and no later character writes anything |
| Placement.StopEndsPlacement | src/ferrules_extractor.rs:131-133 | the character that stops placement, and all after it, write nothing |
| Placement.WrittenInArea | src/ferrules_extractor.rs:125-140 | every cell written lies inside the max_width by max_height area, under each extractor's rules |
| Placement.StopsBelowArea | src/content_extractor_pdfium.rs:325-335 | once the pen is past the last row, nothing more is written |
| Placement.PlacesAtPen | src/content_extractor.rs:716-720 | inside the area a character goes where the pen is, and the pen moves one column right |
| Placement.AfterNewline | src/ferrules_extractor.rs:115-123 | after a newline the next character lands on the next row at the rules' newline column: 0 for `Sequential`, the start column for `Anchored` and `Indented` |
| Placement.AfterWrap | src/ferrules_extractor.rs:126-131 | past the right edge a character wraps to the next row at the rules' wrap column: the start column for `Indented`, 0 otherwise |
| Placement.IndentedStopsAtCorner | src/ferrules_extractor.rs:131-133 | under the `Indented` rules a character that can neither be placed nor wrapped ends the placement: it and everything after it write nothing |
| Ferrules.PlaceTextOnGridSpatial | src/ferrules_extractor.rs:103-142 | each cell ends up holding the last character the `Indented` rules (newline and wrap both return to the start column; a character that cannot be placed stops everything) write there, or its old value |
| Ferrules.SpatialStep | src/ferrules_extractor.rs:114-140 | one character of the loop moves the pen exactly as the `Indented` rule step does, stops where the loop breaks, and writes at most the one cell that step names |
| Ferrules.WrapDiffersFromSequential | src/ferrules_extractor.rs:126-131 | "ab" from column 1 of a 2×2 grid puts 'b' at (1, 1) here but at (1, 0) under the sibling extractor's rules: wrapping returns to the start column, not column 0 |
| PdfiumExtractor.DetectIndentationLevel | src/content_extractor_pdfium.rs:294-308 | the indentation is always 0, 2, 4, 6 or 8; it is 0 exactly below 15% of the page width and 8 exactly beyond 60% |
| PdfiumExtractor.IndentationMonotone | src/content_extractor_pdfium.rs:294-308 | content further right is never indented less |
| PdfiumExtractor.PushChars | src/content_extractor_pdfium.rs:268-270 | the inner loop appends exactly the word's characters |
| PdfiumExtractor.PushWords | src/content_extractor_pdfium.rs:263-271 | the word loop appends the words joined by single spaces |
| PdfiumExtractor.BuildLineText | src/content_extractor_pdfium.rs:246-276 | the line text is the style prefix, the italic marker, the words joined by spaces and the marker again |
| PdfiumExtractor.LineTextWords | src/content_extractor_pdfium.rs:246-276 | the line text starts with its prefix ("# ", "## ", four spaces or nothing), and what lies between the two markers splits back into exactly the words; the marker is '*' exactly for italic text that is not monospace |
| PdfiumExtractor.PlaceTextOnGrid | src/content_extractor_pdfium.rs:311-346 | each cell ends up holding the last character the `Anchored` rules (newline to the start column, wrap to column 0, stop below the last row) write there, or its old value |
| PdfiumExtractor.GridStep | src/content_extractor_pdfium.rs:321-345 | one character of the loop moves the pen exactly as the `Anchored` rule step does and writes at most the one cell that step names |
| PdfiumExtractor.MapToGrid | src/content_extractor_pdfium.rs:206-291 | the grid is exactly grid_height by grid_width; each cell holds what the last line writing it put there, lines without words or below the grid are skipped, and the rest is blank |
| PdfiumExtractor.PageWrittenInGrid | src/content_extractor_pdfium.rs:340-344 | every cell any line writes lies inside the grid |
| PdfiumExtractor.NewlineAnchorsWrapDoesNot | src/content_extractor_pdfium.rs:321-338 | "ab\nc" from column 1 of a 2×3 grid puts 'b' at (1, 0) after the wrap and 'c' at (2, 1) after the newline |
| TableExtractor.TableOf | src/table_extractor.rs:245-268 | the table built from the rows has a row of cells per row of segments, cell [i][j] carrying segment [i][j]'s text and the indices i and j |
| TableExtractor.CreateTableFromRows | src/table_extractor.rs:234-277 | no table exactly when there are no rows; otherwise cell [i][j] has segment [i][j]'s text, row i and column j |
| TableExtractor.BuiltIsTableOf | src/table_extractor.rs:245-268 | any cell rows built from the segment rows are the table `TableOf` describes: the construction is unique |
| TableExtractor.MaxLen | src/table_extractor.rs:288 | the maximum row length bounds every row's length |
| TableExtractor.MaxLenAttained | src/table_extractor.rs:288 | the maximum is the length of some row, and 0 when there are no rows |
| TableExtractor.MarkdownLines | src/table_extractor.rs:290-321 | the Markdown has a line per row plus one: the header row, then the separator, then each further row |
| TableExtractor.MarkdownOf | src/table_extractor.rs:280-283 | the Markdown is empty exactly when the table has no rows |
| TableExtractor.TableToMarkdown | src/table_extractor.rs:280-324 | the loops build the Markdown text of the table's rows with as many slots per row as the longest row has cells |
| TableExtractor.PushSeparatorRow | src/table_extractor.rs:302-307 | the separator line is '|', a " --- \|" per column and a line break |
| TableExtractor.PushMarkdownRow | src/table_extractor.rs:311-320 | a row line is '|', a " text \|" slot per cell, a " \|" per missing column and a line break |
| TableExtractor.MarkdownRowSlots | src/table_extractor.rs:292-320 | with no '\|' in the cell texts, each Markdown row has exactly max(cells, max_cols) slots |
| TableExtractor.SeparatorSlots | src/table_extractor.rs:303-306 | the separator row has exactly max_cols slots |
| TableExtractor.MarkdownRowNoBreak | src/table_extractor.rs:292-300 | a Markdown row ends in '\|' and holds no line break when no cell text does |
| TableExtractor.SeparatorNoBreak | src/table_extractor.rs:303-307 | the separator row ends in '\|' and holds no line break |
| TableExtractor.MarkdownReadsBack | src/table_extractor.rs:290-321 | read back line by line, the Markdown gives exactly one line per table row plus the separator in second place, when no cell text holds a line break |
| TableExtractor.MarkdownSlots | src/table_extractor.rs:288-320 | every Markdown line of a table has as many slots as its widest row has cells |
| TableExtractor.GridRowLength | src/table_extractor.rs:371-390 | a row line in which every text fits its column is exactly as long as the border |
| TableExtractor.GridShape | src/table_extractor.rs:362-393 | the grid has a line per row between two identical borders, and every line is as long as the border |
| TableExtractor.RenderGrid | src/table_extractor.rs:362-395 | the drawing loops give the border, a line per row and the border again |
| TableExtractor.RenderRow | src/table_extractor.rs:371-389 | a row line is '\|' followed by a padded cell per column, empty past the row's cells |
| TableExtractor.Widen | src/table_extractor.rs:337-343 | widening by a row gives as many widths as the longer of the widths and the row |
| TableExtractor.Padded | src/table_extractor.rs:347-349 | padding keeps the number of columns and makes every width at least two |
| TableExtractor.RawWidthsBound | src/table_extractor.rs:335-344 | there is a width per column of the widest row; every cell's byte length is at most its column's width, and each width is the byte length of some cell in that column |
| TableExtractor.ComputeColumnWidths | src/table_extractor.rs:335-349 | the width loops compute, per column, the largest byte length in it plus two |
| TableExtractor.WidenBy | src/table_extractor.rs:337-343 | a new column takes the cell's byte length and an existing one the larger of the two |
| TableExtractor.TextsFit | src/table_extractor.rs:376-380 | with widths from byte lengths every text fits its column, so the truncation never cuts anything |
| TableExtractor.FitsShorter | src/table_extractor.rs:376-380 | texts no longer than ones that fit also fit |
| TableExtractor.TableToGrid | src/table_extractor.rs:327-396 | no rows give no lines; otherwise the border, a line per row and the same border again, every line as long as the first, with no text truncated |
| TableExtractorV2.DetectTablesFromSegmentsFast | src/table_extractor_v2.rs:90-172 | fewer than four segments give no tables; every table found is built from at least two consecutive rows that the alignment test accepts, each of two cells or more, with column counts differing by at most one from row to row |
| TableExtractorV2.ScanRow | src/table_extractor_v2.rs:120-162 | one turn of the row loop keeps the scan invariant: the current run is a suffix of the rows seen, its last row's count is remembered, and every table emitted so far comes from such a run |
| TableExtractorV2.ExtendRun | src/table_extractor_v2.rs:124-140 | a row of two cells or more that continues the run joins it; at three rows a likely table is emitted and the run restarts, keeping the scan invariant |
| TableExtractorV2.RunGrows | src/table_extractor_v2.rs:124-128 | a row of two cells or more whose count differs by at most one from the run's last row extends the run and it stays a table run |
| TableExtractorV2.CloseRun | src/table_extractor_v2.rs:141-169 | ending a run adds its table exactly when it has two rows or more and passes the alignment test; every table still comes from a run |
| TableExtractorV2.RunTable | src/table_extractor_v2.rs:131-139 | a table built from two or more consecutive rows forming an accepted run is one the detector may report |
| TableExtractorV2.CreateTableFromRowsFast | src/table_extractor_v2.rs:207-250 | no table exactly when there are no rows; otherwise cell [i][j] has segment [i][j]'s text, row i and column j |
| TableExtractorV2.Trimmed | src/table_extractor_v2.rs:267 | trimming keeps the number of rows, and each row is its cells with their texts trimmed |
| TableExtractorV2.TrimRow | src/table_extractor_v2.rs:267 | a trimmed row keeps its cells' indices and changes only their texts, to the trimmed texts |
| TableExtractorV2.MaxLenTrimmed | src/table_extractor_v2.rs:256-258 | trimming does not change the number of slots per Markdown row |
| TableExtractorV2.TableToMarkdown | src/table_extractor_v2.rs:253-297 | the Markdown is the first extractor's Markdown of the trimmed texts with as many slots as the widest row has cells; it is empty exactly when the table has no rows |
| TableExtractorV2.SameMarkdownWhenTrimmed | src/table_extractor_v2.rs:253-297 | on a table whose texts are already trimmed both extractors write the same Markdown |
| TableExtractorV2.TableToGrid | src/table_extractor_v2.rs:300-369 | no rows give no lines; otherwise the border from the untrimmed byte lengths, a line per row of trimmed texts and the same border again, every line as long as the border |
| TableExtractorV2.TrimmedFit | src/table_extractor_v2.rs:344-356 | a trimmed text fits the column sized by its untrimmed byte length, so the truncation never cuts anything |
| TableExtractorV3.Columns | src/table_extractor_v3.rs:189 | a row's column positions are its segments' `x` values, one per segment, in order |
| TableExtractorV3.DetectTablesAdvanced | src/table_extractor_v3.rs:128-149 | fewer than four segments give no tables; every table returned is the one built from some region of the clustered rows |
| TableExtractorV3.FindTableRegions | src/table_extractor_v3.rs:172-218 | every region returned is a run of at least two consecutive rows, each of at least two segments |
| TableExtractorV3.ScanRow | src/table_extractor_v3.rs:177-210 | one turn of the region loop keeps the scan invariant: the current region is a run of wide rows ending at the row just seen, and every region kept so far is a region |
| TableExtractorV3.GrowRegion | src/table_extractor_v3.rs:191-199 | adding the next row of two segments or more extends the run of wide rows |
| TableExtractorV3.FlushRegion | src/table_extractor_v3.rs:200-215 | ending the current region keeps it exactly when it has two rows or more |
| TableExtractorV3.FirstRightOf | src/table_extractor_v3.rs:351-361 | the result is the index of the first boundary strictly right of the centre; every boundary before it is at or left of the centre |
| TableExtractorV3.FindColumnIndex | src/table_extractor_v3.rs:351-361 | the column index is one less than the first boundary right of the segment's centre, saturating at 0, and always below max(1, number of boundaries) |
| TableExtractorV3.FirstRightOfIs | src/table_extractor_v3.rs:351-361 | the first boundary right of the centre is the only index meeting both conditions |
| TableExtractorV3.CenterInColumn | src/table_extractor_v3.rs:351-361 | with increasing boundaries and the centre at or past the first, the segment's column contains its centre: its left boundary is at or before it and the next one, if any, is after it |
| TableExtractorV3.RowColumns | src/table_extractor_v3.rs:372-374 | every cell's column index in the row is below the row's column count |
| TableExtractorV3.MaxColumns | src/table_extractor_v3.rs:372-375 | `max_cols` is above every cell's column index |
| TableExtractorV3.MaxColumnsAttained | src/table_extractor_v3.rs:372-375 | when `max_cols` is positive some cell sits in column `max_cols - 1` |
| TableExtractorV3.Placed | src/table_extractor_v3.rs:381-387 | each row gets exactly `max_cols` slots |
| TableExtractorV3.LaterCellWins | src/table_extractor_v3.rs:383-387 | a slot shows the trimmed text of the last cell with that column index |
| TableExtractorV3.UnnamedColumnEmpty | src/table_extractor_v3.rs:381-387 | a column that no cell names stays empty |
| TableExtractorV3.PlacedFrom | src/table_extractor_v3.rs:381-387 | each slot is empty or the trimmed text of a cell with that column index |
| TableExtractorV3.PlaceCells | src/table_extractor_v3.rs:381-387 | the cell loop fills the slots as the placement function says |
| TableExtractorV3.PlacedRows | src/table_extractor_v3.rs:379-387 | every row gets its placed slots, one entry per row |
| TableExtractorV3.TableToMarkdown | src/table_extractor_v3.rs:364-407 | the Markdown is empty exactly when the table has no rows; otherwise the first row, the separator and the other rows, each cell in the slot of its column index |
| TableExtractorV3.PushTexts | src/table_extractor_v3.rs:389-395 | one row line is '\|', a " text \|" per slot and a line break |
| TableExtractorV3.PlacedNoBreak | src/table_extractor_v3.rs:383-387 | cell texts without a character leave every slot without it |
| TableExtractorV3.MarkdownV3Shape | src/table_extractor_v3.rs:364-407 | read back line by line the Markdown is the first row, the separator and the other rows, and every line has `max_cols` slots |
| TableExtractorV3.WidenRow | src/table_extractor_v3.rs:427-433 | widening by a row keeps the number of columns |
| TableExtractorV3.RawWidthsV3 | src/table_extractor_v3.rs:425-433 | there is one width per column index below `max_cols` |
| TableExtractorV3.WidenRowBounds | src/table_extractor_v3.rs:427-433 | widening never narrows a column and makes each named column hold its cell's byte length plus two |
| TableExtractorV3.RawWidthsV3Bounds | src/table_extractor_v3.rs:425-433 | every width before scaling is at least 3 and holds the byte length plus two of every cell in that column |
| TableExtractorV3.ScaledWidth | src/table_extractor_v3.rs:441-442 | a scaled width is never below 3 |
| TableExtractorV3.FinalWidthsV3 | src/table_extractor_v3.rs:436-444 | the width step keeps the number of columns |
| TableExtractorV3.ScaledNarrows | src/table_extractor_v3.rs:439-443 | scaling by a factor at most 1 never widens a column of width 3 or more |
| TableExtractorV3.ColumnWidthsV3 | src/table_extractor_v3.rs:425-444 | the width loops give a width per column index, each at least 3 whether or not the table was scaled |
| TableExtractorV3.WidenByRow | src/table_extractor_v3.rs:428-432 | the inner loop over a row's cells widens the columns as the widening function says |
| TableExtractorV3.PlacedFit | src/table_extractor_v3.rs:457-470 | every placed text fits its unscaled column, so no truncation happens without scaling |
| TableExtractorV3.TableToGrid | src/table_extractor_v3.rs:410-484 | no rows give no lines; otherwise a border, a line per row with each cell in the column of its index, and the border again, all of one length |
| TableExtractorV3.PlacedRowsOf | src/table_extractor_v3.rs:455-465 | the row loop fills the slots of every row as the placement function says |
| TensorUtils.DefaultConfig | src/ml/tensor_utils.rs:12-20 | the default windows are 512 tokens overlapping by 64, and the stride is exactly the window less the overlap (448) |
| TensorUtils.NextStartInLoop | src/ml/tensor_utils.rs:76-82 | when the stride is shorter than the window and the text longer than one window, a turn of the loop from a start inside the text lands on another start inside the text |
| TensorUtils.ChunkLoopNeverEnds | src/ml/tensor_utils.rs:65-83 | under those conditions the start stays below the text length after any number of turns, so the loop as written never ends |
| TensorUtils.DefaultLoopsAt513 | src/ml/tensor_utils.rs:65-83 | with the default configuration and 513 characters the start goes 0, 1, 1, 1, … forever |
| TensorUtils.CreateChunks | src/ml/tensor_utils.rs:45-92 | a text of at most one window is the single chunk [0, total) with count 1; otherwise the chunks are non-empty windows of at most `max_tokens` characters from 0 to the end, each starting after the last and no later than its end, each holding its slice, its index and the chunk count |
| TensorUtils.Windows | src/ml/tensor_utils.rs:61-83 | the window loop, stopped after the chunk that reaches the end of the text, gives covering windows of at most `max_tokens` characters from 0 to the end |
| TensorUtils.SetTotalChunks | src/ml/tensor_utils.rs:85-89 | every chunk learns the number of chunks and nothing else changes |
| TensorUtils.CreateAttentionMask | src/ml/tensor_utils.rs:146-172 | the mask is `seq_len` by `seq_len`; an entry is 0 exactly where a later chunk hides its leading overlap from the other tokens or an earlier chunk hides its trailing overlap from the tokens before it, and 1 elsewhere |
| TensorUtils.HideLeadingOverlap | src/ml/tensor_utils.rs:151-158 | the first pair of loops zeroes exactly the entries [j, i] with i < overlap <= j and leaves the others |
| TensorUtils.HideTrailingOverlap | src/ml/tensor_utils.rs:161-169 | the second pair of loops zeroes exactly the entries [j, i] with j < start <= i and leaves the others |
| TensorUtils.MaskIsBinary | src/ml/tensor_utils.rs:146-172 | every mask entry is 0 or 1 |
| TensorUtils.SingleChunkSeesAll | src/ml/tensor_utils.rs:151-169 | a document that is one chunk attends everywhere |
| TensorUtils.TokenSeesItself | src/ml/tensor_utils.rs:151-169 | no token is ever hidden from itself |
| TensorUtils.CacheAfter | src/ml/tensor_utils.rs:313-319 | the new pair is always last; up to 100 entries nothing is evicted, beyond that exactly the oldest entry goes |
| TensorUtils.Lookup | src/ml/tensor_utils.rs:322-326 | nothing exactly when no entry has the key; otherwise the tensor of the oldest entry with the key |
| TensorUtils.CacheBound | src/ml/tensor_utils.rs:313-319 | the cache never holds more than 101 entries, and once it holds 101 it keeps 101 |
| TensorUtils.RecacheKeepsLookup | src/ml/tensor_utils.rs:313-326 | caching a key already cached does not change what is found for it, unless the eviction removes that key's oldest entry |
| TensorUtils.NewKeyFound | src/ml/tensor_utils.rs:313-326 | a key cached for the first time is then found with its tensor |
| TensorUtils.MemoryManager.constructor | src/ml/tensor_utils.rs:281-288 | a new manager has an empty cache |
| TensorUtils.MemoryManager.Cache | src/ml/tensor_utils.rs:313-319 | the cache becomes the eviction-then-append of the old cache and keeps its bound |
| TensorUtils.MemoryManager.GetCached | src/ml/tensor_utils.rs:322-326 | nothing exactly when no cached entry has the key; otherwise the tensor of the oldest entry that does |
| MacosServices.HandleServiceRequest | src/macos_services.rs:60-67 | "transform", "search" and "markdown" give the matching service's result; any other action hands the text back unchanged |
| MacosServices.UpperFixed | src/macos_services.rs:73 | text equals its upper-case form exactly when it holds no lower-case letter |
| MacosServices.LowerFixed | src/macos_services.rs:75 | text equals its lower-case form exactly when it holds no upper-case letter |
| MacosServices.TransformText | src/macos_services.rs:70-80 | text with no lower-case letter is lowered (text with no letters comes back unchanged), lower-case text has its words capitalised, and mixed-case text is raised |
| MacosServices.UpperHasNoLower | src/macos_services.rs:73-78 | upper-cased text holds no lower-case letter, and holds an upper-case one exactly when the original held a letter |
| MacosServices.LowerHasNoUpper | src/macos_services.rs:73-76 | lower-cased text holds no upper-case letter, and holds a lower-case one exactly when the original held a letter |
| MacosServices.LowerOfUpper | src/macos_services.rs:73-78 | lowering upper-cased text is lowering the original |
| MacosServices.TransformCycle | src/macos_services.rs:70-80 | repeated transforms of mixed-case text cycle: upper case, then lower case, then capitalised words |
| MacosServices.CapitalizeAll | src/macos_services.rs:84-90 | each word is mapped to its capitalised form, one for one |
| MacosServices.CapitalizeKeepsWord | src/macos_services.rs:84-90 | capitalising a word keeps it a non-empty run without whitespace |
| MacosServices.CapitalizedWords | src/macos_services.rs:82-93 | splitting the result again gives the input's words, each capitalised; the word count is unchanged |
| MacosServices.JoinSingleSpaced | src/macos_services.rs:91-92 | words joined by single spaces have no leading, trailing or repeated whitespace |
| MacosServices.CapitalizeWordsSpacing | src/macos_services.rs:82-93 | the result never has leading, trailing or repeated whitespace |
| MacosServices.MdLines | src/macos_services.rs:107-114 | each input line is converted on its own, one output line per input line |
| MacosServices.ConvertToMarkdown | src/macos_services.rs:102-117 | the loop converts line by line, ending every line with a line break |
| MacosServices.MdLineNoBreak | src/macos_services.rs:108-112 | a converted line holds no line break when the input line holds none |
| MacosServices.MarkdownLineCount | src/macos_services.rs:102-117 | the output has exactly one line break per line of the input |
| MacosServices.MarkdownReadsBack | src/macos_services.rs:102-117 | for text without carriage returns, the output's lines are the input's lines, headings ("# ") as they were, other non-empty lines wrapped in "**", empty lines empty |
| MacosServices.ChainEscapes | src/macos_services.rs:151 | the three replacements, backslash first, escape every backslash and brace exactly once |
| MacosServices.TextToRtf | src/macos_services.rs:143-155 | the RTF is the header, the optional metadata comment, the font selection, the escaped body and the trailer; it starts with the header and ends with the trailer |
| MacosServices.EscapeRoundTrip | src/macos_services.rs:151 | reading the escapes back gives the original text: escaping loses nothing |
| MacosServices.EscapeBackslashes | src/macos_services.rs:151 | each backslash of the text becomes two and each brace gains one; no escape is doubled |
| MacosServices.EscapedBalanced | src/macos_services.rs:151 | the escaped body is complete and does not change the group nesting |
| MacosServices.HeaderNesting | src/macos_services.rs:144 | the header leaves exactly the document group open |
| MacosServices.TrailerNesting | src/macos_services.rs:152 | the trailer closes one group |
| MacosServices.MetaGroupNesting | src/macos_services.rs:146-148 | the metadata comment group nests exactly as its unescaped contents do |
| MacosServices.RtfNesting | src/macos_services.rs:143-155 | without metadata the document is one balanced group; with metadata its net nesting is the metadata's, since the metadata is not escaped |
| MacosServices.BraceMetadataUnbalances | src/macos_services.rs:146-148 | metadata "}" leaves the document one group short |

## Left out

- Terminal I/O is not modelled: drawing (`render`, `draw_scrollbars` output), `read_input`/`read_key`, the debug log writes in `kitty_native.rs`, and the validator's `report` and context strings on stderr.
- Floating-point geometry is not modelled. That covers PDF character clustering, column and table detection (`is_likely_table`, y-row grouping, `cluster_into_rows`, `columns_align`, `merge_column_positions`, `build_table_from_region`, `determine_column_boundaries`), the scrollbar thumb sizes, and the `handle_*_scrollbar_click` ratios. Where the integer code needs their results, they are parameters: the cells of a line, a line's row and x ratio, the alignment test.
- Segment and table bounding boxes (`f32`) travel as reals or are dropped, and the v2 `as i32` casts of positions are not modelled.
- These calls are outside the model: the pdfium, ferrules and ML model calls, tensor construction and device transfer (`prepare_*_tensor`), and `merge_chunk_outputs`.
- Persistence and OS integration are not modelled: the note database and `auto_save_note`, osascript, pbcopy, xattr, `export_to_pasteboard`, `register_services`, `handle_drop` and `enable_quicklook`. The `ServicesIntegration` fields only feed those calls.
- `to_selection` of `block_selection.rs` is not modelled; it builds an editor library selection.
- Undo: `InsertChar` and `DeleteChar` are not modelled, because the `shift_right` and `shift_left` helpers they call are not defined in the source.
- Keyboard: the note, title and clipboard arms of `handle_input` (src/keyboard.rs:8-66, 89-153, 162-298) are not modelled. They are persistence and clipboard I/O.
- Keyboard: the handler runs on a `ChunkedGrid` with an explicit cursor, because `app.grid` and `app.cursor_row` are not fields of `App`. `KeyCode` has no `Delete`, so the Delete arm (`Keyboard.DeleteOn`, `Keyboard.Editor.DeleteForward`) is modelled but no key event reaches it.
- DualPane: the app mode and the active pane are parameters, and a history commit is a log append of the revision. The editor library's own transaction and history internals are not modelled.
- Undo.Command.Execute requires `CanExecute`, which leaves out a `DeleteLine` at row 0 with a char to append. There the source's `row - 1` (src/undo.rs:154) panics in a debug build and wraps to `usize::MAX` in a release build. Neither outcome is modelled.
- Undo.Command.Undo requires `CanUndo`, which leaves out a `DeleteLine` at row 0 with `prev_line_length` below 1000. There the source's `row - 1` (src/undo.rs:207) panics or wraps in the same way. Neither outcome is modelled.
- Undo.ExecuteDeleteLine requires row > 0 when there is a char to append (the `row - 1` underflow of src/undo.rs:154 is not modelled).
- Undo.RemoveLine has the same requirement as Undo.ExecuteDeleteLine, for the same reason.
- Undo.DeleteLineCell has the same requirement as Undo.ExecuteDeleteLine, for the same reason.
- Undo.UndoDeleteLine requires row > 0 when some column below 1000 is cleared (the `row - 1` underflow of src/undo.rs:207 is not modelled).
- Undo.RestoreLine has the same requirement as Undo.UndoDeleteLine, for the same reason.
- Undo.UndoDeleteLineCell has the same requirement as Undo.UndoDeleteLine, for the same reason.
- Undo.UndoStack.Undo requires the top command to satisfy `CanUndo`, so it inherits the gap of Undo.Command.Undo.
- Undo.UndoStack.Redo requires the top of the redo stack to satisfy `CanExecute`, so it inherits the gap of Undo.Command.Execute.
- ContentExtractor.IsNumeric tests letters with `IsAlphabetic`, which agrees with `char::is_alphabetic` below U+0100 (ASCII and Latin-1 letters) only. A letter above U+00FF, such as the '年' of "2024年", is not seen as a letter, so such a cell counts as numeric here and is right-aligned and left uncut. In the source it is text.
- ContentExtractor.CellStep inherits that gap through `CellStart` and `CellText`.
- ContentExtractor.LineState inherits the same gap through `CellStep`.
- ContentExtractor.ColumnRow inherits the same gap through `LineState`.
- ContentExtractor.MapToGrid inherits the same gap through `ColumnRow`.
- ContentExtractor.MapCell inherits the same gap through `CellStep`.
- Viewports.Viewport.VisibleRange adds `scroll_x + view_width` and `scroll_y + view_height` as unbounded naturals. The source adds in `usize`, and its overflow is not modelled.
- Rope: a line ends only at '\n'. ropey also ends lines at "\r\n", a lone '\r' and the other Unicode line separators. Those are not modelled.
- Keyboard and DualPane: the updates of `app.needs_redraw` and `app.status_message` are not modelled. They only feed the drawing.
- Renderer.TextRenderer.ScrollDown requires that `scroll_y + lines` fits in `u16`. The source panics there in a debug build and wraps in a release build.
- Renderer.TextRenderer.ScrollRight requires that `scroll_x + cols` fits in `u16`, for the same reason.
- Validator.ExpectedAxisIsClampedSum states the clamped sum only where the `i32` arithmetic does not overflow. The functions themselves model the casts.
- Validator.ViewportIssueIff, likewise, assumes no `i32` overflow.
- Validator.CursorIssueIff assumes no `usize` overflow. `ValidateClickToCursor` models the wrapping add.
- ContentExtractor.SimpleTextFallback requires a positive width unless the text is empty or at most one row tall, because the source indexes past the row there and panics.
- ContentExtractor: `render_table_on_grid` is not modelled. `split_line_by_columns` arrives as the cells of a line.
- TensorUtils.CreateChunks models the loop with the evident stop after the window that reaches the end of the text. The loop as written never ends (see Findings). It requires `0 < stride <= max_tokens`.
- TensorUtils.CreateAttentionMask requires a positive chunk count, and for a chunk that is not the last at least `overlap_tokens` characters. Otherwise the source's unsigned subtractions underflow.
- TensorUtils: tensors are opaque values, and the cache's device memory accounting is not modelled.
- MacosServices: case mapping is ASCII only. The service results are always `Ok`, so `Result` is not modelled. `SearchText` is the constant reply and has no contract of its own.
- Table extractors: TableExtractor.TableToGrid, TableExtractorV2.TableToGrid and TableExtractorV3.TableToGrid model the path that does not scale widths down. For v3, only the width floor of the scaling path (`TableExtractorV3.ScaledWidth`) is modelled.
- Chunker lengths: `usize` overflow of character counts and indices is not modelled. Lengths are unbounded naturals except where the code casts them.
- OCR, the logger, the debug capture and the multi-threaded extraction passes are outside the model.

## Findings

| source | as written | input that shows it | evidently intended | confidence | as-written member | corrected member |
|---|---|---|---|---|---|---|
| src/ml/tensor_utils.rs:64-82 | when the stride is shorter than the window, the last window's start is reset to `total - max_tokens` on every turn, so `while start < total_chars` never ends | 513 characters with the default 512/64/448 configuration: the start goes back to 1 on every turn | stop after the window that ends at the end of the text | not executed | TensorUtils.ChunkLoopNeverEnds, TensorUtils.DefaultLoopsAt513 | TensorUtils.CreateChunks |
| src/chunked_grid.rs:110-116 | the chunk index is cast to `i32`, so row indices 2^37 apart land in the same chunk at the same local cell | rows 0x20_0000_0000 and 0 | distinct positions map to distinct (chunk, local) pairs | not executed | Chunked.PosToChunkAsWrittenAliases | Chunked.PosToChunkRoundTrip |
| src/text_filter.rs:26-57 | an ESC drops only the one character after it, so the parameters and final letter of a CSI sequence stay, against the unit test at line 80 | "Hello\x1B[31mRed\x1B[0mWorld" gives "Hello31mRed0mWorld" | a whole CSI sequence is removed, giving "HelloRedWorld" | not executed | TextFilter.StripExampleColours | TextFilter.IntendedExampleColours |
| src/text_matrix.rs:8-11 | `trim_end` runs on the whole result, so a whitespace-only row also removes the previous '\n' and its line vanishes | ["a", " ", "b"] gives "a\nb\n" | trim each row alone, giving one line per row: "a\n\nb\n" | not executed | TextMatrix.BlankMiddleRowLost | TextMatrix.IntendedKeepsEveryRow |
| src/keyboard.rs:547-562 | the scan stops after 101 spaces past the cursor + 100, but the shift still moves the last scanned space one column right, over the next cell | an 'x' at (0, 102) of an otherwise empty grid, then a char typed at (0, 0): the 'x' becomes a space | shift only the characters the scan read, dropping nothing | not executed | Keyboard.TypingAtOriginLosesX | Keyboard.IntendedTypingKeepsEveryChar |
| src/keyboard.rs:380-386 | Backspace at column 0 indexes `lines[cursor_row - 1]` without checking that the line exists | cursor at (2, 0) on an empty grid panics | read a missing line above as "" | not executed | Keyboard.BackspaceBelowEmptyGridPanics | Keyboard.IntendedBackspaceAgrees |
| src/dual_pane_keyboard.rs:110-148 | Backspace checks the offset against the whole rope, not against the line, and at column 0 it takes the previous line's length less one, as if it ended in '\n' | rope "ab\ncd" with the cursor at (0, 4): the 'c' of the next line is removed | delete only a character of the cursor's own line, or join with the line above | not executed | DualPane.BackspaceRemovesFromNextLine | DualPane.IntendedBackspaceStaysInLine |
