/**
 * The click coordinate pipeline: which pane a screen column falls in, where
 * that pane starts, and how a pane-relative position plus the pane's viewport
 * offset gives a document position.  The application state the pipeline reads
 * (the mode, the divider column, the two renderers' viewports) is the `Layout`.
 */
module Coordinates {
  import opened Wrappers
  import opened Ints

  datatype Pane = NotesList | NotesEditor | Extraction | Pdf

  /** What `CoordinateSystem` reads from the application and the terminal. */
  datatype Layout = Layout(
    notesMode: bool,                       // app_mode == NotesEditor
    splitPosition: Option<u16>,            // the PDF/extraction divider, when set
    termWidth: u16,
    notesViewport: Option<(usize, usize)>, // notes renderer's (viewport_x, viewport_y)
    editViewport: Option<(usize, usize)>)  // extraction renderer's (viewport_x, viewport_y)

  datatype Click = Click(
    pane: Pane,
    paneRelative: (nat, nat),
    document: (usize, usize),
    grid: (usize, usize))

  const NOTES_LIST_WIDTH: u16 := 4

  /** The divider column in PDF mode. */
  function Split(l: Layout): u16 {
    if l.splitPosition.Some? then l.splitPosition.value else l.termWidth / 2
  }

  /** First column of the extraction pane in notes mode. */
  function NotesExtractionStart(l: Layout): u16 {
    NOTES_LIST_WIDTH + (if l.termWidth >= 4 then l.termWidth - 4 else 0) / 2
  }

  /** Which pane screen column `x` falls in; `None` on the PDF-mode divider. */
  function WhichPane(l: Layout, x: u16): Option<Pane> {
    if l.notesMode then
      if x < NOTES_LIST_WIDTH then Some(NotesList)
      else if x < NotesExtractionStart(l) then Some(NotesEditor)
      else Some(Extraction)
    else
      var split := Split(l);
      if x < split then Some(Pdf)
      else if x == split then None
      else Some(Extraction)
  }

  /** First screen column of `pane`. */
  function PaneStartX(l: Layout, pane: Pane): u16 {
    match pane
    case NotesList => 0
    case NotesEditor => NOTES_LIST_WIDTH
    case Extraction =>
      if l.notesMode then NotesExtractionStart(l) else WrapU16(Split(l) + 1)
    case Pdf => 0
  }

  /** The viewport offset of `pane`'s renderer; `None` when that renderer is absent. */
  function ViewportOffset(l: Layout, pane: Pane): Option<(usize, usize)> {
    match pane
    case NotesEditor => l.notesViewport
    case Extraction => l.editViewport
    case _ => Some((0, 0))
  }

  /** Column `x` relative to the start of `pane`, clamped at 0 on its left. */
  function PaneX(l: Layout, x: u16, pane: Pane): nat {
    var start := PaneStartX(l, pane);
    if x >= start then x - start else 0
  }

  function ScreenToPane(l: Layout, x: u16, y: u16, pane: Pane): Option<(nat, nat)> {
    Some((PaneX(l, x, pane), y))
  }

  function PaneToDocument(l: Layout, px: usize, py: usize, pane: Pane): Option<(usize, usize)> {
    match ViewportOffset(l, pane)
    case None => None
    case Some(v) => Some((SatAddUsize(px, v.0), SatAddUsize(py, v.1)))
  }

  function ScreenToDocument(l: Layout, x: u16, y: u16): Option<(usize, usize)> {
    match WhichPane(l, x)
    case None => None
    case Some(pane) =>
      match ScreenToPane(l, x, y, pane)
      case None => None
      case Some(pc) => PaneToDocument(l, pc.0, pc.1, pane)
  }

  /** `process_click`: the document position uses plain `usize` additions. */
  function ProcessClick(l: Layout, x: u16, y: u16): Option<Click> {
    match WhichPane(l, x)
    case None => None
    case Some(pane) =>
      var px := PaneX(l, x, pane);
      match ViewportOffset(l, pane)
      case None => None
      case Some(v) =>
        var doc := (WrapUsize(px + v.0), WrapUsize(y + v.1));
        Some(Click(pane, (px, y), doc, doc))
  }

  // ---------------------------------------------------------------------
  // Reference intervals: pane `p` covers columns [Lo(p), Hi(p))

  /** The columns the layout assigns to `p`, as a half-open interval on `nat`. */
  function Interval(l: Layout, p: Pane): (nat, nat) {
    var rem := if l.termWidth >= 4 then l.termWidth - 4 else 0;
    if l.notesMode then
      match p
      case NotesList => (0, 4)
      case NotesEditor => (4, 4 + rem / 2)
      case Extraction => (4 + rem / 2, U16_MAX + 1)
      case Pdf => (0, 0)
    else
      var split := if l.splitPosition.Some? then l.splitPosition.value else l.termWidth / 2;
      match p
      case Pdf => (0, split)
      case Extraction => (split + 1, U16_MAX + 1)
      case _ => (0, 0)
  }

  predicate InPane(l: Layout, x: u16, p: Pane) {
    Interval(l, p).0 <= x < Interval(l, p).1
  }

  /** `which_pane` names exactly the pane whose interval holds `x`. */
  lemma WhichPaneIsInterval(l: Layout, x: u16, p: Pane)
    ensures WhichPane(l, x) == Some(p) <==> InPane(l, x, p)
  {
  }

  /** In notes mode every column belongs to some pane. */
  lemma NotesModeTotal(l: Layout, x: u16)
    requires l.notesMode
    ensures WhichPane(l, x).Some?
    ensures WhichPane(l, x).value != Pdf
  {
  }

  /** In PDF mode only the divider column belongs to no pane. */
  lemma PdfModeDividerOnly(l: Layout, x: u16)
    requires !l.notesMode
    ensures WhichPane(l, x) == None <==> x == Split(l)
    ensures WhichPane(l, x) == Some(Pdf) <==> x < Split(l)
    ensures WhichPane(l, x) == Some(Extraction) <==> x > Split(l)
  {
  }

  /** The pane a column falls in starts at or before that column, so the clamp never fires. */
  lemma PaneStartsBeforeClick(l: Layout, x: u16)
    requires WhichPane(l, x).Some?
    ensures PaneStartX(l, WhichPane(l, x).value) <= x
    ensures PaneX(l, x, WhichPane(l, x).value) == x - PaneStartX(l, WhichPane(l, x).value)
  {
    var p := WhichPane(l, x).value;
    if p == Extraction && !l.notesMode {
      assert x > Split(l);
      assert WrapU16(Split(l) + 1) == Split(l) + 1;
    }
  }

  /** The start column of each pane is its reference interval's lower end. */
  lemma PaneStartIsIntervalStart(l: Layout, x: u16)
    requires WhichPane(l, x).Some?
    ensures PaneStartX(l, WhichPane(l, x).value) == Interval(l, WhichPane(l, x).value).0
  {
    var p := WhichPane(l, x).value;
    if p == Extraction && !l.notesMode {
      assert x > Split(l);
      assert WrapU16(Split(l) + 1) == Split(l) + 1;
    }
  }

  /**
   * `process_click` returns a click exactly when the column is in a pane whose
   * renderer is present; its pane is `which_pane`'s, its row is the screen row
   * unchanged, and its grid position is its document position.
   */
  lemma ProcessClickShape(l: Layout, x: u16, y: u16)
    ensures ProcessClick(l, x, y).Some? <==>
      WhichPane(l, x).Some? && ViewportOffset(l, WhichPane(l, x).value).Some?
    ensures ProcessClick(l, x, y).Some? ==>
      var c := ProcessClick(l, x, y).value;
      Some(c.pane) == WhichPane(l, x) && c.paneRelative.1 == y &&
      c.paneRelative.0 == x - PaneStartX(l, c.pane) && c.grid == c.document
  {
    if WhichPane(l, x).Some? {
      PaneStartsBeforeClick(l, x);
    }
  }

  /** The list and PDF panes have no renderer to scroll: their offset is (0, 0). */
  lemma UnscrolledPanes(l: Layout, p: Pane, px: usize, py: usize)
    requires p == NotesList || p == Pdf
    ensures ViewportOffset(l, p) == Some((0, 0))
    ensures PaneToDocument(l, px, py, p) == Some((px, py))
  {
  }

  /** The pane-relative position plus the viewport offset, with unbounded addition. */
  function DocumentSum(c: Click, v: (usize, usize)): (nat, nat) {
    (c.paneRelative.0 + v.0, c.paneRelative.1 + v.1)
  }

  /**
   * The document position is the pane-relative position plus the viewport
   * offset, added once; `screen_to_document` agrees with `process_click`
   * exactly when neither sum leaves `usize`.
   */
  lemma ScreenToDocumentAgrees(l: Layout, x: u16, y: u16)
    ensures ScreenToDocument(l, x, y).Some? <==> ProcessClick(l, x, y).Some?
    ensures ProcessClick(l, x, y).Some? ==>
      var c := ProcessClick(l, x, y).value;
      var sum := DocumentSum(c, ViewportOffset(l, c.pane).value);
      (sum.0 <= USIZE_MAX && sum.1 <= USIZE_MAX <==> ScreenToDocument(l, x, y) == Some(sum))
    ensures ProcessClick(l, x, y).Some? ==>
      var c := ProcessClick(l, x, y).value;
      var sum := DocumentSum(c, ViewportOffset(l, c.pane).value);
      (sum.0 <= USIZE_MAX && sum.1 <= USIZE_MAX ==> ScreenToDocument(l, x, y) == Some(c.document))
  {
    if ProcessClick(l, x, y).Some? {
      var c := ProcessClick(l, x, y).value;
      var v := ViewportOffset(l, c.pane).value;
      PaneStartsBeforeClick(l, x);
      assert c.paneRelative.0 <= U16_MAX;
      if c.paneRelative.0 + v.0 <= USIZE_MAX && c.paneRelative.1 + v.1 <= USIZE_MAX {
        assert WrapUsize(c.paneRelative.0 + v.0) == c.paneRelative.0 + v.0;
        assert WrapUsize(c.paneRelative.1 + v.1) == c.paneRelative.1 + v.1;
      }
    }
  }
}
