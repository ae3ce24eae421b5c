/**
 * The scrollable viewport with its two always-shown scrollbars: the stored
 * dimensions and scroll position, the visible range, where `draw_scrollbars`
 * paints its cells (1-based terminal positions), and the 0-based mouse
 * hit-tests for those cells.  Scrolling is unclamped: `clamp_scroll` does
 * nothing.
 */
module Viewports {
  import opened Ints

  class Viewport {
    var viewWidth: usize
    var viewHeight: usize
    var contentWidth: usize
    var contentHeight: usize
    var scrollX: usize
    var scrollY: usize
    var yOffset: usize

    /** A new viewport leaves one row for the title bar and starts unscrolled over no content. */
    constructor (width: u16, height: u16)
      ensures viewWidth == width && viewHeight == height
      ensures contentWidth == 0 && contentHeight == 0
      ensures scrollX == 0 && scrollY == 0 && yOffset == 1
    {
      viewWidth := width;
      viewHeight := height;
      contentWidth := 0;
      contentHeight := 0;
      scrollX := 0;
      scrollY := 0;
      yOffset := 1;
    }

    method SetYOffset(offset: usize)
      modifies this`yOffset
      ensures yOffset == offset
    {
      yOffset := offset;
    }

    /** `resize`: only the view dimensions change. */
    method Resize(width: u16, height: u16)
      modifies this`viewWidth, this`viewHeight
      ensures viewWidth == width && viewHeight == height
    {
      viewWidth := width;
      viewHeight := height;
      ClampScroll();
    }

    /** `set_content_size`: only the content dimensions change. */
    method SetContentSize(width: usize, height: usize)
      modifies this`contentWidth, this`contentHeight
      ensures contentWidth == width && contentHeight == height
    {
      contentWidth := width;
      contentHeight := height;
      ClampScroll();
    }

    /** `set_scroll` stores the position as given, however far past the content it lies. */
    method SetScroll(x: usize, y: usize)
      modifies this`scrollX, this`scrollY
      ensures scrollX == x && scrollY == y
    {
      scrollX := x;
      scrollY := y;
      ClampScroll();
    }

    /** `clamp_scroll` deliberately changes nothing. */
    method ClampScroll()
    {
    }

    /**
     * `visible_range`: (start_x, start_y, end_x, end_y).  Each end is the
     * scroll position plus the view size, cut at the content size, so it
     * lies before the start once the view is scrolled past the content.
     */
    function VisibleRange(): (r: (usize, usize, nat, nat))
      reads this
      ensures r.0 == scrollX && r.1 == scrollY
      ensures r.2 <= contentWidth && r.2 <= scrollX + viewWidth
      ensures r.2 == contentWidth || r.2 == scrollX + viewWidth
      ensures r.3 <= contentHeight && r.3 <= scrollY + viewHeight
      ensures r.3 == contentHeight || r.3 == scrollY + viewHeight
      ensures r.2 < r.0 <==> scrollX > contentWidth
      ensures r.3 < r.1 <==> scrollY > contentHeight
    {
      var endX := if scrollX + viewWidth <= contentWidth then scrollX + viewWidth else contentWidth;
      var endY := if scrollY + viewHeight <= contentHeight then scrollY + viewHeight else contentHeight;
      (scrollX, scrollY, endX, endY)
    }

    // -------------------------------------------------------------------
    // Scrollbar cells and hit-tests

    /** The 1-based (row, column) `draw_scrollbars` paints for vertical-bar cell `row`. */
    function VerticalBarCell(row: nat): (nat, nat)
      reads this
    {
      var screenRow: nat := row + yOffset + 1;
      (screenRow, viewWidth)
    }

    /** The 1-based (row, column) `draw_scrollbars` paints for horizontal-bar cell `col`. */
    function HorizontalBarCell(col: nat): (nat, nat)
      reads this
    {
      var screenCol: nat := col + 1;
      (viewHeight + yOffset, screenCol)
    }

    /** `is_click_on_vertical_scrollbar`, with its `usize` and `u16` casts and additions. */
    function OnVerticalScrollbar(x: u16, y: u16): bool
      reads this
    {
      var col := WrapU16(WrapUsize(viewWidth - 1));
      var startRow := WrapU16(yOffset);
      var endRow := WrapU16(startRow + WrapU16(viewHeight));
      x == col && y >= startRow && y < endRow
    }

    /** `is_click_on_horizontal_scrollbar`, with its `usize` and `u16` casts. */
    function OnHorizontalScrollbar(x: u16, y: u16): bool
      reads this
    {
      var row := WrapU16(WrapUsize(viewHeight + yOffset - 1));
      y == row && x < WrapU16(viewWidth)
    }

    /** The view fits the 16-bit mouse coordinates, so no cast or addition wraps. */
    predicate FitsScreen()
      reads this
    {
      1 <= viewWidth <= U16_MAX + 1 && yOffset + viewHeight <= U16_MAX
    }
  }

  /** The vertical hit-test is the rightmost column over the bar's rows. */
  lemma VerticalHitIff(v: Viewport, x: u16, y: u16)
    requires v.FitsScreen()
    ensures v.OnVerticalScrollbar(x, y) <==>
      x == v.viewWidth - 1 && v.yOffset <= y < v.yOffset + v.viewHeight
  {
  }

  /** The horizontal hit-test is the row below the view, across its width. */
  lemma HorizontalHitIff(v: Viewport, x: u16, y: u16)
    requires v.FitsScreen() && v.viewHeight >= 1 && v.viewWidth <= U16_MAX
    ensures v.OnHorizontalScrollbar(x, y) <==>
      y == v.viewHeight + v.yOffset - 1 && x < v.viewWidth
  {
  }

  /**
   * A click hits the vertical bar exactly when `draw_scrollbars` painted the
   * cell under it: the 0-based (x, y) is the painted 1-based cell minus one.
   */
  lemma VerticalPaintedIsHit(v: Viewport, x: u16, y: u16)
    requires v.FitsScreen()
    ensures v.OnVerticalScrollbar(x, y) <==>
      (y >= v.yOffset && y - v.yOffset < v.viewHeight && v.VerticalBarCell(y - v.yOffset) == (y + 1, x + 1))
    ensures forall row: nat :: row < v.viewHeight ==>
      var cell := v.VerticalBarCell(row);
      1 <= cell.0 <= U16_MAX + 1 && 1 <= cell.1 <= U16_MAX + 1 &&
      v.OnVerticalScrollbar(cell.1 - 1, cell.0 - 1)
  {
    VerticalHitIff(v, x, y);
    forall row: nat | row < v.viewHeight
      ensures v.OnVerticalScrollbar(v.VerticalBarCell(row).1 - 1, v.VerticalBarCell(row).0 - 1)
    {
      VerticalHitIff(v, v.viewWidth - 1, row + v.yOffset);
    }
  }

  /** A click hits the horizontal bar exactly when `draw_scrollbars` painted the cell under it. */
  lemma HorizontalPaintedIsHit(v: Viewport, x: u16, y: u16)
    requires v.FitsScreen() && v.viewHeight >= 1 && v.viewWidth <= U16_MAX
    ensures v.OnHorizontalScrollbar(x, y) <==>
      (x < v.viewWidth && v.HorizontalBarCell(x) == (y + 1, x + 1))
    ensures forall col: nat :: col < v.viewWidth ==>
      var cell := v.HorizontalBarCell(col);
      1 <= cell.0 <= U16_MAX + 1 && 1 <= cell.1 <= U16_MAX + 1 &&
      v.OnHorizontalScrollbar(cell.1 - 1, cell.0 - 1)
  {
    HorizontalHitIff(v, x, y);
    forall col: nat | col < v.viewWidth
      ensures v.OnHorizontalScrollbar(v.HorizontalBarCell(col).1 - 1, v.HorizontalBarCell(col).0 - 1)
    {
      HorizontalHitIff(v, col, v.viewHeight + v.yOffset - 1);
    }
  }

  /** The bottom-right cell belongs to both bars. */
  lemma CornerOnBothBars(v: Viewport)
    requires v.FitsScreen() && v.viewHeight >= 1 && v.viewWidth <= U16_MAX
    ensures v.OnVerticalScrollbar(v.viewWidth - 1, v.viewHeight + v.yOffset - 1)
    ensures v.OnHorizontalScrollbar(v.viewWidth - 1, v.viewHeight + v.yOffset - 1)
  {
    VerticalHitIff(v, v.viewWidth - 1, v.viewHeight + v.yOffset - 1);
    HorizontalHitIff(v, v.viewWidth - 1, v.viewHeight + v.yOffset - 1);
  }
}
