/**
 * The text renderer's state: a buffer of character rows, the viewport size
 * and a 16-bit scroll position kept inside the buffer by the scroll commands.
 */
module Renderer {
  import opened Ints
  import opened Text

  /** The largest scroll position `scroll_down` allows, with its `as u16` cast. */
  function MaxScrollY(buffer: seq<seq<char>>, viewportHeight: u16): u16 {
    WrapU16(if |buffer| >= viewportHeight then |buffer| - viewportHeight else 0)
  }

  /** The largest scroll position `scroll_right` allows: measured on the first row only. */
  function MaxScrollX(buffer: seq<seq<char>>, viewportWidth: u16): u16 {
    var width := if |buffer| > 0 then |buffer[0]| else 0;
    WrapU16(if width >= viewportWidth then width - viewportWidth else 0)
  }

  function Min16(a: u16, b: u16): u16 { if a <= b then a else b }

  class TextRenderer {
    var buffer: seq<seq<char>>
    var viewportWidth: u16
    var viewportHeight: u16
    var scrollX: u16
    var scrollY: u16

    /** A new renderer holds a blank screen of the given size, unscrolled. */
    constructor (width: u16, height: u16)
      ensures |buffer| == height && forall i :: 0 <= i < height ==> buffer[i] == Repeat(' ', width)
      ensures viewportWidth == width && viewportHeight == height
      ensures scrollX == 0 && scrollY == 0
    {
      buffer := seq(height, _ => Repeat(' ', width));
      viewportWidth := width;
      viewportHeight := height;
      scrollX := 0;
      scrollY := 0;
    }

    /** `update_buffer`: the buffer becomes a row-by-row copy of `matrix`. */
    method UpdateBuffer(matrix: seq<seq<char>>)
      modifies this`buffer
      ensures buffer == matrix
    {
      buffer := [];
      var i := 0;
      while i < |matrix|
        invariant 0 <= i <= |matrix|
        invariant buffer == matrix[..i]
      {
        buffer := buffer + [matrix[i]];
        i := i + 1;
      }
    }

    /** `scroll_up`: back by `lines`, stopping at the top. */
    method ScrollUp(lines: u16)
      modifies this`scrollY
      ensures scrollY == if old(scrollY) >= lines then old(scrollY) - lines else 0
    {
      scrollY := if scrollY >= lines then scrollY - lines else 0;
    }

    /** `scroll_down`: forward by `lines`, stopping where the last row reaches the bottom of the view. */
    method ScrollDown(lines: u16)
      requires scrollY + lines <= U16_MAX
      modifies this`scrollY
      ensures scrollY == Min16(old(scrollY) + lines, MaxScrollY(buffer, viewportHeight))
      ensures |buffer| <= viewportHeight + U16_MAX ==>
        scrollY <= if |buffer| >= viewportHeight then |buffer| - viewportHeight else 0
    {
      var maxScroll := MaxScrollY(buffer, viewportHeight);
      scrollY := Min16(scrollY + lines, maxScroll);
    }

    /** `scroll_left`: back by `cols`, stopping at the left edge. */
    method ScrollLeft(cols: u16)
      modifies this`scrollX
      ensures scrollX == if old(scrollX) >= cols then old(scrollX) - cols else 0
    {
      scrollX := if scrollX >= cols then scrollX - cols else 0;
    }

    /** `scroll_right`: forward by `cols`, stopping where the first row's end reaches the view's right edge. */
    method ScrollRight(cols: u16)
      requires scrollX + cols <= U16_MAX
      modifies this`scrollX
      ensures scrollX == Min16(old(scrollX) + cols, MaxScrollX(buffer, viewportWidth))
      ensures |buffer| > 0 && |buffer[0]| <= viewportWidth + U16_MAX ==>
        scrollX <= if |buffer[0]| >= viewportWidth then |buffer[0]| - viewportWidth else 0
      ensures |buffer| == 0 ==> scrollX == 0
    {
      var maxScroll := MaxScrollX(buffer, viewportWidth);
      scrollX := Min16(scrollX + cols, maxScroll);
    }

    /** `resize`: the viewport size changes; the scroll position and buffer do not. */
    method Resize(width: u16, height: u16)
      modifies this`viewportWidth, this`viewportHeight
      ensures viewportWidth == width && viewportHeight == height
    {
      viewportWidth := width;
      viewportHeight := height;
    }
  }

  /** The scroll-down bound is the buffer height less the view height, when that fits in 16 bits. */
  lemma MaxScrollYIsOverhang(buffer: seq<seq<char>>, viewportHeight: u16)
    requires |buffer| <= viewportHeight + U16_MAX
    ensures MaxScrollY(buffer, viewportHeight) == if |buffer| >= viewportHeight then |buffer| - viewportHeight else 0
    ensures |buffer| <= viewportHeight ==> MaxScrollY(buffer, viewportHeight) == 0
  {
  }
}
