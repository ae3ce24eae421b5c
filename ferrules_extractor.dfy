/**
 * The block placement of the layout-model extractor: a block's text is laid
 * onto the grid from its top-left cell, with newlines and wraps both going
 * back to the block's own start column (the `Indented` placement rules).
 * The model call that finds the blocks and their positions is outside the
 * model.
 */
module Ferrules {
  import opened Wrappers
  import opened Placement

  /** `place_text_on_grid_spatial`; the area is the whole max_width×max_height grid. */
  method PlaceTextOnGridSpatial(grid: array2<char>, text: string, xStart: nat, yStart: nat, maxWidth: nat, maxHeight: nat)
    requires maxHeight <= grid.Length0 && maxWidth <= grid.Length1
    modifies grid
    ensures var w := Written(Area(Indented, xStart, maxWidth, maxHeight), Pen(xStart, yStart, false), text);
      forall r, c :: 0 <= r < grid.Length0 && 0 <= c < grid.Length1 ==> grid[r, c] == Over(w, old(grid[r, c]), r, c)
  {
    var a := Area(Indented, xStart, maxWidth, maxHeight);
    ghost var start := Pen(xStart, yStart, false);
    var x: nat := xStart;
    var y: nat := yStart;
    var i := 0;
    while i < |text|
      invariant 0 <= i <= |text|
      invariant PenAfter(a, start, text[..i]) == Pen(x, y, false)
      invariant forall r, c :: 0 <= r < grid.Length0 && 0 <= c < grid.Length1 ==>
        grid[r, c] == Over(Written(a, start, text[..i]), old(grid[r, c]), r, c)
    {
      Unfold(a, start, text, i);
      var stop;
      x, y, stop := SpatialStep(grid, a, x, y, text[i]);
      if stop {
        StopEndsPlacement(a, start, text, i + 1);
        break;
      }
      i := i + 1;
    }
    if i == |text| {
      assert text[..i] == text;
    }
  }

  /** One iteration of the loop of `place_text_on_grid_spatial`; `stop` is its `break`. */
  method SpatialStep(grid: array2<char>, a: Area, x0: nat, y0: nat, ch: char) returns (x: nat, y: nat, stop: bool)
    requires a.kind == Indented && a.height <= grid.Length0 && a.width <= grid.Length1
    modifies grid
    ensures Pen(x, y, stop) == Step(a, Pen(x0, y0, false), ch).0
    ensures forall r, c :: 0 <= r < grid.Length0 && 0 <= c < grid.Length1 ==>
      grid[r, c] == if Step(a, Pen(x0, y0, false), ch).1 == Some((r, c)) then ch else old(grid[r, c])
  {
    x, y, stop := x0, y0, false;
    var xStart, maxWidth, maxHeight := a.xStart, a.width, a.height;
    if ch == '\n' {
      y := y + 1;
      x := xStart;
      if y >= maxHeight {
        stop := true;
      }
      return;
    }
    if x >= maxWidth || y >= maxHeight {
      if x >= maxWidth && y + 1 < maxHeight {
        y := y + 1;
        x := xStart;
      } else {
        stop := true;
        return;
      }
    }
    if x < maxWidth && y < maxHeight {
      grid[y, x] := ch;
      x := x + 1;
    }
  }

  /**
   * The block rules wrap back to the block's start column where the
   * sequential rules wrap to column 0: "ab" from column 1 of a 2×2 grid
   * puts 'b' at (1, 1) here and at (1, 0) there.
   */
  lemma WrapDiffersFromSequential()
    ensures Written(Area(Indented, 1, 2, 2), Pen(1, 0, false), "ab") == map[(0, 1) := 'a', (1, 1) := 'b']
    ensures Written(Area(Sequential, 1, 2, 2), Pen(1, 0, false), "ab") == map[(0, 1) := 'a', (1, 0) := 'b']
  {
    assert "ab"[..1] == "a" && "a"[..0] == "";
  }
}
