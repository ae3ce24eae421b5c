/**
 * The coordinate validator: once a click lands it checks that the cursor landed on
 * the clicked cell plus the viewport offset, once a scroll ends that the viewport
 * moved by the scroll amount, and it keeps the list of mismatches it found.
 */
module Validator {
  import opened Wrappers
  import opened Ints

  datatype IssueType = CursorMismatch | ViewportDrift | ClickPositionWrong | SelectionCorrupted

  /** A recorded mismatch; the human-readable context text is not modelled. */
  datatype Issue = Issue(kind: IssueType, expected: (usize, usize), actual: (usize, usize))

  /** Where a click should put the cursor, as (row, col); the additions are `usize` ones. */
  function ExpectedCursor(clickX: u16, clickY: u16, viewportX: usize, viewportY: usize): (usize, usize) {
    (WrapUsize(clickY + viewportY), WrapUsize(clickX + viewportX))
  }

  /** The issue a click check records, if any. */
  function CursorIssue(clickX: u16, clickY: u16, row: usize, col: usize, viewportX: usize, viewportY: usize): Option<Issue> {
    var expected := ExpectedCursor(clickX, clickY, viewportX, viewportY);
    if row != expected.0 || col != expected.1 then Some(Issue(CursorMismatch, expected, (row, col))) else None
  }

  /** One axis of the expected viewport: `(old as i32 + scroll).max(0) as usize`. */
  function ExpectedAxis(before: usize, scroll: int): usize
    requires -0x8000_0000 <= scroll < 0x8000_0000
  {
    var sum := AsI32(AsI32(before) + scroll);
    if sum <= 0 then 0 else sum
  }

  function ExpectedViewport(before: (usize, usize), scroll: (int, int)): (usize, usize)
    requires -0x8000_0000 <= scroll.0 < 0x8000_0000 && -0x8000_0000 <= scroll.1 < 0x8000_0000
  {
    (ExpectedAxis(before.0, scroll.0), ExpectedAxis(before.1, scroll.1))
  }

  /** The issue a viewport check records, if any. */
  function ViewportIssue(before: (usize, usize), after: (usize, usize), scroll: (int, int)): Option<Issue>
    requires -0x8000_0000 <= scroll.0 < 0x8000_0000 && -0x8000_0000 <= scroll.1 < 0x8000_0000
  {
    var expected := ExpectedViewport(before, scroll);
    if after != expected then Some(Issue(ViewportDrift, expected, after)) else None
  }

  /** A click check records nothing exactly when the cursor sits on the clicked cell plus the offset. */
  lemma CursorIssueIff(clickX: u16, clickY: u16, row: usize, col: usize, viewportX: usize, viewportY: usize)
    requires clickX + viewportX <= USIZE_MAX && clickY + viewportY <= USIZE_MAX
    ensures CursorIssue(clickX, clickY, row, col, viewportX, viewportY).None? <==>
      row == clickY + viewportY && col == clickX + viewportX
    ensures CursorIssue(clickX, clickY, row, col, viewportX, viewportY).Some? ==>
      CursorIssue(clickX, clickY, row, col, viewportX, viewportY).value ==
        Issue(CursorMismatch, (clickY + viewportY, clickX + viewportX), (row, col))
  {
  }

  /** Without `i32` overflow the expected viewport axis is `max(old + scroll, 0)`. */
  lemma ExpectedAxisIsClampedSum(before: usize, scroll: int)
    requires -0x8000_0000 <= scroll < 0x8000_0000
    requires before < 0x8000_0000 && before + scroll < 0x8000_0000
    ensures ExpectedAxis(before, scroll) == if before + scroll <= 0 then 0 else before + scroll
  {
  }

  /** A viewport check records nothing exactly when each axis moved by its scroll amount, clamped at 0. */
  lemma ViewportIssueIff(before: (usize, usize), after: (usize, usize), scroll: (int, int))
    requires -0x8000_0000 <= scroll.0 < 0x8000_0000 && -0x8000_0000 <= scroll.1 < 0x8000_0000
    requires before.0 < 0x8000_0000 && before.0 + scroll.0 < 0x8000_0000
    requires before.1 < 0x8000_0000 && before.1 + scroll.1 < 0x8000_0000
    ensures ViewportIssue(before, after, scroll).None? <==>
      after.0 == (if before.0 + scroll.0 <= 0 then 0 else before.0 + scroll.0) &&
      after.1 == (if before.1 + scroll.1 <= 0 then 0 else before.1 + scroll.1)
    ensures ViewportIssue(before, after, scroll).Some? ==>
      ViewportIssue(before, after, scroll).value.kind == ViewportDrift &&
      ViewportIssue(before, after, scroll).value.actual == after
  {
    ExpectedAxisIsClampedSum(before.0, scroll.0);
    ExpectedAxisIsClampedSum(before.1, scroll.1);
  }

  /** The issues list of an optional finding. */
  function Recorded(issue: Option<Issue>): seq<Issue> {
    if issue.Some? then [issue.value] else []
  }

  class CoordinateValidator {
    var lastClick: Option<(u16, u16)>
    var lastCursor: Option<(usize, usize)>
    var issues: seq<Issue>

    constructor ()
      ensures lastClick == None && lastCursor == None && issues == []
    {
      lastClick := None;
      lastCursor := None;
      issues := [];
    }

    /** `validate_click_to_cursor`: on a mismatch, appends exactly one `CursorMismatch` issue. */
    method ValidateClickToCursor(clickX: u16, clickY: u16, row: usize, col: usize, viewportX: usize, viewportY: usize)
      returns (ok: bool)
      modifies this`issues
      ensures ok <==> (row, col) == ExpectedCursor(clickX, clickY, viewportX, viewportY)
      ensures issues == old(issues) + Recorded(CursorIssue(clickX, clickY, row, col, viewportX, viewportY))
      ensures ok ==> issues == old(issues)
      ensures !ok ==> issues == old(issues) + [Issue(CursorMismatch, ExpectedCursor(clickX, clickY, viewportX, viewportY), (row, col))]
    {
      var expectedRow := WrapUsize(clickY + viewportY);
      var expectedCol := WrapUsize(clickX + viewportX);
      if row != expectedRow || col != expectedCol {
        issues := issues + [Issue(CursorMismatch, (expectedRow, expectedCol), (row, col))];
        ok := false;
      } else {
        ok := true;
      }
    }

    /** `validate_viewport_consistency`: on drift, appends exactly one `ViewportDrift` issue. */
    method ValidateViewportConsistency(oldViewport: (usize, usize), newViewport: (usize, usize), scroll: (int, int))
      returns (ok: bool)
      requires -0x8000_0000 <= scroll.0 < 0x8000_0000 && -0x8000_0000 <= scroll.1 < 0x8000_0000
      modifies this`issues
      ensures ok <==> newViewport == ExpectedViewport(oldViewport, scroll)
      ensures issues == old(issues) + Recorded(ViewportIssue(oldViewport, newViewport, scroll))
      ensures ok ==> issues == old(issues)
      ensures !ok ==> issues == old(issues) + [Issue(ViewportDrift, ExpectedViewport(oldViewport, scroll), newViewport)]
    {
      var expectedX := ExpectedAxis(oldViewport.0, scroll.0);
      var expectedY := ExpectedAxis(oldViewport.1, scroll.1);
      if newViewport != (expectedX, expectedY) {
        issues := issues + [Issue(ViewportDrift, (expectedX, expectedY), newViewport)];
        ok := false;
      } else {
        ok := true;
      }
    }

    /**
     * `auto_validate`, with the application's debug mouse position, active
     * pane, cursors and renderer viewports passed in.  A click is checked
     * only when it differs from the last one checked, and is then remembered.
     */
    method AutoValidate(mouse: Option<(u16, u16)>, leftActive: bool,
                        notesCursor: (usize, usize), extractionCursor: (usize, usize),
                        notesViewport: Option<(usize, usize)>, editViewport: Option<(usize, usize)>)
      modifies this`issues, this`lastClick
      ensures old(issues) <= issues
      ensures mouse.None? || old(lastClick) == mouse ==> issues == old(issues) && lastClick == old(lastClick)
      ensures mouse.Some? && old(lastClick) != mouse ==>
        var cursor := if leftActive then notesCursor else extractionCursor;
        var vp := if leftActive then notesViewport else editViewport;
        var v := if vp.Some? then vp.value else (0, 0);
        lastClick == mouse &&
        issues == old(issues) + Recorded(CursorIssue(mouse.value.0, mouse.value.1, cursor.0, cursor.1, v.0, v.1))
    {
      if mouse.Some? {
        var (x, y) := mouse.value;
        var cursor := if leftActive then notesCursor else extractionCursor;
        var vp := if leftActive then notesViewport else editViewport;
        var v := if vp.Some? then vp.value else (0, 0);
        if lastClick != Some((x, y)) {
          var _ := ValidateClickToCursor(x, y, cursor.0, cursor.1, v.0, v.1);
          lastClick := Some((x, y));
        }
      }
    }
  }
}
