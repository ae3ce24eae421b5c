/**
 * Placing a string on a character grid, one character at a time, with a pen
 * that moves right, breaks lines at '\n', wraps at the right edge and stops
 * below the last row.  Three extractors do this with slightly different
 * rules; `Step` states each rule once, and `Written` gives the cells a whole
 * string writes.
 */
module Placement {
  import opened Wrappers

  /**
   * Which extractor's rules apply:
   * - `Sequential`: a newline and a wrap both restart at column 0;
   * - `Anchored`: a newline restarts at the start column, a wrap at column 0;
   * - `Indented`: a newline and a wrap both restart at the start column, and
   *   anything that cannot be placed stops the placement.
   */
  datatype Kind = Sequential | Anchored | Indented

  /** The rules and the area they place into. */
  datatype Area = Area(kind: Kind, xStart: nat, width: nat, height: nat)

  /** The pen: where the next character goes, and whether placement has stopped (`break`). */
  datatype Pen = Pen(x: nat, y: nat, stopped: bool)

  /** Put a character at (x, y) if that cell is inside the area. */
  function Place(a: Area, x: nat, y: nat): (Pen, Option<(nat, nat)>) {
    if x < a.width && y < a.height then (Pen(x + 1, y, false), Some((y, x))) else (Pen(x, y, false), None)
  }

  /** One character: the new pen and the (row, column) written, if any. */
  function Step(a: Area, p: Pen, ch: char): (Pen, Option<(nat, nat)>) {
    if p.stopped then (p, None)
    else if ch == '\n' then
      (Pen(if a.kind == Sequential then 0 else a.xStart, p.y + 1, p.y + 1 >= a.height), None)
    else if a.kind == Indented then
      if p.x >= a.width || p.y >= a.height then
        if p.x >= a.width && p.y + 1 < a.height then Place(a, a.xStart, p.y + 1)
        else (Pen(p.x, p.y, true), None)
      else Place(a, p.x, p.y)
    else
      if p.x >= a.width then
        if p.y + 1 >= a.height then (Pen(p.x, p.y + 1, true), None)
        else Place(a, 0, p.y + 1)
      else Place(a, p.x, p.y)
  }

  function PenAfter(a: Area, start: Pen, text: string): Pen {
    if text == [] then start else Step(a, PenAfter(a, start, text[..|text| - 1]), text[|text| - 1]).0
  }

  /** The cells `text` writes, each with the last character written there. */
  function Written(a: Area, start: Pen, text: string): map<(nat, nat), char> {
    if text == [] then map[]
    else
      var prev := Written(a, start, text[..|text| - 1]);
      var cell := Step(a, PenAfter(a, start, text[..|text| - 1]), text[|text| - 1]).1;
      if cell.Some? then prev[cell.value := text[|text| - 1]] else prev
  }

  /** A cell after placement: the written character, or what was there before. */
  function Over(w: map<(nat, nat), char>, before: char, r: nat, c: nat): char {
    if (r, c) in w then w[(r, c)] else before
  }

  /** The column a character after a newline starts at. */
  function NewlineColumn(a: Area): nat {
    if a.kind == Sequential then 0 else a.xStart
  }

  /** The column a character starts at after wrapping at the right edge. */
  function WrapColumn(a: Area): nat {
    if a.kind == Indented then a.xStart else 0
  }

  /** A pen that has stopped or passed the last row. */
  predicate Dormant(a: Area, p: Pen) {
    p.stopped || p.y >= a.height
  }

  // ---------------------------------------------------------------------
  // Lemmas

  /** Unfolding `PenAfter` and `Written` at the last character of a prefix. */
  lemma Unfold(a: Area, start: Pen, text: string, i: nat)
    requires i < |text|
    ensures PenAfter(a, start, text[..i + 1]) == Step(a, PenAfter(a, start, text[..i]), text[i]).0
    ensures Written(a, start, text[..i + 1]) ==
      var cell := Step(a, PenAfter(a, start, text[..i]), text[i]).1;
      if cell.Some? then Written(a, start, text[..i])[cell.value := text[i]] else Written(a, start, text[..i])
  {
    assert text[..i + 1][..i] == text[..i];
  }

  /** A dormant pen stays dormant and writes nothing more. */
  lemma {:induction false} DormantWritesNothing(a: Area, start: Pen, t: string, u: string)
    requires Dormant(a, PenAfter(a, start, t))
    ensures Dormant(a, PenAfter(a, start, t + u))
    ensures Written(a, start, t + u) == Written(a, start, t)
  {
    if u == [] {
      assert t + u == t;
    } else {
      var u' := u[..|u| - 1];
      assert (t + u)[..|t + u| - 1] == t + u';
      DormantWritesNothing(a, start, t, u');
    }
  }

  /** The character that stops the pen, and everything after it, writes nothing. */
  lemma StopEndsPlacement(a: Area, start: Pen, text: string, k: nat)
    requires 0 < k <= |text| && PenAfter(a, start, text[..k]).stopped
    ensures Written(a, start, text) == Written(a, start, text[..k]) == Written(a, start, text[..k - 1])
  {
    assert text == text[..k] + text[k..];
    DormantWritesNothing(a, start, text[..k], text[k..]);
    Unfold(a, start, text, k - 1);
  }

  /** Every written cell lies inside the area. */
  lemma {:induction false} WrittenInArea(a: Area, start: Pen, text: string)
    ensures forall cell :: cell in Written(a, start, text) ==> cell.0 < a.height && cell.1 < a.width
  {
    if text != [] {
      WrittenInArea(a, start, text[..|text| - 1]);
    }
  }

  /** The placement stops for good once the pen is past the last row. */
  lemma StopsBelowArea(a: Area, start: Pen, t: string, u: string)
    requires PenAfter(a, start, t).y >= a.height
    ensures Written(a, start, t + u) == Written(a, start, t)
  {
    DormantWritesNothing(a, start, t, u);
  }

  lemma StepAppend(a: Area, start: Pen, t: string, ch: char)
    ensures PenAfter(a, start, t + [ch]) == Step(a, PenAfter(a, start, t), ch).0
    ensures Written(a, start, t + [ch]) ==
      var cell := Step(a, PenAfter(a, start, t), ch).1;
      if cell.Some? then Written(a, start, t)[cell.value := ch] else Written(a, start, t)
  {
    assert (t + [ch])[..|t|] == t;
  }

  /** Inside the area, a character goes where the pen is, and the pen moves one column right. */
  lemma PlacesAtPen(a: Area, start: Pen, t: string, ch: char)
    requires var p := PenAfter(a, start, t); !p.stopped && p.x < a.width && p.y < a.height
    requires ch != '\n'
    ensures var p := PenAfter(a, start, t);
      Written(a, start, t + [ch]) == Written(a, start, t)[(p.y, p.x) := ch] &&
      PenAfter(a, start, t + [ch]) == Pen(p.x + 1, p.y, false)
  {
    var p := PenAfter(a, start, t);
    assert Step(a, p, ch) == (Pen(p.x + 1, p.y, false), Some((p.y, p.x)));
    StepAppend(a, start, t, ch);
  }

  /** The character after a newline lands on the next row, at the newline column of the rules. */
  lemma AfterNewline(a: Area, start: Pen, t: string, ch: char)
    requires var p := PenAfter(a, start, t); !p.stopped && p.y + 1 < a.height
    requires ch != '\n' && NewlineColumn(a) < a.width
    ensures var p := PenAfter(a, start, t);
      Written(a, start, t + ['\n', ch]) == Written(a, start, t)[(p.y + 1, NewlineColumn(a)) := ch]
  {
    StepAppend(a, start, t, '\n');
    assert t + ['\n', ch] == (t + ['\n']) + [ch];
    StepAppend(a, start, t + ['\n'], ch);
  }

  /** At the right edge a character wraps to the next row, at the wrap column of the rules. */
  lemma AfterWrap(a: Area, start: Pen, t: string, ch: char)
    requires var p := PenAfter(a, start, t); !p.stopped && p.x >= a.width && p.y + 1 < a.height
    requires ch != '\n' && WrapColumn(a) < a.width
    ensures var p := PenAfter(a, start, t);
      Written(a, start, t + [ch]) == Written(a, start, t)[(p.y + 1, WrapColumn(a)) := ch]
  {
    StepAppend(a, start, t, ch);
  }

  /** Under the `Indented` rules a character that can neither be placed nor wrapped ends the placement. */
  lemma IndentedStopsAtCorner(a: Area, start: Pen, t: string, ch: char, rest: string)
    requires a.kind == Indented
    requires var p := PenAfter(a, start, t); !p.stopped && p.x >= a.width && p.y + 1 >= a.height
    requires ch != '\n'
    ensures Written(a, start, t + [ch] + rest) == Written(a, start, t)
  {
    StepAppend(a, start, t, ch);
    DormantWritesNothing(a, start, t + [ch], rest);
  }
}
