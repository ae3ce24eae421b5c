/**
 * The rectangular selection of the rope-backed editor: two corners given as
 * (line, column), read as the normalised rectangle between them.
 */
module Selection {

  /** A (line, column) cursor position. */
  datatype Position = Position(line: nat, column: nat)

  function Min(a: nat, b: nat): nat { if a <= b then a else b }
  function Max(a: nat, b: nat): nat { if a <= b then b else a }

  /** `x` lies between `a` and `b`, in whichever order they come. */
  predicate Between(x: nat, a: nat, b: nat) {
    (a <= x <= b) || (b <= x <= a)
  }

  class BlockSelection {
    var start: (nat, nat)
    var end: (nat, nat)
    var anchorVisualCol: nat
    var cursorVisualCol: nat
    var cursor: Position

    /** `BlockSelection::new`: an empty drag at (line, col). */
    constructor (line: nat, col: nat)
      ensures start == (line, col) && end == (line, col)
      ensures anchorVisualCol == col && cursorVisualCol == col
      ensures cursor == Position(line, col)
    {
      start := (line, col);
      end := (line, col);
      anchorVisualCol := col;
      cursorVisualCol := col;
      cursor := Position(line, col);
    }

    /** `extend_to`: moves the dragged corner; the anchor stays. */
    method ExtendTo(line: nat, col: nat, visualCol: nat)
      modifies this
      ensures end == (line, col) && cursor == Position(line, col) && cursorVisualCol == visualCol
      ensures start == old(start) && anchorVisualCol == old(anchorVisualCol)
    {
      end := (line, col);
      cursor := cursor.(line := line);
      cursor := cursor.(column := col);
      cursorVisualCol := visualCol;
    }

    /**
     * `normalized`: the top-left and bottom-right corners. Whichever way the
     * drag went, they are ordered and they are the drag's own lines and columns.
     */
    function Normalized(): (r: ((nat, nat), (nat, nat)))
      reads this
      ensures r.0.0 <= r.1.0 && r.0.1 <= r.1.1
      ensures {r.0.0, r.1.0} == {start.0, end.0} && {r.0.1, r.1.1} == {start.1, end.1}
    {
      var (startLine, startCol) := start;
      var (endLine, endCol) := end;
      ((Min(startLine, endLine), Min(startCol, endCol)), (Max(startLine, endLine), Max(startCol, endCol)))
    }

    /**
     * `iter_lines`: one (line, first column, last column) per selected line,
     * from the top line down to the bottom one.
     */
    function IterLines(): (r: seq<(nat, nat, nat)>)
      reads this
      ensures |r| == Normalized().1.0 - Normalized().0.0 + 1
      ensures r[0].0 == Normalized().0.0 && r[|r| - 1].0 == Normalized().1.0
      ensures forall i :: 0 <= i < |r| - 1 ==> r[i].0 + 1 == r[i + 1].0
      ensures forall i :: 0 <= i < |r| ==> r[i].1 == Normalized().0.1 && r[i].2 == Normalized().1.1
    {
      var ((minLine, minCol), (maxLine, maxCol)) := Normalized();
      seq(maxLine - minLine + 1, i => (minLine + i, minCol, maxCol))
    }

    /** `contains`: (line, col) lies between the two corners on both axes. */
    function Contains(line: nat, col: nat): (b: bool)
      reads this
      ensures b <==> Between(line, start.0, end.0) && Between(col, start.1, end.1)
    {
      var ((minLine, minCol), (maxLine, maxCol)) := Normalized();
      line >= minLine && line <= maxLine && col >= minCol && col <= maxCol
    }

    /** `visual_bounds`: the normalised corners. */
    function VisualBounds(): ((nat, nat), (nat, nat))
      reads this
    {
      Normalized()
    }
  }

  /** A cell is selected exactly when one of the selected lines covers its column. */
  lemma ContainsIffIterLines(s: BlockSelection, line: nat, col: nat)
    ensures s.Contains(line, col) <==>
      exists i :: 0 <= i < |s.IterLines()| && s.IterLines()[i].0 == line && s.IterLines()[i].1 <= col <= s.IterLines()[i].2
  {
    var r := s.IterLines();
    var lo := s.Normalized().0.0;
    if s.Contains(line, col) {
      assert r[line - lo].0 == line;
    }
  }
}
