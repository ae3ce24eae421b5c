/**
 * `matrix_to_string`: joins the rows of a character matrix into text, one
 * line per row, trimming trailing whitespace.  As written the trim runs over
 * the whole text built so far, so it also eats the line break before a blank
 * row; the corrected version trims only the row just added.
 */
module TextMatrix {
  import opened Text

  /** `matrix_to_string` as written: append the row, trim the whole result, append a line break. */
  function Rendered(m: seq<seq<char>>): (r: string)
    ensures r == [] <==> m == []
    ensures m != [] ==> r[|r| - 1] == '\n'
  {
    if m == [] then [] else TrimEnd(Rendered(m[..|m| - 1]) + m[|m| - 1]) + ['\n']
  }

  /** The corrected conversion: each row loses its own trailing whitespace and keeps its line. */
  function RenderedIntended(m: seq<seq<char>>): (r: string)
    ensures r == [] <==> m == []
    ensures m != [] ==> r[|r| - 1] == '\n'
  {
    if m == [] then [] else RenderedIntended(m[..|m| - 1]) + TrimEnd(m[|m| - 1]) + ['\n']
  }

  /** All rows laid end to end. */
  function Flatten(m: seq<seq<char>>): string {
    if m == [] then [] else Flatten(m[..|m| - 1]) + m[|m| - 1]
  }

  /** The non-whitespace characters of `s`, in order. */
  function Visible(s: string): string {
    if s == [] then [] else Visible(s[..|s| - 1]) + (if IsWhitespace(s[|s| - 1]) then [] else [s[|s| - 1]])
  }

  function NewlineCount(s: string): nat {
    if s == [] then 0 else NewlineCount(s[..|s| - 1]) + (if s[|s| - 1] == '\n' then 1 else 0)
  }

  predicate NoNewlines(m: seq<seq<char>>) {
    forall i, j :: 0 <= i < |m| && 0 <= j < |m[i]| ==> m[i][j] != '\n'
  }

  /** Every line break past the first character follows a non-whitespace character. */
  predicate BreaksFollowText(s: string) {
    forall i :: 0 < i < |s| && s[i] == '\n' ==> !IsWhitespace(s[i - 1])
  }

  predicate AllWhitespace(s: string) {
    forall i :: 0 <= i < |s| ==> IsWhitespace(s[i])
  }

  // ---------------------------------------------------------------------
  // The loops

  /** `matrix_to_string`. */
  method MatrixToString(matrix: seq<seq<char>>) returns (result: string)
    ensures result == Rendered(matrix)
  {
    result := [];
    var i := 0;
    while i < |matrix|
      invariant 0 <= i <= |matrix|
      invariant result == Rendered(matrix[..i])
    {
      result := PushRow(result, matrix[i]);
      var line := TrimEnd(result);
      assert result[..|line|] == line;
      result := result[..|line|] + ['\n'];
      RenderedStep(matrix, i);
      i := i + 1;
    }
    assert matrix[..i] == matrix;
  }

  /** The inner loop of both conversions: the row's chars pushed one by one. */
  method PushRow(s: string, row: seq<char>) returns (result: string)
    ensures result == s + row
  {
    result := s;
    var j := 0;
    while j < |row|
      invariant 0 <= j <= |row|
      invariant result == s + row[..j]
    {
      assert row[..j + 1] == row[..j] + [row[j]];
      result := result + [row[j]];
      j := j + 1;
    }
    assert row[..j] == row;
  }

  /** `Rendered` of a prefix one row longer. */
  lemma RenderedStep(m: seq<seq<char>>, i: nat)
    requires i < |m|
    ensures Rendered(m[..i + 1]) == TrimEnd(Rendered(m[..i]) + m[i]) + ['\n']
  {
    assert m[..i + 1][..i] == m[..i];
  }

  /** The corrected loop: the trim starts where the current row starts. */
  method MatrixToStringIntended(matrix: seq<seq<char>>) returns (result: string)
    ensures result == RenderedIntended(matrix)
  {
    result := [];
    var i := 0;
    while i < |matrix|
      invariant 0 <= i <= |matrix|
      invariant result == RenderedIntended(matrix[..i])
    {
      ghost var before := result;
      var lineStart := |result|;
      result := PushRow(result, matrix[i]);
      assert result[lineStart..] == matrix[i];
      var line := TrimEnd(result[lineStart..]);
      assert result[..lineStart + |line|] == before + line;
      result := result[..lineStart + |line|] + ['\n'];
      IntendedStep(matrix, i);
      i := i + 1;
    }
    assert matrix[..i] == matrix;
  }

  /** `RenderedIntended` of a prefix one row longer. */
  lemma IntendedStep(m: seq<seq<char>>, i: nat)
    requires i < |m|
    ensures RenderedIntended(m[..i + 1]) == RenderedIntended(m[..i]) + TrimEnd(m[i]) + ['\n']
  {
    assert m[..i + 1][..i] == m[..i];
  }

  // ---------------------------------------------------------------------
  // Trimming lemmas

  lemma {:induction false} VisibleAppend(a: string, b: string)
    ensures Visible(a + b) == Visible(a) + Visible(b)
  {
    if b == [] {
      assert a + b == a;
    } else {
      assert (a + b)[..|a + b| - 1] == a + b[..|b| - 1];
      VisibleAppend(a, b[..|b| - 1]);
    }
  }

  lemma {:induction false} VisibleOfWhitespace(s: string)
    requires AllWhitespace(s)
    ensures Visible(s) == []
  {
    if s != [] {
      VisibleOfWhitespace(s[..|s| - 1]);
    }
  }

  /** Trimming drops only whitespace. */
  lemma VisibleTrimEnd(s: string)
    ensures Visible(TrimEnd(s)) == Visible(s)
  {
    var t := TrimEnd(s);
    assert s == t + s[|t|..];
    VisibleAppend(t, s[|t|..]);
    VisibleOfWhitespace(s[|t|..]);
  }

  lemma {:induction false} TrimEndIdempotent(s: string)
    ensures TrimEnd(TrimEnd(s)) == TrimEnd(s)
  {
  }

  /** Appending whitespace does not change what trimming keeps. */
  lemma {:induction false} TrimEndPastWhitespace(s: string, w: string)
    requires AllWhitespace(w)
    ensures TrimEnd(s + w) == TrimEnd(s)
  {
    if w != [] {
      assert (s + w)[..|s + w| - 1] == s + w[..|w| - 1];
      TrimEndPastWhitespace(s, w[..|w| - 1]);
    } else {
      assert s + w == s;
    }
  }

  // ---------------------------------------------------------------------
  // Properties of the conversion as written

  /** Every non-whitespace character of the matrix reaches the text, in row-major order. */
  lemma {:induction false} VisibleInOrder(m: seq<seq<char>>)
    ensures Visible(Rendered(m)) == Visible(Flatten(m))
  {
    if m != [] {
      var prev := Rendered(m[..|m| - 1]);
      var row := m[|m| - 1];
      VisibleInOrder(m[..|m| - 1]);
      VisibleAppend(TrimEnd(prev + row), ['\n']);
      VisibleTrimEnd(prev + row);
      VisibleAppend(prev, row);
      VisibleAppend(Flatten(m[..|m| - 1]), row);
      assert Visible(['\n']) == [] by {
        assert ['\n'][..0] == [];
      }
    }
  }

  /**
   * No line ends in whitespace: every line break past the first character
   * follows a non-whitespace character, so the text never holds "\n\n".
   */
  lemma {:induction false} NoWhitespaceBeforeBreak(m: seq<seq<char>>)
    requires NoNewlines(m)
    ensures BreaksFollowText(Rendered(m))
  {
    if m != [] {
      var prev := Rendered(m[..|m| - 1]);
      var row := m[|m| - 1];
      assert NoNewlines(m[..|m| - 1]);
      NoWhitespaceBeforeBreak(m[..|m| - 1]);
      var t := TrimEnd(prev + row);
      var r := t + ['\n'];
      forall i | 0 < i < |r| && r[i] == '\n'
        ensures !IsWhitespace(r[i - 1])
      {
        if i < |t| && i < |prev| {
          assert t <= prev + row;
          assert r[i] == prev[i] && r[i - 1] == prev[i - 1];
        } else if i < |t| {
          assert false;
        } else {
          assert i == |t| && r[i - 1] == t[|t| - 1];
        }
      }
    }
  }

  /** The text holds no empty line after its first: "\n\n" never occurs. */
  lemma NoDoubleBreak(m: seq<seq<char>>)
    requires NoNewlines(m)
    ensures var r := Rendered(m);
      forall i :: 0 < i < |r| && r[i] == '\n' ==> r[i - 1] != '\n'
  {
    NoWhitespaceBeforeBreak(m);
  }

  /** A whitespace-only row added after the first row leaves the text as it was: its line vanishes. */
  lemma BlankRowVanishes(m: seq<seq<char>>, blank: seq<char>)
    requires m != [] && AllWhitespace(blank)
    ensures Rendered(m + [blank]) == Rendered(m)
  {
    var prev := Rendered(m[..|m| - 1]);
    var row := m[|m| - 1];
    var r := Rendered(m);
    assert (m + [blank])[..|m|] == m;
    TrimEndPastWhitespace(r, blank);
    TrimEndPastWhitespace(TrimEnd(prev + row), ['\n']);
    TrimEndIdempotent(prev + row);
  }

  /** Three rows with a blank middle one give two lines. */
  lemma BlankMiddleRowLost()
    ensures Rendered(["a", " ", "b"]) == "a\nb\n"
    ensures RenderedIntended(["a", " ", "b"]) == "a\n\nb\n"
  {
    BlankRowRendered('a', 'b');
    BlankRowIntended('a', 'b');
  }

  /** As written, the rows x, " ", y give two lines: the blank row's line is lost. */
  lemma BlankRowRendered(x: char, y: char)
    requires !IsWhitespace(x) && !IsWhitespace(y)
    ensures Rendered([[x], [' '], [y]]) == [x, '\n', y, '\n']
  {
    RenderedBlankSecond(x);
    RenderedSnoc([[x], [' ']], [y]);
    assert [[x], [' ']] + [[y]] == [[x], [' '], [y]];
    TrimEndKeeps([x, '\n'] + [y]);
  }

  lemma RenderedOneRow(x: char)
    requires !IsWhitespace(x)
    ensures Rendered([[x]]) == [x, '\n']
  {
    RenderedSnoc([], [x]);
    TrimEndKeeps([x]);
    assert [] + [[x]] == [[x]];
  }

  lemma RenderedBlankSecond(x: char)
    requires !IsWhitespace(x)
    ensures Rendered([[x], [' ']]) == [x, '\n']
  {
    RenderedOneRow(x);
    RenderedSnoc([[x]], [' ']);
    assert [[x]] + [[' ']] == [[x], [' ']];
    TrimEndPastWhitespace([x, '\n'], [' ']);
    TrimEndPastWhitespace([x], ['\n']);
    TrimEndKeeps([x]);
    assert [x, '\n'] == [x] + ['\n'];
  }

  /** Corrected, the rows x, " ", y give three lines, the middle one empty. */
  lemma BlankRowIntended(x: char, y: char)
    requires !IsWhitespace(x) && !IsWhitespace(y)
    ensures RenderedIntended([[x], [' '], [y]]) == [x, '\n', '\n', y, '\n']
  {
    IntendedBlankSecond(x);
    IntendedSnoc([[x], [' ']], [y]);
    assert [[x], [' ']] + [[y]] == [[x], [' '], [y]];
    TrimEndKeeps([y]);
  }

  lemma IntendedOneRow(x: char)
    requires !IsWhitespace(x)
    ensures RenderedIntended([[x]]) == [x, '\n']
  {
    IntendedSnoc([], [x]);
    TrimEndKeeps([x]);
    assert [] + [[x]] == [[x]];
  }

  lemma IntendedBlankSecond(x: char)
    requires !IsWhitespace(x)
    ensures RenderedIntended([[x], [' ']]) == [x, '\n', '\n']
  {
    IntendedOneRow(x);
    IntendedSnoc([[x]], [' ']);
    assert [[x]] + [[' ']] == [[x], [' ']];
    TrimEndPastWhitespace([], [' ']);
    assert [] + [' '] == [' '];
  }

  /** Trimming keeps a string that does not end in whitespace. */
  lemma TrimEndKeeps(s: string)
    requires s == [] || !IsWhitespace(s[|s| - 1])
    ensures TrimEnd(s) == s
  {
  }

  lemma RenderedSnoc(p: seq<seq<char>>, row: seq<char>)
    ensures Rendered(p + [row]) == TrimEnd(Rendered(p) + row) + ['\n']
  {
    assert (p + [row])[..|p|] == p;
  }

  lemma IntendedSnoc(p: seq<seq<char>>, row: seq<char>)
    ensures RenderedIntended(p + [row]) == RenderedIntended(p) + TrimEnd(row) + ['\n']
  {
    assert (p + [row])[..|p|] == p;
  }

  // ---------------------------------------------------------------------
  // Properties of the corrected conversion

  lemma {:induction false} NewlineCountAppend(a: string, b: string)
    ensures NewlineCount(a + b) == NewlineCount(a) + NewlineCount(b)
  {
    if b == [] {
      assert a + b == a;
    } else {
      assert (a + b)[..|a + b| - 1] == a + b[..|b| - 1];
      NewlineCountAppend(a, b[..|b| - 1]);
    }
  }

  lemma {:induction false} NewlineCountNone(s: string)
    requires forall i :: 0 <= i < |s| ==> s[i] != '\n'
    ensures NewlineCount(s) == 0
  {
    if s != [] {
      NewlineCountNone(s[..|s| - 1]);
    }
  }

  /** The corrected conversion keeps one line per row. */
  lemma {:induction false} IntendedKeepsEveryRow(m: seq<seq<char>>)
    requires NoNewlines(m)
    ensures NewlineCount(RenderedIntended(m)) == |m|
  {
    if m != [] {
      var row := m[|m| - 1];
      assert NoNewlines(m[..|m| - 1]);
      IntendedKeepsEveryRow(m[..|m| - 1]);
      var t := TrimEnd(row);
      assert forall i :: 0 <= i < |t| ==> t[i] == row[i];
      NewlineCountNone(t);
      NewlineCountAppend(RenderedIntended(m[..|m| - 1]), t);
      NewlineCountAppend(RenderedIntended(m[..|m| - 1]) + t, ['\n']);
      assert ['\n'][..0] == [];
    }
  }

  /** The corrected conversion also keeps every non-whitespace character in order. */
  lemma {:induction false} IntendedVisibleInOrder(m: seq<seq<char>>)
    ensures Visible(RenderedIntended(m)) == Visible(Flatten(m))
  {
    if m != [] {
      var prev := RenderedIntended(m[..|m| - 1]);
      var row := m[|m| - 1];
      IntendedVisibleInOrder(m[..|m| - 1]);
      VisibleAppend(prev + TrimEnd(row), ['\n']);
      VisibleAppend(prev, TrimEnd(row));
      VisibleTrimEnd(row);
      VisibleAppend(Flatten(m[..|m| - 1]), row);
      assert Visible(['\n']) == [] by {
        assert ['\n'][..0] == [];
      }
    }
  }
}
