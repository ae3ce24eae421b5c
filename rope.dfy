/**
 * The text rope the editor panes keep. A rope is a sequence of chars in which
 * '\n' separates lines; it is represented here by its lines, so that the chars
 * are the lines joined with '\n'. A rope always has at least one line: the
 * empty rope has one empty line, and "a\n" has two, the second empty. Only
 * '\n' counts as a line break. Offsets into the chars are computed the way
 * `line_to_char` and `char_to_line` compute them.
 */
module Rope {
  import opened Text
  import opened Ints

  /** A rope is at least one line, and no line holds a '\n'. */
  ghost predicate IsRope(ls: seq<string>) {
    |ls| >= 1 && forall k :: 0 <= k < |ls| ==> '\n' !in ls[k]
  }

  /** The chars of the rope: its lines joined with '\n'. */
  function Chars(ls: seq<string>): string {
    Join(ls, "\n")
  }

  /**
   * The offset where line `k` starts, counting every line before it with its
   * '\n'; for `k == len_lines` this is one past the end (see `LineStart`).
   */
  function LineToChar(ls: seq<string>, k: nat): (o: nat)
    requires k <= |ls|
    ensures k <= o
  {
    if k == 0 then 0 else LineToChar(ls, k - 1) + |ls[k - 1]| + 1
  }

  /** `Rope::len_chars`. */
  function LenChars(ls: seq<string>): nat
    requires |ls| >= 1
  {
    LineToChar(ls, |ls|) - 1
  }

  /**
   * Where line `k` ends, the way the editor computes it: one before the start
   * of the next line, or the rope's length for the last line.
   */
  function LineEnd(ls: seq<string>, k: nat): (e: nat)
    requires k < |ls|
    ensures e == LineToChar(ls, k) + |ls[k]|
  {
    if k + 1 < |ls| then SatSub(LineToChar(ls, k + 1), 1) else LenChars(ls)
  }

  /** The length of line `k` as `line_end.saturating_sub(line_start)`: the length of the line. */
  function LineLen(ls: seq<string>, k: nat): (n: nat)
    requires k < |ls|
    ensures n == |ls[k]|
  {
    SatSub(LineEnd(ls, k), LineToChar(ls, k))
  }

  /** Lines start in order. */
  lemma {:induction false} LineToCharMono(ls: seq<string>, j: nat, k: nat)
    requires j <= k <= |ls|
    ensures LineToChar(ls, j) <= LineToChar(ls, k)
    ensures j < k ==> LineToChar(ls, j) + |ls[j]| < LineToChar(ls, k)
    decreases k
  {
    if j < k {
      LineToCharMono(ls, j, k - 1);
    }
  }

  /** Search upward from line `k` for the line holding offset `o`. */
  function FindLine(ls: seq<string>, o: nat, k: nat): nat
    requires k < |ls|
    decreases |ls| - k
  {
    if k + 1 == |ls| || o < LineToChar(ls, k + 1) then k else FindLine(ls, o, k + 1)
  }

  /** `Rope::char_to_line(o)`: the line offset `o` falls on. */
  function CharToLine(ls: seq<string>, o: nat): nat
    requires |ls| >= 1
  {
    FindLine(ls, o, 0)
  }

  /** The search finds the line whose span, its '\n' included, holds `o`. */
  lemma {:induction false} FindLineSpec(ls: seq<string>, o: nat, k: nat)
    requires k < |ls| && LineToChar(ls, k) <= o <= LenChars(ls)
    ensures var l := FindLine(ls, o, k);
      k <= l < |ls| && LineToChar(ls, l) <= o <= LineToChar(ls, l) + |ls[l]|
    decreases |ls| - k
  {
    if !(k + 1 == |ls| || o < LineToChar(ls, k + 1)) {
      FindLineSpec(ls, o, k + 1);
    }
  }

  /** Offset `o` lies on line `CharToLine(ls, o)`, at most at its end. */
  lemma CharToLineSpec(ls: seq<string>, o: nat)
    requires |ls| >= 1 && o <= LenChars(ls)
    ensures var k := CharToLine(ls, o);
      k < |ls| && LineToChar(ls, k) <= o <= LineToChar(ls, k) + |ls[k]|
  {
    FindLineSpec(ls, o, 0);
  }

  /** An offset inside the span of line `k` is found on line `k`. */
  lemma CharToLineOfStart(ls: seq<string>, k: nat, c: nat)
    requires k < |ls| && c <= |ls[k]|
    ensures CharToLine(ls, LineToChar(ls, k) + c) == k
  {
    var o := LineToChar(ls, k) + c;
    LineToCharMono(ls, k, |ls|);
    CharToLineSpec(ls, o);
    var l := CharToLine(ls, o);
    if l < k {
      LineToCharMono(ls, l, k);
    } else if l > k {
      LineToCharMono(ls, k, l);
    }
  }

  /** `Rope::char(o)`: a char of a line, or the '\n' that ends it. */
  function CharAt(ls: seq<string>, o: nat): char
    requires |ls| >= 1 && o < LenChars(ls)
  {
    CharToLineSpec(ls, o);
    var k := CharToLine(ls, o);
    var c := o - LineToChar(ls, k);
    if c < |ls[k]| then ls[k][c] else '\n'
  }

  /** Line `k` split at column `c`: the part after `c` becomes a line of its own. */
  function SplitLine(ls: seq<string>, k: nat, c: nat): (r: seq<string>)
    requires k < |ls| && c <= |ls[k]|
    ensures |r| == |ls| + 1
  {
    ls[..k] + [ls[k][..c], ls[k][c..]] + ls[k + 1..]
  }

  /** Line `k` joined with the next, as when the '\n' between them goes. */
  function JoinLine(ls: seq<string>, k: nat): (r: seq<string>)
    requires k + 1 < |ls|
    ensures |r| + 1 == |ls|
  {
    ls[..k] + [ls[k] + ls[k + 1]] + ls[k + 2..]
  }

  /** `Rope::insert(o, ch)` for one char: a '\n' splits its line, any other char goes into it. */
  function InsertAt(ls: seq<string>, o: nat, ch: char): (r: seq<string>)
    requires |ls| >= 1 && o <= LenChars(ls)
  {
    CharToLineSpec(ls, o);
    var k := CharToLine(ls, o);
    var c := o - LineToChar(ls, k);
    if ch == '\n' then SplitLine(ls, k, c) else ls[k := ls[k][..c] + [ch] + ls[k][c..]]
  }

  /** Only the last line ends at the end of the rope. */
  lemma LastLineEnd(ls: seq<string>, k: nat)
    requires k < |ls| && LineToChar(ls, k) + |ls[k]| < LenChars(ls)
    ensures k + 1 < |ls|
  {
  }

  /** `Rope::remove(o..o + 1)`: a char leaves its line; a '\n' joins two lines. */
  function RemoveAt(ls: seq<string>, o: nat): (r: seq<string>)
    requires |ls| >= 1 && o < LenChars(ls)
    ensures |r| >= 1
  {
    CharToLineSpec(ls, o);
    var k := CharToLine(ls, o);
    var c := o - LineToChar(ls, k);
    if c < |ls[k]| then ls[k := ls[k][..c] + ls[k][c + 1..]]
    else
      LastLineEnd(ls, k);
      JoinLine(ls, k)
  }

  /** Appending '\n' `n` times adds `n` empty lines. */
  function AddLines(ls: seq<string>, n: nat): (r: seq<string>)
    ensures |r| == |ls| + n
  {
    ls + seq(n, _ => "")
  }

  /** Offsets of lines before the edited one are not moved by the edit. */
  lemma {:induction false} LineToCharPrefix(ls: seq<string>, ls': seq<string>, k: nat, j: nat)
    requires j <= k <= |ls| && k <= |ls'| && ls[..k] == ls'[..k]
    ensures LineToChar(ls, j) == LineToChar(ls', j)
    decreases j
  {
    if j > 0 {
      assert ls[j - 1] == ls[..k][j - 1] == ls'[j - 1];
      LineToCharPrefix(ls, ls', k, j - 1);
    }
  }

  /** The chars of each line are the rope's chars from where the line starts. */
  lemma CharAtLine(ls: seq<string>, k: nat, c: nat)
    requires k < |ls| && c < |ls[k]|
    ensures LineToChar(ls, k) + c < LenChars(ls) && CharAt(ls, LineToChar(ls, k) + c) == ls[k][c]
  {
    LineToCharMono(ls, k, |ls|);
    CharToLineOfStart(ls, k, c);
  }

  /** Offsets of lines from `k + 1` on shift by the change in length of line `k`. */
  lemma {:induction false} LineToCharShift(ls: seq<string>, k: nat, line: string, j: nat)
    requires k < j <= |ls|
    ensures LineToChar(ls[k := line], j) + |ls[k]| == LineToChar(ls, j) + |line|
    decreases j
  {
    if j == k + 1 {
      assert ls[..k] == ls[k := line][..k];
      LineToCharPrefix(ls, ls[k := line], k, k);
    } else {
      LineToCharShift(ls, k, line, j - 1);
    }
  }

  /** Column `c` of line `k` replaced by `ch`; a '\n' there splits the line around it. */
  function ReplaceCol(ls: seq<string>, k: nat, c: nat, ch: char): (r: seq<string>)
    requires k < |ls| && c < |ls[k]|
    ensures |r| >= |ls|
  {
    if ch == '\n' then ls[..k] + [ls[k][..c], ls[k][c + 1..]] + ls[k + 1..]
    else ls[k := ls[k][c := ch]]
  }

  /**
   * Replacing the char at offset `o` with `ch`, the way writing one element of
   * the rope's char vector and rebuilding the rope does: inside a line the
   * char changes, or the line splits around it when `ch` is '\n'; a '\n'
   * replaced by another char joins its two lines around that char.
   */
  function ReplaceAt(ls: seq<string>, o: nat, ch: char): (r: seq<string>)
    requires |ls| >= 1 && o < LenChars(ls)
    ensures |r| >= 1
  {
    CharToLineSpec(ls, o);
    var k := CharToLine(ls, o);
    var c := o - LineToChar(ls, k);
    if c < |ls[k]| then ReplaceCol(ls, k, c, ch)
    else
      LastLineEnd(ls, k);
      if ch == '\n' then ls else ls[..k] + [ls[k] + [ch] + ls[k + 1]] + ls[k + 2..]
  }

  /** Replacing a char inside line `k` touches only line `k`. */
  lemma ReplaceInLine(ls: seq<string>, k: nat, c: nat, ch: char)
    requires k < |ls| && c < |ls[k]|
    ensures LineToChar(ls, k) + c < LenChars(ls)
    ensures ReplaceAt(ls, LineToChar(ls, k) + c, ch) == ReplaceCol(ls, k, c, ch)
  {
    LineToCharMono(ls, k, |ls|);
    CharToLineOfStart(ls, k, c);
  }

  /** Replacing a char inside a line of a rope leaves a rope. */
  lemma ReplaceColKeepsRope(ls: seq<string>, k: nat, c: nat, ch: char)
    requires IsRope(ls) && k < |ls| && c < |ls[k]|
    ensures IsRope(ReplaceCol(ls, k, c, ch))
  {
    var r := ReplaceCol(ls, k, c, ch);
    if ch == '\n' {
      var a, b := ls[k][..c], ls[k][c + 1..];
      assert '\n' !in a && '\n' !in b by {
        forall i | 0 <= i < |a| ensures a[i] != '\n' { assert a[i] == ls[k][i]; }
        forall i | 0 <= i < |b| ensures b[i] != '\n' { assert b[i] == ls[k][c + 1 + i]; }
      }
      forall j | 0 <= j < |r| ensures '\n' !in r[j] {
        if j < k { assert r[j] == ls[j]; }
        else if j == k { assert r[j] == a; }
        else if j == k + 1 { assert r[j] == b; }
        else { assert r[j] == ls[j - 1]; }
      }
    } else {
      forall j | 0 <= j < |r| ensures '\n' !in r[j] {
        if j == k {
          forall i | 0 <= i < |r[k]| ensures r[k][i] != '\n' {
            if i != c { assert r[k][i] == ls[k][i]; }
          }
        }
      }
    }
  }

  /** No line of the result holds a '\n': replacing keeps the rope a rope. */
  lemma ReplaceKeepsRope(ls: seq<string>, o: nat, ch: char)
    requires IsRope(ls) && o < LenChars(ls)
    ensures IsRope(ReplaceAt(ls, o, ch))
  {
    CharToLineSpec(ls, o);
    var k := CharToLine(ls, o);
    var c := o - LineToChar(ls, k);
    var r := ReplaceAt(ls, o, ch);
    if c < |ls[k]| {
      ReplaceColKeepsRope(ls, k, c, ch);
    } else if ch != '\n' {
      LastLineEnd(ls, k);
      var m := ls[k] + [ch] + ls[k + 1];
      assert '\n' !in m by {
        forall i | 0 <= i < |m| ensures m[i] != '\n' {
          if i < |ls[k]| { assert m[i] == ls[k][i]; }
          else if i > |ls[k]| { assert m[i] == ls[k + 1][i - |ls[k]| - 1]; }
        }
      }
      forall j | 0 <= j < |r| ensures '\n' !in r[j] {
        if j < k { assert r[j] == ls[j]; }
        else if j == k { assert r[j] == m; }
        else { assert r[j] == ls[j + 1]; }
      }
    }
  }

  /** `Rope::insert(o, text)` for a text without '\n': the text goes into the line holding `o`. */
  function InsertText(ls: seq<string>, o: nat, text: string): (r: seq<string>)
    requires |ls| >= 1 && o <= LenChars(ls) && '\n' !in text
    ensures |r| == |ls|
  {
    CharToLineSpec(ls, o);
    var k := CharToLine(ls, o);
    var c := o - LineToChar(ls, k);
    ls[k := ls[k][..c] + text + ls[k][c..]]
  }

  /** Inserting at the end of line `k` appends to line `k`. */
  lemma InsertTextAtLineEnd(ls: seq<string>, k: nat, text: string)
    requires k < |ls| && '\n' !in text
    ensures LineEnd(ls, k) <= LenChars(ls)
    ensures InsertText(ls, LineEnd(ls, k), text) == ls[k := ls[k] + text]
  {
    LineToCharMono(ls, k, |ls|);
    CharToLineOfStart(ls, k, |ls[k]|);
    assert ls[k][..|ls[k]|] == ls[k] && ls[k][|ls[k]|..] == [];
    assert ls[k] + text + [] == ls[k] + text;
  }

  /**
   * `Rope::line_to_char(k)` as the rope answers it, for `k` up to
   * `len_lines`: the start of line `k`, and the rope's length for `k == len_lines`.
   */
  function LineStart(ls: seq<string>, k: nat): (o: nat)
    requires |ls| >= 1 && k <= |ls|
    ensures o <= LineToChar(ls, k)
  {
    if k < |ls| then LineToChar(ls, k) else LenChars(ls)
  }

  /** `Rope::line(k).len_chars()`: the chars of line `k` with the '\n' ending it, if any. */
  function LineSliceLen(ls: seq<string>, k: nat): (n: nat)
    requires k < |ls|
    ensures n == |ls[k]| + (if k + 1 < |ls| then 1 else 0)
  {
    if k + 1 < |ls| then |ls[k]| + 1 else |ls[k]|
  }

  /** The total length of the lines, without the '\n's between them. */
  function TotalLen(ls: seq<string>): nat
  {
    if |ls| == 0 then 0 else TotalLen(ls[..|ls| - 1]) + |ls[|ls| - 1]|
  }

  lemma {:induction false} TotalLenConcat(a: seq<string>, b: seq<string>)
    ensures TotalLen(a + b) == TotalLen(a) + TotalLen(b)
    decreases |b|
  {
    if |b| > 0 {
      assert (a + b)[..|a + b| - 1] == a + b[..|b| - 1];
      TotalLenConcat(a, b[..|b| - 1]);
    } else {
      assert a + b == a;
    }
  }

  /** A line starts after the lines before it and one '\n' for each. */
  lemma {:induction false} LineToCharTotal(ls: seq<string>, k: nat)
    requires k <= |ls|
    ensures LineToChar(ls, k) == TotalLen(ls[..k]) + k
    decreases k
  {
    if k > 0 {
      LineToCharTotal(ls, k - 1);
      assert ls[..k][..k - 1] == ls[..k - 1];
    }
  }

  /** The chars of a rope are its lines and the '\n's between them. */
  lemma LenCharsTotal(ls: seq<string>)
    requires |ls| >= 1
    ensures LenChars(ls) + 1 == TotalLen(ls) + |ls|
  {
    LineToCharTotal(ls, |ls|);
    assert ls[..|ls|] == ls;
  }

  /** Splitting a line adds one char, the '\n' between the two parts. */
  lemma LenCharsSplit(ls: seq<string>, k: nat, c: nat)
    requires k < |ls| && c <= |ls[k]|
    ensures LenChars(SplitLine(ls, k, c)) == LenChars(ls) + 1
  {
    var r := SplitLine(ls, k, c);
    LenCharsTotal(ls);
    LenCharsTotal(r);
    assert ls == ls[..k] + [ls[k]] + ls[k + 1..];
    assert ls[k] == ls[k][..c] + ls[k][c..];
    TotalLenConcat(ls[..k] + [ls[k]], ls[k + 1..]);
    TotalLenConcat(ls[..k], [ls[k]]);
    TotalLenConcat(ls[..k] + [ls[k][..c], ls[k][c..]], ls[k + 1..]);
    TotalLenConcat(ls[..k], [ls[k][..c], ls[k][c..]]);
    assert [ls[k][..c], ls[k][c..]] == [ls[k][..c]] + [ls[k][c..]];
    TotalLenConcat([ls[k][..c]], [ls[k][c..]]);
  }

  /** Joining two lines removes one char, the '\n' between them. */
  lemma LenCharsJoin(ls: seq<string>, k: nat)
    requires k + 1 < |ls|
    ensures LenChars(JoinLine(ls, k)) + 1 == LenChars(ls)
  {
    var r := JoinLine(ls, k);
    LenCharsTotal(ls);
    LenCharsTotal(r);
    assert ls == ls[..k] + [ls[k], ls[k + 1]] + ls[k + 2..];
    TotalLenConcat(ls[..k] + [ls[k], ls[k + 1]], ls[k + 2..]);
    TotalLenConcat(ls[..k], [ls[k], ls[k + 1]]);
    assert [ls[k], ls[k + 1]] == [ls[k]] + [ls[k + 1]];
    TotalLenConcat([ls[k]], [ls[k + 1]]);
    TotalLenConcat(ls[..k] + [ls[k] + ls[k + 1]], ls[k + 2..]);
    TotalLenConcat(ls[..k], [ls[k] + ls[k + 1]]);
  }

  /** Changing one line changes the length by the difference of the lines. */
  lemma LenCharsReplaceLine(ls: seq<string>, k: nat, line: string)
    requires k < |ls|
    ensures LenChars(ls[k := line]) + |ls[k]| == LenChars(ls) + |line|
  {
    LineToCharShift(ls, k, line, |ls|);
  }

  /** Removing the char at offset `o`, column `c` of line `k`, shortens that line only. */
  lemma RemoveInLine(ls: seq<string>, k: nat, c: nat, o: nat)
    requires k < |ls| && c < |ls[k]| && o == LineToChar(ls, k) + c
    ensures o < LenChars(ls)
    ensures RemoveAt(ls, o) == ls[k := ls[k][..c] + ls[k][c + 1..]]
  {
    LineToCharMono(ls, k, |ls|);
    CharToLineOfStart(ls, k, c);
  }

  /** Removing the '\n' that ends line `k` joins it with the next line. */
  lemma RemoveLineBreak(ls: seq<string>, k: nat)
    requires k + 1 < |ls|
    ensures LineEnd(ls, k) < LenChars(ls)
    ensures RemoveAt(ls, LineEnd(ls, k)) == JoinLine(ls, k)
  {
    LineToCharMono(ls, k + 1, |ls|);
    CharToLineOfStart(ls, k, |ls[k]|);
  }

  /** Inserting at offset `o`, column `c` of line `k`, edits that line, or splits it for a '\n'. */
  lemma InsertInLine(ls: seq<string>, k: nat, c: nat, ch: char, o: nat)
    requires k < |ls| && c <= |ls[k]| && o == LineToChar(ls, k) + c
    ensures o <= LenChars(ls)
    ensures InsertAt(ls, o, ch) ==
      if ch == '\n' then SplitLine(ls, k, c) else ls[k := ls[k][..c] + [ch] + ls[k][c..]]
  {
    LineToCharMono(ls, k, |ls|);
    CharToLineOfStart(ls, k, c);
    assert CharToLine(ls, o) == k && o - LineToChar(ls, CharToLine(ls, o)) == c;
  }

  /** The '\n' ending a line that is not the last is at the line's end. */
  lemma BreakAtLineEnd(ls: seq<string>, k: nat)
    requires k + 1 < |ls|
    ensures LineEnd(ls, k) < LenChars(ls) && CharAt(ls, LineEnd(ls, k)) == '\n'
  {
    LineToCharMono(ls, k + 1, |ls|);
    CharToLineOfStart(ls, k, |ls[k]|);
  }

  /** Removing any char of the rope shortens it by exactly one. */
  lemma RemoveAtLength(ls: seq<string>, o: nat)
    requires |ls| >= 1 && o < LenChars(ls)
    ensures |RemoveAt(ls, o)| >= 1 && LenChars(RemoveAt(ls, o)) + 1 == LenChars(ls)
  {
    CharToLineSpec(ls, o);
    var k := CharToLine(ls, o);
    var c := o - LineToChar(ls, k);
    if c < |ls[k]| {
      LenCharsReplaceLine(ls, k, ls[k][..c] + ls[k][c + 1..]);
    } else {
      LastLineEnd(ls, k);
      LenCharsJoin(ls, k);
    }
  }

  /** The parts of a line without '\n' hold no '\n'. */
  lemma SliceHasNoBreak(line: string, i: nat, j: nat)
    requires '\n' !in line && i <= j <= |line|
    ensures '\n' !in line[i..j]
  {
    forall t | 0 <= t < j - i ensures line[i..j][t] != '\n' { assert line[i..j][t] == line[i + t]; }
  }

  /** Splitting a line of a rope leaves a rope. */
  lemma SplitKeepsRope(ls: seq<string>, k: nat, c: nat)
    requires IsRope(ls) && k < |ls| && c <= |ls[k]|
    ensures IsRope(SplitLine(ls, k, c))
  {
    var r := SplitLine(ls, k, c);
    SliceHasNoBreak(ls[k], 0, c);
    SliceHasNoBreak(ls[k], c, |ls[k]|);
    assert ls[k][..c] == ls[k][0..c];
    forall j | 0 <= j < |r| ensures '\n' !in r[j] {
      if j < k { assert r[j] == ls[j]; }
      else if j > k + 1 { assert r[j] == ls[j - 1]; }
    }
  }

  /** Joining two lines of a rope leaves a rope. */
  lemma JoinKeepsRope(ls: seq<string>, k: nat)
    requires IsRope(ls) && k + 1 < |ls|
    ensures IsRope(JoinLine(ls, k))
  {
    var r := JoinLine(ls, k);
    var m := ls[k] + ls[k + 1];
    assert '\n' !in m by {
      forall i | 0 <= i < |m| ensures m[i] != '\n' {
        if i < |ls[k]| { assert m[i] == ls[k][i]; } else { assert m[i] == ls[k + 1][i - |ls[k]|]; }
      }
    }
    forall j | 0 <= j < |r| ensures '\n' !in r[j] {
      if j < k { assert r[j] == ls[j]; }
      else if j == k { assert r[j] == m; }
      else { assert r[j] == ls[j + 1]; }
    }
  }

  /** Changing one line of a rope to a line without '\n' leaves a rope. */
  lemma LineKeepsRope(ls: seq<string>, k: nat, line: string)
    requires IsRope(ls) && k < |ls| && '\n' !in line
    ensures IsRope(ls[k := line])
  {
  }

  /** Removing any char of a rope leaves a rope. */
  lemma RemoveKeepsRope(ls: seq<string>, o: nat)
    requires IsRope(ls) && o < LenChars(ls)
    ensures IsRope(RemoveAt(ls, o))
  {
    CharToLineSpec(ls, o);
    var k := CharToLine(ls, o);
    var c := o - LineToChar(ls, k);
    if c < |ls[k]| {
      var m := ls[k][..c] + ls[k][c + 1..];
      assert '\n' !in m by {
        forall i | 0 <= i < |m| ensures m[i] != '\n' {
          if i < c { assert m[i] == ls[k][i]; } else { assert m[i] == ls[k][i + 1]; }
        }
      }
      LineKeepsRope(ls, k, m);
    } else {
      LastLineEnd(ls, k);
      JoinKeepsRope(ls, k);
    }
  }

  /** Inserting '\n' at the end of the rope adds one empty line. */
  lemma AppendLineBreak(ls: seq<string>)
    requires |ls| >= 1
    ensures InsertAt(ls, LenChars(ls), '\n') == AddLines(ls, 1)
  {
    var k := |ls| - 1;
    assert LineEnd(ls, k) == LenChars(ls);
    InsertInLine(ls, k, |ls[k]|, '\n', LenChars(ls));
    assert ls[k][..|ls[k]|] == ls[k] && ls[k][|ls[k]|..] == "" && ls[k + 1..] == [];
    assert ls[..k] + [ls[k]] == ls;
    assert SplitLine(ls, k, |ls[k]|) == ls + [""];
  }

  /** Adding empty lines to a rope leaves a rope. */
  lemma AddLinesKeepsRope(ls: seq<string>, n: nat)
    requires IsRope(ls)
    ensures IsRope(AddLines(ls, n))
  {
    var r := AddLines(ls, n);
    forall k | 0 <= k < |r| ensures '\n' !in r[k] {
      if k < |ls| { assert r[k] == ls[k]; } else { assert r[k] == ""; }
    }
  }

  /** Adding lines one at a time adds them all. */
  lemma AddLinesStep(ls: seq<string>, n: nat)
    ensures AddLines(AddLines(ls, n), 1) == AddLines(ls, n + 1)
  {
  }
}
