/**
 * Character and string helpers with the semantics of Rust's `char` and `str`.
 * Strings are sequences of Unicode scalar values; where Rust measures a
 * string in bytes (`str::len`) the UTF-8 length is computed explicitly.
 */
module Text {

  /** `char::is_whitespace`: the Unicode White_Space property. */
  predicate IsWhitespace(c: char) {
    ('\t' <= c <= '\r') || c == ' ' || c == '\U{85}' || c == '\U{A0}' || c == '\U{1680}'
    || ('\U{2000}' <= c <= '\U{200A}') || c == '\U{2028}' || c == '\U{2029}'
    || c == '\U{202F}' || c == '\U{205F}' || c == '\U{3000}'
  }

  /** `char::is_control`: the Unicode general category Cc. */
  predicate IsControl(c: char) {
    c <= '\U{1F}' || ('\U{7F}' <= c <= '\U{9F}')
  }

  predicate IsAsciiDigit(c: char) { '0' <= c <= '9' }
  predicate IsAsciiLower(c: char) { 'a' <= c <= 'z' }
  predicate IsAsciiUpper(c: char) { 'A' <= c <= 'Z' }
  predicate IsAscii(c: char) { c as int < 0x80 }

  /** Number of bytes `c` takes in UTF-8 (`char::len_utf8`). */
  function Utf8Len(c: char): (n: nat)
    ensures 1 <= n <= 4
    ensures n == 1 <==> IsAscii(c)
  {
    if c as int < 0x80 then 1
    else if c as int < 0x800 then 2
    else if c as int < 0x10000 then 3
    else 4
  }

  /** `str::len`: the UTF-8 byte length of `s`. */
  function ByteLen(s: string): nat {
    if s == [] then 0 else Utf8Len(s[0]) + ByteLen(s[1..])
  }

  lemma {:induction false} ByteLenAppend(a: string, b: string)
    ensures ByteLen(a + b) == ByteLen(a) + ByteLen(b)
  {
    if a == [] {
      assert a + b == b;
    } else {
      assert (a + b)[0] == a[0];
      assert (a + b)[1..] == a[1..] + b;
      ByteLenAppend(a[1..], b);
    }
  }

  /** A string is never shorter in bytes than in chars, and equal exactly when it is ASCII. */
  lemma {:induction false} ByteLenBounds(s: string)
    ensures ByteLen(s) >= |s|
    ensures ByteLen(s) == |s| <==> forall i :: 0 <= i < |s| ==> IsAscii(s[i])
  {
    if s != [] {
      ByteLenBounds(s[1..]);
      assert forall i :: 1 <= i < |s| ==> s[i] == s[1..][i - 1];
    }
  }

  /** `str::trim_end`: the longest prefix of `s` that does not end in whitespace. */
  function TrimEnd(s: string): (r: string)
    ensures r <= s
    ensures r == [] || !IsWhitespace(r[|r| - 1])
    ensures forall i :: |r| <= i < |s| ==> IsWhitespace(s[i])
  {
    if s == [] || !IsWhitespace(s[|s| - 1]) then s else TrimEnd(s[..|s| - 1])
  }

  /** `str::trim_start`: `s` without its leading whitespace. */
  function TrimStart(s: string): (r: string)
    ensures |r| <= |s| && r == s[|s| - |r|..]
    ensures r == [] || !IsWhitespace(r[0])
    ensures forall i :: 0 <= i < |s| - |r| ==> IsWhitespace(s[i])
  {
    if s == [] || !IsWhitespace(s[0]) then s else TrimStart(s[1..])
  }

  /** `str::trim`. */
  function Trim(s: string): string {
    TrimStart(TrimEnd(s))
  }

  lemma TrimNoLonger(s: string)
    ensures |Trim(s)| <= |s|
  {
    var e := TrimEnd(s);
    assert |e| <= |s|;
  }

  /** Trimming only removes characters, so a character absent from `s` is absent from `Trim(s)`. */
  lemma TrimKeepsOut(s: string, ch: char)
    requires ch !in s
    ensures ch !in Trim(s)
  {
    var e := TrimEnd(s);
    assert e == s[..|e|];
    var t := TrimStart(e);
    assert t == e[|e| - |t|..];
  }

  /** Index of the first `c` in `s`, or `|s|` when there is none. */
  function IndexOf(s: string, c: char): (i: nat)
    ensures i <= |s|
    ensures i < |s| ==> s[i] == c
    ensures forall j :: 0 <= j < i ==> s[j] != c
  {
    if s == [] then 0 else if s[0] == c then 0 else 1 + IndexOf(s[1..], c)
  }

  /** One line as `str::lines` yields it: a final carriage return is removed. */
  function StripCR(line: string): string {
    if |line| > 0 && line[|line| - 1] == '\r' then line[..|line| - 1] else line
  }

  /**
   * `str::lines`: split at every '\n', dropping one '\r' before it; a final
   * "\n" ends the last line rather than starting an empty one, and the
   * empty string has no lines at all.
   */
  function Lines(s: string): (r: seq<string>)
    ensures forall k :: 0 <= k < |r| ==> '\n' !in r[k]
    ensures (s == []) <==> (r == [])
    decreases |s|
  {
    if s == [] then []
    else
      var i := IndexOf(s, '\n');
      if i == |s| then [s] else [StripCR(s[..i])] + Lines(s[i + 1..])
  }

  /** `[String]::join(sep)`. */
  function Join(parts: seq<string>, sep: string): string {
    if |parts| == 0 then []
    else if |parts| == 1 then parts[0]
    else parts[0] + sep + Join(parts[1..], sep)
  }

  /**
   * Joining lines with "\n" and splitting the result again gives the lines back,
   * provided no line holds a newline, none ends with '\r' and the last is not empty.
   */
  lemma {:induction false} LinesOfJoin(parts: seq<string>)
    requires |parts| > 0 && parts[|parts| - 1] != []
    requires forall k :: 0 <= k < |parts| ==> '\n' !in parts[k]
    requires forall k :: 0 <= k < |parts| ==> parts[k] == [] || parts[k][|parts[k]| - 1] != '\r'
    ensures Lines(Join(parts, "\n")) == parts
    decreases |parts|
  {
    var s := Join(parts, "\n");
    if |parts| == 1 {
      assert s == parts[0];
      assert '\n' !in s;
    } else {
      var rest := Join(parts[1..], "\n");
      assert s == parts[0] + "\n" + rest;
      SplitAtBreak(parts[0], rest);
      LinesOfJoin(parts[1..]);
      assert Lines(rest) == parts[1..];
    }
  }

  /** The first '\n' of `a + "\n" + rest` is the one after `a`, when `a` holds none. */
  lemma SplitAtBreak(a: string, rest: string)
    requires '\n' !in a
    ensures var s := a + "\n" + rest; IndexOf(s, '\n') == |a| && s[..|a|] == a && s[|a| + 1..] == rest
  {
    var s := a + "\n" + rest;
    assert s[|a|] == '\n';
    assert forall j :: 0 <= j < |a| ==> s[j] == a[j];
  }

  /** Each line followed by '\n': what a loop of `push_str(line); push('\n')` builds. */
  function Unlines(ls: seq<string>): string {
    if ls == [] then [] else Unlines(ls[..|ls| - 1]) + ls[|ls| - 1] + "\n"
  }

  /** Unlines of one more line of `ls`. */
  lemma UnlinesSnoc(ls: seq<string>, n: nat)
    requires n < |ls|
    ensures Unlines(ls[..n + 1]) == Unlines(ls[..n]) + ls[n] + "\n"
  {
    assert ls[..n + 1][..n] == ls[..n];
  }

  /**
   * Splitting '\n'-terminated lines gives the lines back, provided no line
   * holds a newline or ends with '\r'.
   */
  lemma {:induction false} LinesOfUnlines(ls: seq<string>)
    requires forall k :: 0 <= k < |ls| ==> '\n' !in ls[k]
    requires forall k :: 0 <= k < |ls| ==> ls[k] == [] || ls[k][|ls[k]| - 1] != '\r'
    ensures Lines(Unlines(ls)) == ls
    decreases |ls|
  {
    if ls != [] {
      var rest := Unlines(ls[1..]);
      UnlinesCons(ls);
      SplitAtBreak(ls[0], rest);
      LinesOfUnlines(ls[1..]);
    }
  }

  lemma {:induction false} UnlinesCons(ls: seq<string>)
    requires ls != []
    ensures Unlines(ls) == ls[0] + "\n" + Unlines(ls[1..])
    decreases |ls|
  {
    if |ls| > 1 {
      UnlinesCons(ls[..|ls| - 1]);
      assert ls[..|ls| - 1][1..] == ls[1..][..|ls[1..]| - 1];
      assert ls[..|ls| - 1][0] == ls[0];
    } else {
      assert ls[..0] == [];
    }
  }

  /** `n` copies of `c` (`c.to_string().repeat(n)`). */
  function Repeat(c: char, n: nat): (r: string)
    ensures |r| == n && forall i :: 0 <= i < n ==> r[i] == c
  {
    if n == 0 then [] else [c] + Repeat(c, n - 1)
  }

  /** `format!("{:<w$}", s)`: pads with spaces to `w` chars and never truncates. */
  function PadRight(s: string, w: nat): (r: string)
    ensures |r| == if |s| < w then w else |s|
    ensures r[..|s|] == s
    ensures forall i :: |s| <= i < |r| ==> r[i] == ' '
  {
    if |s| < w then s + Repeat(' ', w - |s|) else s
  }

  /** Index of the first whitespace char of `s`, or `|s|`. */
  function WordEnd(s: string): (i: nat)
    ensures i <= |s|
    ensures i < |s| ==> IsWhitespace(s[i])
    ensures forall j :: 0 <= j < i ==> !IsWhitespace(s[j])
  {
    if s == [] || IsWhitespace(s[0]) then 0 else 1 + WordEnd(s[1..])
  }

  /** A word as `str::split_whitespace` yields it: non-empty, with no whitespace. */
  predicate IsWord(w: string) {
    w != [] && forall j :: 0 <= j < |w| ==> !IsWhitespace(w[j])
  }

  /** `str::split_whitespace`: the maximal runs of non-whitespace chars, in order. */
  function SplitWhitespace(s: string): (r: seq<string>)
    ensures forall k :: 0 <= k < |r| ==> IsWord(r[k])
    decreases |s|, 1
  {
    SplitWords(TrimStart(s))
  }

  /** The split of a string that does not start with whitespace: its first word, then the split of the rest. */
  function SplitWords(t: string): (r: seq<string>)
    requires t == [] || !IsWhitespace(t[0])
    ensures forall k :: 0 <= k < |r| ==> IsWord(r[k])
    decreases |t|, 0
  {
    if t == [] then [] else
      var i := WordEnd(t);
      var w := t[..i];
      FirstWord(t);
      var rest := SplitWhitespace(t[i..]);
      ConsWords(w, rest);
      [w] + rest
  }

  /** A string that starts with a non-whitespace char starts with a word. */
  lemma FirstWord(t: string)
    requires t != [] && !IsWhitespace(t[0])
    ensures 0 < WordEnd(t) && IsWord(t[..WordEnd(t)])
  {
  }

  /** A word in front of a sequence of words gives a sequence of words. */
  lemma ConsWords(w: string, rest: seq<string>)
    requires IsWord(w) && forall k :: 0 <= k < |rest| ==> IsWord(rest[k])
    ensures forall k :: 0 <= k < |[w] + rest| ==> IsWord(([w] + rest)[k])
  {
    forall k | 0 <= k < |[w] + rest| ensures IsWord(([w] + rest)[k]) {
      if k > 0 {
        assert ([w] + rest)[k] == rest[k - 1];
      }
    }
  }

  /** The first word of `w + rest` is all of `w` when `rest` is empty or starts with whitespace. */
  lemma {:induction false} WordEndAt(w: string, rest: string)
    requires forall j :: 0 <= j < |w| ==> !IsWhitespace(w[j])
    requires rest == [] || IsWhitespace(rest[0])
    ensures WordEnd(w + rest) == |w|
  {
    if w != [] {
      assert (w + rest)[1..] == w[1..] + rest;
      WordEndAt(w[1..], rest);
    } else {
      assert w + rest == rest;
    }
  }

  /** A word followed by nothing or by whitespace is the first word of the split. */
  lemma SplitFirstWord(w: string, rest: string)
    requires IsWord(w) && (rest == [] || IsWhitespace(rest[0]))
    ensures SplitWhitespace(w + rest) == [w] + SplitWhitespace(rest)
  {
    var s := w + rest;
    assert TrimStart(s) == s by {
      assert s[0] == w[0];
    }
    WordEndAt(w, rest);
    assert s[..|w|] == w && s[|w|..] == rest;
    assert SplitWhitespace(s) == SplitWords(s);
  }

  /** Leading whitespace does not change the split. */
  lemma SplitSkipsSpace(s: string)
    ensures SplitWhitespace(" " + s) == SplitWhitespace(s)
  {
    var t := " " + s;
    assert t[1..] == s;
    assert IsWhitespace(t[0]);
    assert TrimStart(t) == TrimStart(s);
  }

  /** Words joined by single spaces split back into the same words. */
  lemma {:induction false} SplitJoin(words: seq<string>)
    requires forall k :: 0 <= k < |words| ==> IsWord(words[k])
    ensures SplitWhitespace(Join(words, " ")) == words
    decreases |words|
  {
    if |words| == 1 {
      SplitFirstWord(words[0], []);
      assert words[0] + [] == words[0];
    } else if |words| > 1 {
      var rest := Join(words[1..], " ");
      var tail := " " + rest;
      assert Join(words, " ") == words[0] + tail by {
        assert Join(words, " ") == words[0] + " " + rest;
      }
      assert SplitWhitespace(words[0] + tail) == [words[0]] + SplitWhitespace(rest) by {
        assert IsWhitespace(tail[0]);
        SplitFirstWord(words[0], tail);
        SplitSkipsSpace(rest);
      }
      assert SplitWhitespace(rest) == words[1..] by {
        forall k | 0 <= k < |words[1..]| ensures IsWord(words[1..][k]) {
          assert words[1..][k] == words[k + 1];
        }
        SplitJoin(words[1..]);
      }
      assert [words[0]] + words[1..] == words;
    }
  }

  /** ASCII-only `char::to_uppercase`. */
  function UpperChar(c: char): char {
    if IsAsciiLower(c) then (c as int - 32) as char else c
  }

  /** ASCII-only `char::to_lowercase`. */
  function LowerChar(c: char): char {
    if IsAsciiUpper(c) then (c as int + 32) as char else c
  }

  function ToUpper(s: string): (r: string)
    ensures |r| == |s| && forall i :: 0 <= i < |s| ==> r[i] == UpperChar(s[i])
  {
    if s == [] then [] else [UpperChar(s[0])] + ToUpper(s[1..])
  }

  function ToLower(s: string): (r: string)
    ensures |r| == |s| && forall i :: 0 <= i < |s| ==> r[i] == LowerChar(s[i])
  {
    if s == [] then [] else [LowerChar(s[0])] + ToLower(s[1..])
  }

  /** Number of occurrences of `ch` in `s`. */
  function Count(s: string, ch: char): nat {
    if s == [] then 0 else Count(s[..|s| - 1], ch) + (if s[|s| - 1] == ch then 1 else 0)
  }

  lemma {:induction false} CountAppend(a: string, b: string, ch: char)
    ensures Count(a + b, ch) == Count(a, ch) + Count(b, ch)
    decreases |b|
  {
    if b == [] {
      assert a + b == a;
    } else {
      assert (a + b)[..|a + b| - 1] == a + b[..|b| - 1];
      CountAppend(a, b[..|b| - 1], ch);
    }
  }

  /** A string without `ch` has no occurrences of it. */
  lemma {:induction false} CountAbsent(s: string, ch: char)
    requires ch !in s
    ensures Count(s, ch) == 0
    decreases |s|
  {
    if s != [] {
      CountAbsent(s[..|s| - 1], ch);
    }
  }

  /** A string without occurrences of `ch` does not contain it. */
  lemma {:induction false} CountZero(s: string, ch: char)
    requires Count(s, ch) == 0
    ensures ch !in s
    decreases |s|
  {
    if s != [] {
      CountZero(s[..|s| - 1], ch);
      assert s == s[..|s| - 1] + [s[|s| - 1]];
    }
  }
}
