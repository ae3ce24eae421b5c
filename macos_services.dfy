/**
 * The text services of the macOS integration: dispatching a service
 * request, cycling the case of a selection, capitalising words, a line-wise
 * Markdown conversion and RTF export with optional metadata. The
 * `ServicesIntegration` fields (service name, bundle id, temp directory)
 * only feed the osascript/pbcopy/xattr calls, which are not modelled, so
 * the operations are plain members here.
 */
module MacosServices {
  import opened Wrappers
  import opened Text

  // ---------------------------------------------------------------------
  // Dispatch
  // ---------------------------------------------------------------------

  /**
   * `handle_service_request`: "transform", "search" and "markdown" run the
   * matching service; any other action hands the text back unchanged.
   */
  method HandleServiceRequest(action: string, text: string) returns (r: string)
    ensures action == "transform" ==> r == TransformText(text)
    ensures action == "search" ==> r == SearchText(text)
    ensures action == "markdown" ==> r == MarkdownOf(text)
    ensures action != "transform" && action != "search" && action != "markdown" ==> r == text
  {
    if action == "transform" {
      r := TransformText(text);
    } else if action == "search" {
      r := SearchText(text);
    } else if action == "markdown" {
      r := ConvertToMarkdown(text);
    } else {
      r := text;
    }
  }

  /** `search_text`: the reply that announces a search. */
  function SearchText(query: string): string {
    "Searching for: " + query
  }

  // ---------------------------------------------------------------------
  // Case cycling
  // ---------------------------------------------------------------------

  predicate HasLower(s: string) {
    exists i :: 0 <= i < |s| && IsAsciiLower(s[i])
  }

  predicate HasUpper(s: string) {
    exists i :: 0 <= i < |s| && IsAsciiUpper(s[i])
  }

  /** A string equals its upper-case form exactly when it holds no lower-case letter. */
  lemma UpperFixed(s: string)
    ensures s == ToUpper(s) <==> !HasLower(s)
  {
    if !HasLower(s) {
      assert forall i :: 0 <= i < |s| ==> ToUpper(s)[i] == s[i];
    } else {
      var i :| 0 <= i < |s| && IsAsciiLower(s[i]);
      assert ToUpper(s)[i] != s[i];
    }
  }

  /** A string equals its lower-case form exactly when it holds no upper-case letter. */
  lemma LowerFixed(s: string)
    ensures s == ToLower(s) <==> !HasUpper(s)
  {
    if !HasUpper(s) {
      assert forall i :: 0 <= i < |s| ==> ToLower(s)[i] == s[i];
    } else {
      var i :| 0 <= i < |s| && IsAsciiUpper(s[i]);
      assert ToLower(s)[i] != s[i];
    }
  }

  /**
   * `transform_text`: text already in upper case (which includes text with
   * no letters at all) is lowered, lower-case text has its words
   * capitalised, and mixed-case text is raised.
   */
  function TransformText(text: string): (r: string)
    ensures !HasLower(text) ==> r == ToLower(text)
    ensures !HasLower(text) && !HasUpper(text) ==> r == text
    ensures HasLower(text) && !HasUpper(text) ==> r == CapitalizeWords(text)
    ensures HasLower(text) && HasUpper(text) ==> r == ToUpper(text)
  {
    UpperFixed(text);
    LowerFixed(text);
    if text == ToUpper(text) then ToLower(text)
    else if text == ToLower(text) then CapitalizeWords(text)
    else ToUpper(text)
  }

  lemma UpperHasNoLower(s: string)
    ensures !HasLower(ToUpper(s))
    ensures HasUpper(ToUpper(s)) <==> HasLower(s) || HasUpper(s)
  {
    var u := ToUpper(s);
    if HasLower(s) {
      var i :| 0 <= i < |s| && IsAsciiLower(s[i]);
      assert IsAsciiUpper(u[i]);
    } else if HasUpper(s) {
      var i :| 0 <= i < |s| && IsAsciiUpper(s[i]);
      assert IsAsciiUpper(u[i]);
    }
    if HasUpper(u) {
      var i :| 0 <= i < |u| && IsAsciiUpper(u[i]);
      assert IsAsciiLower(s[i]) || IsAsciiUpper(s[i]);
    }
  }

  lemma LowerHasNoUpper(s: string)
    ensures !HasUpper(ToLower(s))
    ensures HasLower(ToLower(s)) <==> HasLower(s) || HasUpper(s)
  {
    var l := ToLower(s);
    if HasLower(s) {
      var i :| 0 <= i < |s| && IsAsciiLower(s[i]);
      assert IsAsciiLower(l[i]);
    } else if HasUpper(s) {
      var i :| 0 <= i < |s| && IsAsciiUpper(s[i]);
      assert IsAsciiLower(l[i]);
    }
    if HasLower(l) {
      var i :| 0 <= i < |l| && IsAsciiLower(l[i]);
      assert IsAsciiLower(s[i]) || IsAsciiUpper(s[i]);
    }
  }

  /** Lowering an upper-cased string is the same as lowering the original. */
  lemma LowerOfUpper(s: string)
    ensures ToLower(ToUpper(s)) == ToLower(s)
  {
    assert forall i :: 0 <= i < |s| ==> ToLower(ToUpper(s))[i] == ToLower(s)[i];
  }

  /**
   * Repeated transforms cycle: mixed case goes to upper case, then to lower
   * case, then to capitalised words.
   */
  lemma TransformCycle(s: string)
    requires HasLower(s) && HasUpper(s)
    ensures TransformText(s) == ToUpper(s)
    ensures TransformText(TransformText(s)) == ToLower(s)
    ensures TransformText(TransformText(TransformText(s))) == CapitalizeWords(ToLower(s))
  {
    UpperHasNoLower(s);
    LowerOfUpper(s);
    LowerHasNoUpper(s);
  }

  // ---------------------------------------------------------------------
  // Capitalising words
  // ---------------------------------------------------------------------

  /** One word with its first char raised to upper case. */
  function Capitalize(w: string): string {
    if w == [] then [] else [UpperChar(w[0])] + w[1..]
  }

  function CapitalizeAll(words: seq<string>): (r: seq<string>)
    ensures |r| == |words| && forall k :: 0 <= k < |words| ==> r[k] == Capitalize(words[k])
  {
    seq(|words|, k requires 0 <= k < |words| => Capitalize(words[k]))
  }

  /** `capitalize_words`: the whitespace-separated words, capitalised, joined by single spaces. */
  function CapitalizeWords(text: string): string {
    Join(CapitalizeAll(SplitWhitespace(text)), " ")
  }

  lemma CapitalizeKeepsWord(w: string)
    requires IsWord(w)
    ensures IsWord(Capitalize(w))
  {
    var c := Capitalize(w);
    assert c[0] == UpperChar(w[0]);
    assert forall j :: 1 <= j < |c| ==> c[j] == w[j];
  }

  /**
   * Splitting the output again gives the input's words, each capitalised:
   * the word count is unchanged and each word keeps all but its first char.
   */
  lemma CapitalizedWords(text: string)
    ensures SplitWhitespace(CapitalizeWords(text)) == CapitalizeAll(SplitWhitespace(text))
    ensures |SplitWhitespace(CapitalizeWords(text))| == |SplitWhitespace(text)|
  {
    var words := CapitalizeAll(SplitWhitespace(text));
    forall k | 0 <= k < |words| ensures IsWord(words[k]) {
      CapitalizeKeepsWord(SplitWhitespace(text)[k]);
    }
    SplitJoin(words);
  }

  /**
   * No leading or trailing whitespace, and every whitespace char is a single
   * ' ' followed by a non-whitespace char.
   */
  predicate SingleSpaced(r: string) {
    && (r == [] || (!IsWhitespace(r[0]) && !IsWhitespace(r[|r| - 1])))
    && forall i :: 0 <= i < |r| - 1 ==> IsWhitespace(r[i]) ==> r[i] == ' ' && !IsWhitespace(r[i + 1])
  }

  lemma {:induction false} JoinSingleSpaced(words: seq<string>)
    requires forall k :: 0 <= k < |words| ==> IsWord(words[k])
    ensures SingleSpaced(Join(words, " "))
    decreases |words|
  {
    if |words| > 1 {
      var w := words[0];
      var rest := Join(words[1..], " ");
      JoinSingleSpaced(words[1..]);
      JoinNonEmpty(words[1..]);
      var r := Join(words, " ");
      assert r == w + " " + rest;
      forall i | 0 <= i < |r| - 1 && IsWhitespace(r[i])
        ensures r[i] == ' ' && !IsWhitespace(r[i + 1])
      {
        if i == |w| {
          assert r[i + 1] == rest[0];
        } else if i > |w| {
          assert r[i] == rest[i - |w| - 1] && r[i + 1] == rest[i - |w|];
        }
      }
      assert r[|r| - 1] == rest[|rest| - 1];
    }
  }

  lemma JoinNonEmpty(words: seq<string>)
    requires |words| > 0 && forall k :: 0 <= k < |words| ==> IsWord(words[k])
    ensures Join(words, " ") != []
  {
    if |words| > 1 {
      assert |Join(words, " ")| >= |words[0]|;
    }
  }

  /** `capitalize_words` never leaves leading, trailing or repeated whitespace. */
  lemma CapitalizeWordsSpacing(text: string)
    ensures SingleSpaced(CapitalizeWords(text))
  {
    var words := CapitalizeAll(SplitWhitespace(text));
    forall k | 0 <= k < |words| ensures IsWord(words[k]) {
      CapitalizeKeepsWord(SplitWhitespace(text)[k]);
    }
    JoinSingleSpaced(words);
  }

  // ---------------------------------------------------------------------
  // Markdown conversion
  // ---------------------------------------------------------------------

  predicate IsHeading(line: string) {
    |line| >= 2 && line[..2] == "# "
  }

  /** One converted line, without its newline. */
  function MdLine(line: string): string {
    if IsHeading(line) then line
    else if line != [] then "**" + line + "**"
    else []
  }

  function MdLines(ls: seq<string>): (r: seq<string>)
    ensures |r| == |ls| && forall k :: 0 <= k < |ls| ==> r[k] == MdLine(ls[k])
  {
    seq(|ls|, k requires 0 <= k < |ls| => MdLine(ls[k]))
  }

  /** What `convert_to_markdown` produces for `text`. */
  function MarkdownOf(text: string): string {
    Unlines(MdLines(Lines(text)))
  }

  /** `convert_to_markdown`: converts line by line, ending every line with '\n'. */
  method ConvertToMarkdown(text: string) returns (result: string)
    ensures result == MarkdownOf(text)
  {
    var lines := Lines(text);
    ghost var md := MdLines(lines);
    result := "";
    var i := 0;
    while i < |lines|
      invariant 0 <= i <= |lines|
      invariant result == Unlines(md[..i])
    {
      var line := lines[i];
      var converted := "";
      if IsHeading(line) {
        converted := line;
      } else if line != [] {
        converted := "**" + line + "**";
      }
      assert converted == md[i];
      UnlinesSnoc(md, i);
      result := result + converted + "\n";
      i := i + 1;
    }
    assert md[..i] == md;
  }

  /** '\n'-terminated lines that hold no '\n' have exactly one '\n' each. */
  lemma {:induction false} UnlinesCount(ls: seq<string>)
    requires forall k :: 0 <= k < |ls| ==> '\n' !in ls[k]
    ensures Count(Unlines(ls), '\n') == |ls|
    decreases |ls|
  {
    if ls != [] {
      var init := ls[..|ls| - 1];
      UnlinesCount(init);
      CountAbsent(ls[|ls| - 1], '\n');
      CountAppend(Unlines(init), ls[|ls| - 1], '\n');
      CountAppend(Unlines(init) + ls[|ls| - 1], "\n", '\n');
      assert Count("\n", '\n') == Count([], '\n') + 1;
    }
  }

  lemma MdLineNoBreak(line: string)
    requires '\n' !in line
    ensures '\n' !in MdLine(line)
  {
  }

  /** The output has exactly one '\n' per line of the input. */
  lemma MarkdownLineCount(text: string)
    ensures Count(MarkdownOf(text), '\n') == |Lines(text)|
  {
    var md := MdLines(Lines(text));
    forall k | 0 <= k < |md| ensures '\n' !in md[k] {
      MdLineNoBreak(Lines(text)[k]);
    }
    UnlinesCount(md);
  }

  /**
   * For text without carriage returns, reading the output's lines back gives
   * one line per input line: headings as they were, other non-empty lines
   * wrapped in "**", empty lines empty.
   */
  lemma MarkdownReadsBack(text: string)
    requires '\r' !in text
    ensures |Lines(MarkdownOf(text))| == |Lines(text)|
    ensures forall k :: 0 <= k < |Lines(text)| ==>
              var line := Lines(text)[k];
              var out := Lines(MarkdownOf(text))[k];
              && (IsHeading(line) ==> out == line)
              && (!IsHeading(line) && line != [] ==> out == "**" + line + "**")
              && (line == [] ==> out == [])
  {
    var ls := Lines(text);
    var md := MdLines(ls);
    LinesNoCR(text);
    forall k | 0 <= k < |md|
      ensures '\n' !in md[k] && (md[k] == [] || md[k][|md[k]| - 1] != '\r')
    {
      MdLineNoBreak(ls[k]);
    }
    LinesOfUnlines(md);
  }

  /** Without '\r' in the text, no line of it holds one. */
  lemma {:induction false} LinesNoCR(s: string)
    requires '\r' !in s
    ensures forall k :: 0 <= k < |Lines(s)| ==> '\r' !in Lines(s)[k]
    decreases |s|
  {
    if s != [] {
      var i := IndexOf(s, '\n');
      if i < |s| {
        var rest := s[i + 1..];
        assert '\r' !in rest by {
          forall j | 0 <= j < |rest| ensures rest[j] != '\r' {
            assert rest[j] == s[i + 1 + j];
          }
        }
        LinesNoCR(rest);
        var head := StripCR(s[..i]);
        assert '\r' !in head by {
          forall j | 0 <= j < |head| ensures head[j] != '\r' {
            assert head[j] == s[j];
          }
        }
        assert Lines(s) == [head] + Lines(rest);
      } else {
        assert Lines(s) == [s];
      }
    }
  }

  // ---------------------------------------------------------------------
  // RTF export
  // ---------------------------------------------------------------------

  /** The document group's opening: RTF version 1, ANSI charset, default font 0. */
  const RtfOpen: string := "{" + "\\rtf1" + "\\ansi" + "\\deff0 "
  const FontName: string := "Times New Roman"
  const FontEntry: string := "{" + "\\f0 " + FontName + ";" + "}"
  const FontTable: string := "{" + "\\fonttbl " + FontEntry + "}"
  /** `{\rtf1\ansi\deff0 {\fonttbl {\f0 Times New Roman;}}`: the document group stays open. */
  const RtfHeader: string := RtfOpen + FontTable
  const CommentOpen: string := "{" + "\\*" + "\\comment "
  const FontSelect: string := "\\f0" + "\\fs24 "
  const RtfTrailer: string := "\\par" + "}"

  /** The metadata comment group; the metadata goes in as it is. */
  function MetaGroup(metadata: Option<string>): string {
    match metadata
    case None => []
    case Some(meta) => CommentOpen + meta + "}"
  }

  /** `str::replace` of one char by a string. */
  function Replace(s: string, c: char, rep: string): string {
    if s == [] then [] else (if s[0] == c then rep else [s[0]]) + Replace(s[1..], c, rep)
  }

  lemma {:induction false} ReplaceAppend(a: string, b: string, c: char, rep: string)
    ensures Replace(a + b, c, rep) == Replace(a, c, rep) + Replace(b, c, rep)
    decreases |a|
  {
    if a == [] {
      assert a + b == b;
    } else {
      assert (a + b)[1..] == a[1..] + b;
      ReplaceAppend(a[1..], b, c, rep);
    }
  }

  /** The RTF escape of one char. */
  function EscapeChar(c: char): string {
    if c == '\\' || c == '{' || c == '}' then ['\\', c] else [c]
  }

  /** Every backslash and brace preceded by a backslash, in one pass. */
  function EscapeRtf(s: string): string {
    if s == [] then [] else EscapeChar(s[0]) + EscapeRtf(s[1..])
  }

  /**
   * Because the backslash pass runs first, the three passes escape every
   * char exactly once: the chain is the one-pass escape.
   */
  lemma {:induction false} ChainEscapes(s: string)
    ensures Replace(Replace(Replace(s, '\\', "\\\\"), '{', "\\{"), '}', "\\}") == EscapeRtf(s)
    decreases |s|
  {
    if s != [] {
      var c := [s[0]];
      var rest := s[1..];
      assert s == c + rest;
      ReplaceAppend(c, rest, '\\', "\\\\");
      var r1 := Replace(c, '\\', "\\\\");
      ReplaceAppend(r1, Replace(rest, '\\', "\\\\"), '{', "\\{");
      var r2 := Replace(r1, '{', "\\{");
      ReplaceAppend(r2, Replace(Replace(rest, '\\', "\\\\"), '{', "\\{"), '}', "\\}");
      ChainEscapes(rest);
      assert Replace(r2, '}', "\\}") == EscapeChar(s[0]);
    }
  }

  /** `text_to_rtf`: header, optional metadata comment, font selection, escaped body, trailer. */
  method TextToRtf(text: string, metadata: Option<string>) returns (rtf: string)
    ensures rtf == RtfHeader + MetaGroup(metadata) + FontSelect + EscapeRtf(text) + RtfTrailer
    ensures rtf[..|RtfHeader|] == RtfHeader
    ensures rtf[|rtf| - |RtfTrailer|..] == RtfTrailer
  {
    var comment := "";
    if metadata.Some? {
      comment := CommentOpen + metadata.value + "}";
    }
    assert comment == MetaGroup(metadata);
    var body := Replace(Replace(Replace(text, '\\', "\\\\"), '{', "\\{"), '}', "\\}");
    ChainEscapes(text);
    rtf := RtfHeader + comment + FontSelect + body + RtfTrailer;
  }

  /** Reading RTF escapes back: a backslash makes the next char literal. */
  function Unescape(s: string): string
    decreases |s|
  {
    if s == [] then []
    else if s[0] == '\\' && |s| >= 2 then [s[1]] + Unescape(s[2..])
    else [s[0]] + Unescape(s[1..])
  }

  /** Escaping loses nothing: reading the escapes back gives the text. */
  lemma {:induction false} EscapeRoundTrip(s: string)
    ensures Unescape(EscapeRtf(s)) == s
    decreases |s|
  {
    if s != [] {
      var e := EscapeRtf(s);
      var rest := EscapeRtf(s[1..]);
      assert e == EscapeChar(s[0]) + rest;
      EscapeRoundTrip(s[1..]);
      if s[0] == '\\' || s[0] == '{' || s[0] == '}' {
        assert e[2..] == rest;
      } else {
        assert e[1..] == rest;
      }
    }
  }

  /**
   * Each backslash of the text becomes two and each brace gains one: no
   * escape is doubled.
   */
  lemma {:induction false} EscapeBackslashes(s: string)
    ensures Count(EscapeRtf(s), '\\') == 2 * Count(s, '\\') + Count(s, '{') + Count(s, '}')
    decreases |s|
  {
    if s != [] {
      var c := [s[0]];
      assert s == c + s[1..];
      EscapeBackslashes(s[1..]);
      CountAppend(c, s[1..], '\\');
      CountAppend(c, s[1..], '{');
      CountAppend(c, s[1..], '}');
      CountAppend(EscapeChar(s[0]), EscapeRtf(s[1..]), '\\');
      assert Count(c, '\\') == Count([], '\\') + (if s[0] == '\\' then 1 else 0);
      assert Count(c, '{') == Count([], '{') + (if s[0] == '{' then 1 else 0);
      assert Count(c, '}') == Count([], '}') + (if s[0] == '}' then 1 else 0);
      var e := EscapeChar(s[0]);
      if |e| == 2 {
        assert e[..1] == ['\\'];
        assert Count(e, '\\') == Count(['\\'], '\\') + (if s[0] == '\\' then 1 else 0);
      }
    }
  }

  // ---------------------------------------------------------------------
  // Group nesting
  // ---------------------------------------------------------------------

  /**
   * Net group nesting of RTF text: a backslash and the char after it are a
   * control symbol and skipped, an unescaped '{' opens a group and an
   * unescaped '}' closes one.
   */
  function Nesting(s: string): int
    decreases |s|
  {
    if s == [] then 0
    else if s[0] == '\\' && |s| >= 2 then Nesting(s[2..])
    else if s[0] == '{' then 1 + Nesting(s[1..])
    else if s[0] == '}' then Nesting(s[1..]) - 1
    else Nesting(s[1..])
  }

  /** Text whose control symbols are complete: it does not end inside an escape. */
  predicate Clean(s: string)
    decreases |s|
  {
    if s == [] then true
    else if s[0] == '\\' then |s| >= 2 && Clean(s[2..])
    else Clean(s[1..])
  }

  lemma {:induction false} NestingAppend(a: string, b: string)
    requires Clean(a)
    ensures Nesting(a + b) == Nesting(a) + Nesting(b)
    ensures Clean(b) ==> Clean(a + b)
    decreases |a|
  {
    if a == [] {
      assert a + b == b;
    } else if a[0] == '\\' {
      assert (a + b)[2..] == a[2..] + b;
      NestingAppend(a[2..], b);
    } else {
      assert (a + b)[1..] == a[1..] + b;
      NestingAppend(a[1..], b);
    }
  }

  /** The escaped body is complete and leaves the nesting as it was. */
  lemma {:induction false} EscapedBalanced(s: string)
    ensures Clean(EscapeRtf(s)) && Nesting(EscapeRtf(s)) == 0
    decreases |s|
  {
    if s != [] {
      var e := EscapeChar(s[0]);
      var rest := EscapeRtf(s[1..]);
      EscapedBalanced(s[1..]);
      assert EscapeRtf(s) == e + rest;
      if |e| == 2 {
        assert (e + rest)[2..] == rest;
      } else {
        assert (e + rest)[1..] == rest;
      }
    }
  }

  lemma {:induction false} PlainNesting(s: string)
    requires '\\' !in s && '{' !in s && '}' !in s
    ensures Clean(s) && Nesting(s) == 0
    decreases |s|
  {
    if s != [] {
      PlainNesting(s[1..]);
    }
  }

  lemma Join3(a: string, b: string, c: string)
    requires Clean(a) && Clean(b) && Clean(c)
    ensures Clean(a + b + c) && Nesting(a + b + c) == Nesting(a) + Nesting(b) + Nesting(c)
  {
    NestingAppend(a, b);
    NestingAppend(a + b, c);
  }

  /** A lone brace opens or closes one group. */
  lemma Braces()
    ensures Clean("{") && Nesting("{") == 1
    ensures Clean("}") && Nesting("}") == -1
  {
  }

  /** A control word: a backslash, then plain text. */
  lemma {:induction false} Control(s: string)
    requires |s| >= 2 && s[0] == '\\'
    requires '\\' !in s[2..] && '{' !in s[2..] && '}' !in s[2..]
    ensures Clean(s) && Nesting(s) == 0
  {
    PlainNesting(s[2..]);
  }

  lemma OpenNesting()
    ensures Clean(RtfOpen) && Nesting(RtfOpen) == 1
  {
    Braces();
    Control("\\rtf1");
    Control("\\ansi");
    Control("\\deff0 ");
    Join3("{", "\\rtf1", "\\ansi");
    NestingAppend("{" + "\\rtf1" + "\\ansi", "\\deff0 ");
  }

  lemma EntryNesting()
    ensures Clean(FontEntry) && Nesting(FontEntry) == 0
  {
    Braces();
    Control("\\f0 ");
    PlainNesting(FontName);
    PlainNesting(";");
    Join5("{", "\\f0 ", FontName, ";", "}");
  }

  lemma TableNesting()
    ensures Clean(FontTable) && Nesting(FontTable) == 0
  {
    Braces();
    Control("\\fonttbl ");
    EntryNesting();
    Join3("{", "\\fonttbl ", FontEntry);
    NestingAppend("{" + "\\fonttbl " + FontEntry, "}");
  }

  /** The header leaves exactly the document group open. */
  lemma HeaderNesting()
    ensures Clean(RtfHeader) && Nesting(RtfHeader) == 1
  {
    OpenNesting();
    TableNesting();
    NestingAppend(RtfOpen, FontTable);
  }

  lemma SelectNesting()
    ensures Clean(FontSelect) && Nesting(FontSelect) == 0
  {
    Control("\\f0");
    Control("\\fs24 ");
    NestingAppend("\\f0", "\\fs24 ");
  }

  lemma TrailerNesting()
    ensures Clean(RtfTrailer) && Nesting(RtfTrailer) == -1
  {
    Control("\\par");
    Braces();
    NestingAppend("\\par", "}");
  }

  lemma CommentNesting()
    ensures Clean(CommentOpen) && Nesting(CommentOpen) == 1
  {
    Braces();
    Control("\\*");
    Control("\\comment ");
    Join3("{", "\\*", "\\comment ");
  }

  lemma Join5(a: string, b: string, c: string, d: string, e: string)
    requires Clean(a) && Clean(b) && Clean(c) && Clean(d) && Clean(e)
    ensures Clean(a + b + c + d + e)
    ensures Nesting(a + b + c + d + e) == Nesting(a) + Nesting(b) + Nesting(c) + Nesting(d) + Nesting(e)
  {
    Join3(a, b, c);
    NestingAppend(a + b + c, d);
    NestingAppend(a + b + c + d, e);
  }

  /** The metadata group nests as its contents do. */
  lemma MetaGroupNesting(metadata: Option<string>)
    requires metadata.Some? ==> Clean(metadata.value)
    ensures Clean(MetaGroup(metadata))
    ensures Nesting(MetaGroup(metadata)) == if metadata.Some? then Nesting(metadata.value) else 0
  {
    if metadata.Some? {
      CommentNesting();
      Braces();
      Join3(CommentOpen, metadata.value, "}");
    }
  }

  /**
   * Without metadata the document is one balanced group; with metadata the
   * net nesting is that of the metadata, which is not escaped, so a '}' in
   * it closes the comment group early and unbalances the document.
   */
  lemma RtfNesting(text: string, metadata: Option<string>)
    requires metadata.Some? ==> Clean(metadata.value)
    ensures metadata.None? ==> Nesting(RtfHeader + MetaGroup(metadata) + FontSelect + EscapeRtf(text) + RtfTrailer) == 0
    ensures metadata.Some? ==>
              Nesting(RtfHeader + MetaGroup(metadata) + FontSelect + EscapeRtf(text) + RtfTrailer) == Nesting(metadata.value)
  {
    HeaderNesting();
    SelectNesting();
    TrailerNesting();
    EscapedBalanced(text);
    MetaGroupNesting(metadata);
    Join5(RtfHeader, MetaGroup(metadata), FontSelect, EscapeRtf(text), RtfTrailer);
  }

  /** A metadata string "}" leaves the document one group short. */
  lemma BraceMetadataUnbalances(text: string)
    ensures Nesting(RtfHeader + MetaGroup(Some("}")) + FontSelect + EscapeRtf(text) + RtfTrailer) == -1
  {
    Braces();
    RtfNesting(text, Some("}"));
  }
}
