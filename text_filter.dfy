/**
 * Sanitising of text before it reaches the editor: which chars may be
 * inserted, and the removal of ANSI escape sequences from pasted text.
 */
module TextFilter {
  import opened Text

  const ESC: char := '\U{1B}'
  const BEL: char := '\U{07}'

  predicate IsAsciiAlphabetic(c: char) { IsAsciiLower(c) || IsAsciiUpper(c) }

  /**
   * `is_allowed_char`: printable ASCII, '\n', '\r' and '\t', whitespace, and
   * every char that is not a control char. Unicode alphanumerics are never
   * control chars, so the alphanumeric arm accepts nothing the last arm
   * does not. What is refused is a control char that is not whitespace.
   */
  function IsAllowedChar(c: char): bool {
    if ' ' <= c <= '~' then true
    else if c == '\n' || c == '\r' || c == '\t' then true
    else if IsWhitespace(c) then true
    else !IsControl(c)
  }

  /** Exactly the control chars that are not whitespace are refused. */
  lemma AllowedIffNotControl(c: char)
    ensures IsAllowedChar(c) <==> !IsControl(c) || c in {'\t', '\n', '\U{0B}', '\U{0C}', '\r', '\U{85}'}
  {
  }

  /** The chars the unit tests name. */
  lemma AllowedExamples()
    ensures IsAllowedChar('a') && IsAllowedChar(' ') && IsAllowedChar('\n') && IsAllowedChar('\t')
    ensures !IsAllowedChar(ESC) && !IsAllowedChar('\U{00}') && !IsAllowedChar(BEL)
  {
  }

  /**
   * What `strip_ansi_codes` emits for `s[i..]` when it starts with the
   * escape flag `inEscape`. The sequence type stays NUL throughout (the
   * '[' and ']' arms are only tried when no escape is open), so an open
   * escape always ends at the next char, which is dropped.
   */
  function StripFrom(s: string, i: nat, inEscape: bool): string
    requires i <= |s|
    decreases |s| - i
  {
    if i == |s| then ""
    else if inEscape then StripFrom(s, i + 1, false)
    else if s[i] == ESC then StripFrom(s, i + 1, true)
    else if IsAllowedChar(s[i]) then [s[i]] + StripFrom(s, i + 1, false)
    else StripFrom(s, i + 1, false)
  }

  function Strip(s: string): string {
    StripFrom(s, 0, false)
  }

  /** `strip_ansi_codes`: the char loop with its escape flag and escape type. */
  method StripAnsiCodes(text: string) returns (result: string)
    ensures result == Strip(text)
  {
    result := "";
    var inEscape := false;
    var escapeType := '\U{00}';
    var i := 0;
    while i < |text|
      invariant 0 <= i <= |text|
      invariant escapeType == '\U{00}'
      invariant result + StripFrom(text, i, inEscape) == Strip(text)
    {
      var c := text[i];
      if inEscape {
        if escapeType == '[' {
          if IsAsciiAlphabetic(c) {
            inEscape := false;
            escapeType := '\U{00}';
          }
        } else if escapeType == ']' {
          if c == BEL {
            inEscape := false;
            escapeType := '\U{00}';
          }
        } else {
          inEscape := false;
          escapeType := '\U{00}';
        }
      } else if c == ESC {
        inEscape := true;
      } else if c == '[' && inEscape {
        escapeType := '[';
      } else if c == ']' && inEscape {
        escapeType := ']';
      } else if IsAllowedChar(c) {
        assert result + StripFrom(text, i, inEscape) == result + [c] + StripFrom(text, i + 1, false);
        result := result + [c];
      }
      i := i + 1;
    }
  }

  /** Every char of the output is allowed; in particular no ESC survives. */
  lemma {:induction false} StripAllowed(s: string, i: nat, inEscape: bool)
    requires i <= |s|
    ensures forall k :: 0 <= k < |StripFrom(s, i, inEscape)| ==> IsAllowedChar(StripFrom(s, i, inEscape)[k])
    ensures ESC !in StripFrom(s, i, inEscape)
    decreases |s| - i
  {
    if i < |s| {
      StripAllowed(s, i + 1, false);
      StripAllowed(s, i + 1, true);
    }
  }

  /** The output is never longer than the input. */
  lemma {:induction false} StripShorter(s: string, i: nat, inEscape: bool)
    requires i <= |s|
    ensures |StripFrom(s, i, inEscape)| <= |s| - i
    decreases |s| - i
  {
    if i < |s| {
      StripShorter(s, i + 1, false);
      StripShorter(s, i + 1, true);
    }
  }

  /** Text without ESC whose chars are all allowed passes through unchanged. */
  lemma {:induction false} StripIdentity(s: string, i: nat)
    requires i <= |s|
    requires forall k :: i <= k < |s| ==> s[k] != ESC && IsAllowedChar(s[k])
    ensures StripFrom(s, i, false) == s[i..]
    decreases |s| - i
  {
    if i < |s| {
      StripIdentity(s, i + 1);
      assert s[i..] == [s[i]] + s[i + 1..];
    }
  }

  /** Reading `p + q` from inside `q` is reading `q`. */
  lemma {:induction false} StripShift(p: string, q: string, j: nat, inEscape: bool)
    requires j <= |q|
    ensures StripFrom(p + q, |p| + j, inEscape) == StripFrom(q, j, inEscape)
    decreases |q| - j
  {
    if j < |q| {
      assert (p + q)[|p| + j] == q[j];
      StripShift(p, q, j + 1, false);
      StripShift(p, q, j + 1, true);
    }
  }

  /** Text without ESC is filtered char by char and leaves no escape open. */
  lemma {:induction false} StripConcat(a: string, b: string, i: nat)
    requires i <= |a| && ESC !in a
    ensures StripFrom(a + b, i, false) == StripFrom(a, i, false) + Strip(b)
    decreases |a| - i
  {
    if i == |a| {
      StripShift(a, b, 0, false);
    } else {
      assert (a + b)[i] == a[i];
      StripConcat(a, b, i + 1);
    }
  }

  /**
   * An ESC drops exactly the char after it: text before the first ESC is
   * filtered, the ESC and its successor vanish, and the rest is stripped.
   */
  lemma EscapeDropsNext(a: string, x: char, b: string)
    requires ESC !in a
    ensures Strip(a + [ESC, x] + b) == Strip(a) + Strip(b)
  {
    var t := [ESC, x] + b;
    assert a + [ESC, x] + b == a + t;
    StripConcat(a, t, 0);
    assert StripFrom(t, 0, false) == StripFrom(t, 1, true) == StripFrom(t, 2, false);
    StripShift([ESC, x], b, 0, false);
  }

  /** Two escapes, each after text without ESC, drop themselves and the char after them. */
  lemma TwoEscapes(a: string, x: char, b: string, y: char, c: string)
    requires ESC !in a && ESC !in b
    ensures Strip(a + [ESC, x] + b + [ESC, y] + c) == Strip(a) + Strip(b) + Strip(c)
  {
    var rest := b + [ESC, y] + c;
    assert a + [ESC, x] + b + [ESC, y] + c == a + [ESC, x] + rest;
    EscapeDropsNext(a, x, rest);
    EscapeDropsNext(b, y, c);
  }

  lemma ColourPieces()
    ensures Strip("Hello") == "Hello" && Strip("31mRed") == "31mRed" && Strip("0mWorld") == "0mWorld"
  {
  }

  /** What the code gives for the first input of its unit test. */
  lemma StripExampleColours()
    ensures Strip("Hello\U{1B}[31mRed\U{1B}[0mWorld") == "Hello31mRed0mWorld"
  {
    assert "Hello" + "31mRed" + "0mWorld" == "Hello31mRed0mWorld" by {}
    assert "Hello\U{1B}[31mRed\U{1B}[0mWorld" == "Hello" + [ESC, '['] + "31mRed" + [ESC, '['] + "0mWorld" by {}
    assert ESC !in "Hello" && ESC !in "31mRed" by {}
    ColourPieces();
    TwoEscapes("Hello", '[', "31mRed", '[', "0mWorld");
  }

  /** What the code gives for the second input of its unit test. */
  lemma StripExampleClearScreen()
    ensures Strip("\U{1B}[2J\U{1B}[H") == "2JH"
  {
  }

  /** Plain text passes unchanged, as the third case of the unit test expects. */
  lemma StripExamplePlain()
    ensures Strip("Normal text") == "Normal text"
  {
    var s := "Normal text";
    assert forall k :: 0 <= k < |s| ==> ' ' <= s[k] <= '~';
    StripIdentity(s, 0);
  }

  /** The allowed chars of `s`, in order. */
  function KeepAllowed(s: string): (r: string)
    ensures |r| <= |s|
  {
    if s == [] then [] else (if IsAllowedChar(s[0]) then [s[0]] else []) + KeepAllowed(s[1..])
  }

  /** `clean_text_for_insertion`: strip escapes, then keep the allowed chars. */
  function CleanTextForInsertion(text: string): string {
    KeepAllowed(Strip(text))
  }

  lemma {:induction false} KeepAllowedIdentity(s: string)
    requires forall k :: 0 <= k < |s| ==> IsAllowedChar(s[k])
    ensures KeepAllowed(s) == s
  {
    if s != [] {
      KeepAllowedIdentity(s[1..]);
    }
  }

  /** The second filter removes nothing: cleaning is stripping. */
  lemma CleanIsStrip(text: string)
    ensures CleanTextForInsertion(text) == Strip(text)
  {
    StripAllowed(text, 0, false);
    KeepAllowedIdentity(Strip(text));
  }

  // ---------------------------------------------------------------------
  // The escape handling the unit tests expect

  /** Where the intended scanner is: outside escapes, just after ESC, in a CSI, in an OSC, or at ESC inside an OSC. */
  datatype ScanState = Normal | AfterEsc | Csi | Osc | OscEsc

  /**
   * The scanner the code's comments describe: ESC '[' opens a CSI sequence
   * that ends with an ASCII letter, ESC ']' opens an OSC sequence that ends
   * with BEL or ESC '\', and any other char after ESC ends the escape.
   */
  function IntendedFrom(s: string, i: nat, st: ScanState): string
    requires i <= |s|
    decreases |s| - i
  {
    if i == |s| then ""
    else
      var c := s[i];
      match st
      case Normal =>
        if c == ESC then IntendedFrom(s, i + 1, AfterEsc)
        else if IsAllowedChar(c) then [c] + IntendedFrom(s, i + 1, Normal)
        else IntendedFrom(s, i + 1, Normal)
      case AfterEsc =>
        if c == '[' then IntendedFrom(s, i + 1, Csi)
        else if c == ']' then IntendedFrom(s, i + 1, Osc)
        else IntendedFrom(s, i + 1, Normal)
      case Csi => IntendedFrom(s, i + 1, if IsAsciiAlphabetic(c) then Normal else Csi)
      case Osc => IntendedFrom(s, i + 1, if c == BEL then Normal else if c == ESC then OscEsc else Osc)
      case OscEsc => IntendedFrom(s, i + 1, if c == '\\' then Normal else Osc)
  }

  function StripIntended(s: string): string {
    IntendedFrom(s, 0, Normal)
  }

  /** Reading `p + q` from inside `q` is reading `q`. */
  lemma {:induction false} IntendedShift(p: string, q: string, j: nat, st: ScanState)
    requires j <= |q|
    ensures IntendedFrom(p + q, |p| + j, st) == IntendedFrom(q, j, st)
    decreases |q| - j
  {
    if j < |q| {
      assert (p + q)[|p| + j] == q[j];
      IntendedShift(p, q, j + 1, Normal);
      IntendedShift(p, q, j + 1, AfterEsc);
      IntendedShift(p, q, j + 1, Csi);
      IntendedShift(p, q, j + 1, Osc);
      IntendedShift(p, q, j + 1, OscEsc);
    }
  }

  /** Text without ESC is filtered char by char and leaves the scanner outside escapes. */
  lemma {:induction false} IntendedConcat(a: string, b: string, i: nat)
    requires i <= |a| && ESC !in a
    ensures IntendedFrom(a + b, i, Normal) == IntendedFrom(a, i, Normal) + StripIntended(b)
    decreases |a| - i
  {
    if i == |a| {
      IntendedShift(a, b, 0, Normal);
    } else {
      assert (a + b)[i] == a[i];
      IntendedConcat(a, b, i + 1);
    }
  }

  /** Inside a CSI sequence, everything up to and including its final letter is dropped. */
  lemma {:induction false} CsiBodySkipped(params: string, final: char, b: string, i: nat)
    requires i <= |params| && IsAsciiAlphabetic(final)
    requires forall c :: c in params ==> !IsAsciiAlphabetic(c)
    ensures IntendedFrom(params + [final] + b, i, Csi) == StripIntended(b)
    decreases |params| - i
  {
    var t := params + [final] + b;
    if i < |params| {
      assert t[i] == params[i];
      CsiBodySkipped(params, final, b, i + 1);
    } else {
      assert t[i] == final;
      assert t == (params + [final]) + b;
      IntendedShift(params + [final], b, 0, Normal);
    }
  }

  /**
   * A whole CSI sequence `ESC [ params letter` after text without ESC leaves
   * nothing behind.
   */
  lemma CsiRemoved(a: string, params: string, final: char, b: string)
    requires ESC !in a && IsAsciiAlphabetic(final)
    requires forall c :: c in params ==> !IsAsciiAlphabetic(c)
    ensures StripIntended(a + [ESC, '['] + params + [final] + b) == StripIntended(a) + StripIntended(b)
  {
    var body := params + [final] + b;
    var t := [ESC, '['] + body;
    assert a + [ESC, '['] + params + [final] + b == a + t;
    IntendedConcat(a, t, 0);
    assert IntendedFrom(t, 0, Normal) == IntendedFrom(t, 1, AfterEsc) == IntendedFrom(t, 2, Csi);
    IntendedShift([ESC, '['], body, 0, Csi);
    CsiBodySkipped(params, final, b, 0);
  }

  /** Every char the intended scanner emits is allowed. */
  lemma {:induction false} IntendedAllowed(s: string, i: nat, st: ScanState)
    requires i <= |s|
    ensures forall k :: 0 <= k < |IntendedFrom(s, i, st)| ==> IsAllowedChar(IntendedFrom(s, i, st)[k])
    decreases |s| - i
  {
    if i < |s| {
      IntendedAllowed(s, i + 1, Normal);
      IntendedAllowed(s, i + 1, AfterEsc);
      IntendedAllowed(s, i + 1, Csi);
      IntendedAllowed(s, i + 1, Osc);
      IntendedAllowed(s, i + 1, OscEsc);
    }
  }

  /** On text without ESC the two scanners agree: both only drop refused chars. */
  lemma {:induction false} IntendedAgreesWithoutEscapes(s: string, i: nat)
    requires i <= |s| && ESC !in s
    ensures IntendedFrom(s, i, Normal) == StripFrom(s, i, false)
    decreases |s| - i
  {
    if i < |s| {
      assert s[i] in s;
      IntendedAgreesWithoutEscapes(s, i + 1);
    }
  }

  lemma IntendedPieces()
    ensures StripIntended("Hello") == "Hello" && StripIntended("Red") == "Red" && StripIntended("World") == "World"
  {
  }

  /** The intended scanner gives the value the unit test asserts for colour codes. */
  lemma IntendedExampleColours()
    ensures StripIntended("Hello\U{1B}[31mRed\U{1B}[0mWorld") == "HelloRedWorld"
  {
    assert "Hello" + "Red" + "World" == "HelloRedWorld" by {}
    var rest := "Red" + [ESC, '['] + "0" + ['m'] + "World";
    assert "Hello\U{1B}[31mRed\U{1B}[0mWorld" == "Hello" + [ESC, '['] + "31" + ['m'] + rest by {}
    IntendedPieces();
    CsiRemoved("Hello", "31", 'm', rest);
    CsiRemoved("Red", "0", 'm', "World");
  }

  /** The intended scanner gives the value the unit test asserts for screen clearing. */
  lemma IntendedExampleClearScreen()
    ensures StripIntended("\U{1B}[2J\U{1B}[H") == ""
  {
    assert "\U{1B}[2J\U{1B}[H" == "" + [ESC, '['] + "2" + ['J'] + ([ESC, '['] + "" + ['H'] + "") by {}
    CsiRemoved("", "2", 'J', [ESC, '['] + "" + ['H'] + "");
    CsiRemoved("", "", 'H', "");
  }
}
