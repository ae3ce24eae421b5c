/**
 * Decoding of raw terminal input: single bytes and CSI sequences become key
 * events, and xterm SGR extended mouse reports (mode 1006, `ESC [ < code ;
 * x ; y M|m`) become mouse events.
 */
module Kitty {
  import opened Wrappers
  import Ints

  /** A byte of terminal input (Rust `u8`). */
  newtype byte = x: int | 0 <= x < 256

  datatype KeyCode =
    | Char(c: char)
    | Enter | Backspace | Tab | Esc
    | Up | Down | Left | Right
    | Home | End | PageUp | PageDown

  datatype MouseButton = Left | Middle | Right | ScrollUp | ScrollDown

  datatype Modifier = Ctrl | Alt | Shift | Cmd

  datatype KeyModifiers = KeyModifiers(ctrl: bool, alt: bool, shift: bool, cmd: bool)
  {
    /** The modifiers that are held. */
    function Held(): set<Modifier> {
      (if ctrl then {Ctrl} else {}) + (if alt then {Alt} else {})
      + (if shift then {Shift} else {}) + (if cmd then {Cmd} else {})
    }

    /** `contains`: every modifier held in `other` is held here too. */
    function Contains(other: KeyModifiers): (b: bool)
      ensures b <==> other.Held() <= Held()
    {
      assert Ctrl in other.Held() <==> other.ctrl;
      assert Alt in other.Held() <==> other.alt;
      assert Shift in other.Held() <==> other.shift;
      assert Cmd in other.Held() <==> other.cmd;
      (!other.ctrl || ctrl) && (!other.alt || alt) && (!other.shift || shift) && (!other.cmd || cmd)
    }
  }

  const NoModifiers := KeyModifiers(false, false, false, false)
  const CONTROL := KeyModifiers(true, false, false, false)
  const SUPER := KeyModifiers(false, false, false, true)
  const SHIFT := KeyModifiers(false, false, true, false)
  const ALT := KeyModifiers(false, true, false, false)

  /** `contains` is a preorder on modifier sets. */
  lemma ContainsPreorder(a: KeyModifiers, b: KeyModifiers, c: KeyModifiers)
    ensures a.Contains(a)
    ensures a.Contains(b) && b.Contains(c) ==> a.Contains(c)
  {
  }

  datatype KeyEvent = KeyEvent(code: KeyCode, modifiers: KeyModifiers)

  /** A decoded mouse report; `x` and `y` are 0-based cells (Rust `u16`). */
  datatype MouseEvent = MouseEvent(
    button: Option<MouseButton>, x: nat, y: nat,
    modifiers: KeyModifiers, isPress: bool, isDrag: bool)

  datatype InputEvent = Key(key: KeyEvent) | Mouse(mouse: MouseEvent)

  /** The key a lone byte stands for, in the order `parse_input` tries them. */
  function SingleByteKey(b: byte): Option<KeyEvent> {
    if b == 13 then Some(KeyEvent(Enter, NoModifiers))
    else if b == 127 then Some(KeyEvent(Backspace, NoModifiers))
    else if b == 9 then Some(KeyEvent(Tab, NoModifiers))
    else if b == 27 then Some(KeyEvent(Esc, NoModifiers))
    else if 32 <= b <= 126 then Some(KeyEvent(Char(b as int as char), NoModifiers))
    else if 1 <= b <= 26 then Some(KeyEvent(Char((b as int - 1 + 'a' as int) as char), CONTROL))
    else None
  }

  /** The CSI sequences `parse_input` knows: arrows, shift-arrows, Home, End, PageUp, PageDown. */
  function CsiKey(bytes: seq<byte>): Option<KeyEvent> {
    if bytes == [27, 91, 65] then Some(KeyEvent(Up, NoModifiers))
    else if bytes == [27, 91, 66] then Some(KeyEvent(Down, NoModifiers))
    else if bytes == [27, 91, 68] then Some(KeyEvent(KeyCode.Left, NoModifiers))
    else if bytes == [27, 91, 67] then Some(KeyEvent(KeyCode.Right, NoModifiers))
    else if bytes == [27, 91, 49, 59, 50, 65] then Some(KeyEvent(Up, SHIFT))
    else if bytes == [27, 91, 49, 59, 50, 66] then Some(KeyEvent(Down, SHIFT))
    else if bytes == [27, 91, 49, 59, 50, 68] then Some(KeyEvent(KeyCode.Left, SHIFT))
    else if bytes == [27, 91, 49, 59, 50, 67] then Some(KeyEvent(KeyCode.Right, SHIFT))
    else if bytes == [27, 91, 72] then Some(KeyEvent(Home, NoModifiers))
    else if bytes == [27, 91, 70] then Some(KeyEvent(End, NoModifiers))
    else if bytes == [27, 91, 53, 126] then Some(KeyEvent(PageUp, NoModifiers))
    else if bytes == [27, 91, 54, 126] then Some(KeyEvent(PageDown, NoModifiers))
    else None
  }

  /** The key part of `parse_input`'s match: lone bytes, the macOS Cmd prefix, CSI keys. */
  function ParseKey(bytes: seq<byte>): Option<KeyEvent> {
    if |bytes| == 1 then SingleByteKey(bytes[0])
    else if |bytes| == 4 && bytes[0] == 226 && bytes[1] == 140 && bytes[2] == 152 then
      Some(KeyEvent(Char(bytes[3] as int as char), SUPER))
    else CsiKey(bytes)
  }

  /**
   * `parse_input`: nothing for no bytes, an SGR mouse report for six or more
   * bytes starting `ESC [ <`, otherwise a key or nothing.
   */
  function ParseInput(bytes: seq<byte>): (r: Option<InputEvent>)
    ensures |bytes| == 0 ==> r == None
    ensures r.Some? && r.value.Mouse? ==> |bytes| >= 6 && bytes[..3] == [27, 91, 60]
  {
    if |bytes| == 0 then None
    else if |bytes| >= 6 && bytes[0] == 27 && bytes[1] == 91 && bytes[2] == 60 then
      assert bytes[..3] == [27, 91, 60];
      ParseSgrMouse(bytes)
    else
      match ParseKey(bytes)
      case Some(k) => Some(Key(k))
      case None => None
  }

  /**
   * The bytes a terminal sends for a key event, when it is one of those
   * `parse_input` recognises: printable ASCII alone, Ctrl with a letter other
   * than i and m (whose codes are Tab and Enter), Cmd with a char below 256,
   * and the named keys (the arrows also with Shift).
   */
  function EncodeKey(e: KeyEvent): Option<seq<byte>> {
    var m := e.modifiers;
    match e.code
    case Char(c) =>
      if m == NoModifiers && ' ' <= c <= '~' then Some([c as int as byte])
      else if m == CONTROL && 'a' <= c <= 'z' && c != 'i' && c != 'm' then Some([(c as int - 96) as byte])
      else if m == SUPER && c as int < 256 then Some([226, 140, 152, c as int as byte])
      else None
    case Enter => if m == NoModifiers then Some([13]) else None
    case Backspace => if m == NoModifiers then Some([127]) else None
    case Tab => if m == NoModifiers then Some([9]) else None
    case Esc => if m == NoModifiers then Some([27]) else None
    case Up => Arrow(m, 65)
    case Down => Arrow(m, 66)
    case Left => Arrow(m, 68)
    case Right => Arrow(m, 67)
    case Home => if m == NoModifiers then Some([27, 91, 72]) else None
    case End => if m == NoModifiers then Some([27, 91, 70]) else None
    case PageUp => if m == NoModifiers then Some([27, 91, 53, 126]) else None
    case PageDown => if m == NoModifiers then Some([27, 91, 54, 126]) else None
  }

  function Arrow(m: KeyModifiers, last: byte): Option<seq<byte>> {
    if m == NoModifiers then Some([27, 91, last])
    else if m == SHIFT then Some([27, 91, 49, 59, 50, last])
    else None
  }

  /** Every encodable key decodes back to itself. */
  lemma EncodeThenParse(e: KeyEvent)
    requires EncodeKey(e).Some?
    ensures ParseInput(EncodeKey(e).value) == Some(Key(e))
  {
    var bytes := EncodeKey(e).value;
    match e.code
    case Char(c) =>
      if e.modifiers == NoModifiers && ' ' <= c <= '~' {
        assert bytes == [c as int as byte];
      } else if e.modifiers == CONTROL && 'a' <= c <= 'z' && c != 'i' && c != 'm' {
        assert bytes == [(c as int - 96) as byte];
        assert ((c as int - 96) - 1 + 'a' as int) as char == c;
      } else {
        assert bytes == [226, 140, 152, c as int as byte];
      }
    case _ =>
  }

  /** Every key `parse_input` produces came from exactly its encoding. */
  lemma ParseThenEncode(bytes: seq<byte>, e: KeyEvent)
    requires ParseInput(bytes) == Some(Key(e))
    ensures EncodeKey(e) == Some(bytes)
  {
    assert ParseKey(bytes) == Some(e);
    if |bytes| == 1 {
      var b := bytes[0];
      assert bytes == [b];
      if 32 <= b <= 126 && b != 127 {
        assert (b as int as char) as int as byte == b;
      } else if 1 <= b <= 26 && b != 9 && b != 13 {
        assert ((b as int - 1 + 'a' as int) as char as int - 96) as byte == b;
      }
    } else if |bytes| == 4 && bytes[0] == 226 && bytes[1] == 140 && bytes[2] == 152 {
      assert bytes == [226, 140, 152, bytes[3]];
    }
  }

  /** A key event is decoded from exactly the bytes that encode it. */
  lemma KeyRoundTrip(bytes: seq<byte>, e: KeyEvent)
    ensures ParseInput(bytes) == Some(Key(e)) <==> EncodeKey(e) == Some(bytes)
  {
    if ParseInput(bytes) == Some(Key(e)) {
      ParseThenEncode(bytes, e);
    }
    if EncodeKey(e) == Some(bytes) {
      EncodeThenParse(e);
    }
  }

  /** Line feed (10) arrives as Ctrl+J. */
  lemma LineFeedIsCtrlJ()
    ensures ParseInput([10]) == Some(Key(KeyEvent(Char('j'), CONTROL)))
  {
    assert (10 - 1 + 'a' as int) as char == 'j';
  }

  // ---------------------------------------------------------------------
  // SGR mouse reports

  predicate IsDigit(b: byte) { 48 <= b <= 57 }

  predicate AllDigits(s: seq<byte>) {
    forall i {:trigger IsDigit(s[i])} :: 0 <= i < |s| ==> IsDigit(s[i])
  }

  function DigitValue(b: byte): nat {
    if IsDigit(b) then b as int - 48 else 0
  }

  /** The decimal value of the first `n` digits of `s`. */
  function DecimalValue(s: seq<byte>, n: nat): nat
    requires n <= |s|
  {
    if n == 0 then 0 else DecimalValue(s, n - 1) * 10 + DigitValue(s[n - 1])
  }

  /**
   * `str::parse` for an unsigned Rust integer below `bound`: an optional
   * '+' before at least one digit, only digits, and no overflow.
   */
  function ParseUnsigned(s: seq<byte>, bound: nat): (r: Option<nat>)
    ensures r.Some? ==> r.value < bound
  {
    var digits := if |s| >= 2 && s[0] == 43 then s[1..] else s;
    if |digits| == 0 || !AllDigits(digits) then None
    else
      var v := DecimalValue(digits, |digits|);
      if v < bound then Some(v) else None
  }

  /** The shortest decimal rendering of `n`. */
  function Decimal(n: nat): (r: seq<byte>)
    ensures |r| >= 1 && AllDigits(r)
  {
    if n < 10 then [(48 + n) as byte] else Decimal(n / 10) + [(48 + n % 10) as byte]
  }

  lemma {:induction false} DecimalValuePrefix(s: seq<byte>, t: seq<byte>, n: nat)
    requires n <= |s| && n <= |t| && s[..n] == t[..n]
    ensures DecimalValue(s, n) == DecimalValue(t, n)
  {
    if n > 0 {
      assert s[..n - 1] == s[..n][..n - 1] && t[..n - 1] == t[..n][..n - 1];
      assert s[n - 1] == s[..n][n - 1] && t[n - 1] == t[..n][n - 1];
      DecimalValuePrefix(s, t, n - 1);
    }
  }

  /** Reading back a decimal rendering gives the number. */
  lemma {:induction false} DecimalRoundTrip(n: nat)
    ensures DecimalValue(Decimal(n), |Decimal(n)|) == n
  {
    if n >= 10 {
      var d := Decimal(n / 10);
      var s := Decimal(n);
      assert s == d + [(48 + n % 10) as byte];
      DecimalRoundTrip(n / 10);
      assert s[..|d|] == d;
      DecimalValuePrefix(s, d, |d|);
    }
  }

  /** `parse::<uN>` accepts a decimal rendering, with or without '+', exactly when it fits. */
  lemma ParseDecimal(n: nat, bound: nat)
    ensures ParseUnsigned(Decimal(n), bound) == if n < bound then Some(n) else None
    ensures ParseUnsigned([43] + Decimal(n), bound) == if n < bound then Some(n) else None
  {
    DecimalRoundTrip(n);
    assert IsDigit(Decimal(n)[0]);
    assert ([43] + Decimal(n))[1..] == Decimal(n);
  }

  predicate IsTerminator(b: byte) { b == 77 || b == 109 }

  /** The first 'M' or 'm' at or after `i`, or `|s|`. */
  function FirstTerminator(s: seq<byte>, i: nat): (j: nat)
    requires i <= |s|
    ensures i <= j <= |s|
    ensures forall k {:trigger IsTerminator(s[k])} :: i <= k < j ==> !IsTerminator(s[k])
    ensures j < |s| ==> IsTerminator(s[j])
    decreases |s| - i
  {
    if i == |s| || IsTerminator(s[i]) then i else FirstTerminator(s, i + 1)
  }

  /** The first `b` at or after `i`, or `|s|`. */
  function FindByte(s: seq<byte>, b: byte, i: nat): (j: nat)
    requires i <= |s|
    ensures i <= j <= |s|
    ensures forall k :: i <= k < j ==> s[k] != b
    ensures j < |s| ==> s[j] == b
    decreases |s| - i
  {
    if i == |s| || s[i] == b then i else FindByte(s, b, i + 1)
  }

  /**
   * `split(';')` required to give exactly three parts: the parts around the
   * only two semicolons.
   */
  function SplitFields(s: seq<byte>): (r: Option<(seq<byte>, seq<byte>, seq<byte>)>)
    ensures r.Some? ==>
              s == r.value.0 + [59] + r.value.1 + [59] + r.value.2 &&
              59 !in r.value.0 && 59 !in r.value.1 && 59 !in r.value.2
  {
    var i := FindByte(s, 59, 0);
    if i == |s| then None
    else
      var rest := s[i + 1..];
      var j := FindByte(rest, 59, 0);
      if j == |rest| then None
      else
        var last := rest[j + 1..];
        if FindByte(last, 59, 0) < |last| then None
        else
          Peel(s);
          Peel(rest);
          Peel(last);
          assert last[..|last|] == last;
          Rejoin(s, s[..i], rest, rest[..j], last);
          Some((s[..i], rest[..j], last))
  }

  /** Cutting `s` at its first ';': no ';' before the cut. */
  lemma Peel(s: seq<byte>)
    ensures var i := FindByte(s, 59, 0);
            59 !in s[..i] && (i < |s| ==> s == s[..i] + [59] + s[i + 1..])
  {
    var i := FindByte(s, 59, 0);
    var a := s[..i];
    assert forall k :: 0 <= k < |a| ==> a[k] == s[k] && s[k] != 59;
    assert 59 !in a;
    if i < |s| {
      Cut(s, i);
    }
  }

  lemma Cut(s: seq<byte>, i: nat)
    requires i < |s|
    ensures s == s[..i] + [s[i]] + s[i + 1..]
  {
  }

  lemma Rejoin(s: seq<byte>, a: seq<byte>, r: seq<byte>, c: seq<byte>, d: seq<byte>)
    requires s == a + [59] + r && r == c + [59] + d
    ensures s == a + [59] + c + [59] + d
  {
    assert a + [59] + (c + [59] + d) == a + [59] + c + [59] + d;
  }

  /** Cutting `s` at its first ';' leaves one ';' fewer after the cut, or none at all. */
  lemma PeelCount(s: seq<byte>)
    ensures var i := FindByte(s, 59, 0);
            (i == |s| ==> multiset(s)[59] == 0) &&
            (i < |s| ==> multiset(s)[59] == 1 + multiset(s[i + 1..])[59])
  {
    Peel(s);
    var i := FindByte(s, 59, 0);
    if i == |s| {
      assert s[..i] == s;
    } else {
      assert multiset(s) == multiset(s[..i]) + multiset([59]) + multiset(s[i + 1..]);
    }
  }

  /** Exactly three parts come out exactly when there are exactly two semicolons. */
  lemma SplitFieldsCount(s: seq<byte>)
    ensures SplitFields(s).Some? <==> multiset(s)[59] == 2
  {
    PeelCount(s);
    var i := FindByte(s, 59, 0);
    if i < |s| {
      var rest := s[i + 1..];
      PeelCount(rest);
      var j := FindByte(rest, 59, 0);
      if j < |rest| {
        PeelCount(rest[j + 1..]);
      }
    }
  }

  /** Bit `v` (a power of two) of `code` is set: Rust's `code & v != 0`. */
  predicate Bit(code: nat, v: nat)
    requires v > 0
  {
    (code / v) % 2 == 1
  }

  /** The button, modifiers and drag flag an SGR button code stands for, as `parse_sgr_mouse` reads them. */
  function DecodeMouse(code: nat, x: nat, y: nat, isPress: bool): MouseEvent {
    var modifiers := KeyModifiers(Bit(code, 16), Bit(code, 8), Bit(code, 4), false);
    var isDrag := Bit(code, 32);
    var buttonNum := code % 4;
    var button :=
      if buttonNum == 0 then Some(MouseButton.Left)
      else if buttonNum == 1 then Some(Middle)
      else if buttonNum == 2 then Some(MouseButton.Right)
      else None;
    var button :=
      if !isDrag && code == 64 then Some(ScrollUp)
      else if !isDrag && code == 65 then Some(ScrollDown)
      else button;
    MouseEvent(button, x, y, modifiers, isPress, isDrag)
  }

  /**
   * `parse_sgr_mouse`: after `ESC [ <`, the fields up to the first 'M'
   * (press) or 'm' (release) must be exactly three decimal numbers separated
   * by ';', a `u32` button code and 1-based `u16` coordinates, made 0-based
   * with saturating subtraction.
   */
  function ParseSgrMouse(bytes: seq<byte>): (r: Option<InputEvent>)
    requires |bytes| >= 3
    ensures r.Some? ==> r.value.Mouse? && ReportFields(bytes).Some?
    ensures r.Some? ==> r.value.mouse.isPress == ReportFields(bytes).value.3
    ensures r.Some? ==> r.value.mouse.x < 0xFFFF && r.value.mouse.y < 0xFFFF
  {
    match ReportFields(bytes)
    case None => None
    case Some((f0, f1, f2, isPress)) =>
      match MouseFromFields(f0, f1, f2, isPress)
      case None => None
      case Some(m) => Some(Mouse(m))
  }

  /** The three ';'-separated fields before the first 'M' or 'm', and whether it was 'M'. */
  function ReportFields(bytes: seq<byte>): Option<(seq<byte>, seq<byte>, seq<byte>, bool)>
    requires |bytes| >= 3
  {
    var data := bytes[3..];
    var e := FirstTerminator(data, 0);
    if e == |data| then None
    else
      match SplitFields(data[..e])
      case None => None
      case Some((f0, f1, f2)) => Some((f0, f1, f2, data[e] == 77))
  }

  /** The three fields read as a `u32` code and 1-based `u16` coordinates. */
  function MouseFromFields(f0: seq<byte>, f1: seq<byte>, f2: seq<byte>, isPress: bool): (r: Option<MouseEvent>)
    ensures r.Some? ==> r.value.x < 0xFFFF && r.value.y < 0xFFFF && r.value.isPress == isPress
  {
    var code := ParseUnsigned(f0, 0x1_0000_0000);
    var x := ParseUnsigned(f1, 0x1_0000);
    var y := ParseUnsigned(f2, 0x1_0000);
    if code.None? || x.None? || y.None? then None
    else Some(DecodeMouse(code.value, Ints.SatSub(x.value, 1), Ints.SatSub(y.value, 1), isPress))
  }

  /**
   * Fields are found exactly when there is a terminator with exactly two
   * semicolons before the first one; the report is a press exactly for 'M'.
   */
  lemma ReportFieldsSpec(bytes: seq<byte>)
    requires |bytes| >= 3
    ensures var e := FirstTerminator(bytes[3..], 0);
            ReportFields(bytes).Some? <==> e < |bytes| - 3 && multiset(bytes[3..3 + e])[59] == 2
    ensures var e := FirstTerminator(bytes[3..], 0);
            ReportFields(bytes).Some? ==> e < |bytes| - 3 && (ReportFields(bytes).value.3 <==> bytes[3 + e] == 77)
  {
    var data := bytes[3..];
    var e := FirstTerminator(data, 0);
    if e < |data| {
      var fields := data[..e];
      SplitFieldsCount(fields);
      assert bytes[3..3 + e] == fields by {
        assert forall k :: 0 <= k < e ==> fields[k] == bytes[3 + k];
      }
      assert data[e] == bytes[3 + e];
    }
  }

  /** The SGR report a terminal sends for button code `code` at 1-based cell (x, y). */
  function SgrReport(code: nat, x: nat, y: nat, isPress: bool): seq<byte> {
    [27, 91, 60] + Decimal(code) + [59] + Decimal(x) + [59] + Decimal(y) + [if isPress then 77 else 109]
  }

  lemma DigitsHaveNoTerminator(s: seq<byte>)
    requires AllDigits(s)
    ensures forall k :: 0 <= k < |s| ==> !IsTerminator(s[k]) && s[k] != 59
  {
    forall k | 0 <= k < |s|
      ensures !IsTerminator(s[k]) && s[k] != 59
    {
      assert IsDigit(s[k]);
    }
  }

  /** The fields of a report split back into the three renderings. */
  lemma SplitReport(dc: seq<byte>, dx: seq<byte>, dy: seq<byte>)
    requires AllDigits(dc) && AllDigits(dx) && AllDigits(dy)
    ensures SplitFields(dc + [59] + dx + [59] + dy) == Some((dc, dx, dy))
  {
    DigitsHaveNoTerminator(dc);
    DigitsHaveNoTerminator(dx);
    DigitsHaveNoTerminator(dy);
    var s := dc + [59] + dx + [59] + dy;
    assert s == dc + [59] + (dx + [59] + dy);
    FirstSemicolon(dc, dx + [59] + dy);
    FirstSemicolon(dx, dy);
    assert forall k :: 0 <= k < |dy| ==> dy[k] != 59;
  }

  /** The first terminator of a report's data is the one after its fields. */
  lemma ReportTerminator(fields: seq<byte>, t: byte, rest: seq<byte>)
    requires forall k :: 0 <= k < |fields| ==> !IsTerminator(fields[k])
    requires IsTerminator(t)
    ensures FirstTerminator(fields + [t] + rest, 0) == |fields|
    ensures (fields + [t] + rest)[..|fields|] == fields && (fields + [t] + rest)[|fields|] == t
  {
    var data := fields + [t] + rest;
    assert forall k :: 0 <= k < |fields| ==> data[k] == fields[k];
    assert forall k :: 0 <= k < |fields| ==> !IsTerminator(data[k]);
    assert data[|fields|] == t;
  }

  /** A report made of three digit strings has those as its fields, and its terminator says press or release. */
  lemma ReportFieldsOfDigits(dc: seq<byte>, dx: seq<byte>, dy: seq<byte>, t: byte, rest: seq<byte>)
    requires AllDigits(dc) && AllDigits(dx) && AllDigits(dy) && IsTerminator(t)
    ensures ReportFields([27, 91, 60] + dc + [59] + dx + [59] + dy + [t] + rest) == Some((dc, dx, dy, t == 77))
  {
    var fields := dc + [59] + dx + [59] + dy;
    var bytes := [27, 91, 60] + dc + [59] + dx + [59] + dy + [t] + rest;
    var data := bytes[3..];
    assert data == fields + [t] + rest by {
      assert bytes == [27, 91, 60] + (fields + [t] + rest);
    }
    assert forall k :: 0 <= k < |fields| ==> !IsTerminator(fields[k]) by {
      DigitsHaveNoTerminator(dc);
      DigitsHaveNoTerminator(dx);
      DigitsHaveNoTerminator(dy);
    }
    ReportTerminator(fields, t, rest);
    assert SplitFields(fields) == Some((dc, dx, dy)) by {
      SplitReport(dc, dx, dy);
    }
  }

  /**
   * A well-formed report decodes to the event its code stands for, at the
   * 0-based cell, whatever bytes follow it.
   */
  lemma SgrRoundTrip(code: nat, x: nat, y: nat, isPress: bool, rest: seq<byte>)
    requires code < 0x1_0000_0000 && x < 0x1_0000 && y < 0x1_0000
    ensures ParseInput(SgrReport(code, x, y, isPress) + rest)
         == Some(Mouse(DecodeMouse(code, Ints.SatSub(x, 1), Ints.SatSub(y, 1), isPress)))
  {
    var bytes := SgrReport(code, x, y, isPress) + rest;
    assert bytes[0] == 27 && bytes[1] == 91 && bytes[2] == 60 && |bytes| >= 6;
    ReportFieldsOfDigits(Decimal(code), Decimal(x), Decimal(y), if isPress then 77 else 109, rest);
    MouseFromDecimals(code, x, y, isPress);
  }

  lemma MouseFromDecimals(code: nat, x: nat, y: nat, isPress: bool)
    requires code < 0x1_0000_0000 && x < 0x1_0000 && y < 0x1_0000
    ensures MouseFromFields(Decimal(code), Decimal(x), Decimal(y), isPress)
         == Some(DecodeMouse(code, Ints.SatSub(x, 1), Ints.SatSub(y, 1), isPress))
  {
    ParseDecimal(code, 0x1_0000_0000);
    ParseDecimal(x, 0x1_0000);
    ParseDecimal(y, 0x1_0000);
  }

  /** In `a + [;] + r` with no ';' in `a`, `a` is everything before the first ';'. */
  lemma FirstSemicolon(a: seq<byte>, r: seq<byte>)
    requires 59 !in a
    ensures FindByte(a + [59] + r, 59, 0) == |a|
    ensures (a + [59] + r)[..|a|] == a && (a + [59] + r)[|a| + 1..] == r
  {
    var s := a + [59] + r;
    assert s[|a|] == 59;
    assert forall k :: 0 <= k < |a| ==> s[k] == a[k];
    assert forall k :: 0 <= k < |a| ==> s[k] != 59;
  }

  /** Only the exact non-drag codes 64 and 65 are scroll events. */
  lemma OnlyExactScrollCodes(code: nat, x: nat, y: nat, isPress: bool)
    ensures DecodeMouse(code, x, y, isPress).button == Some(ScrollUp) <==> code == 64
    ensures DecodeMouse(code, x, y, isPress).button == Some(ScrollDown) <==> code == 65
  {
  }

  /** Code 68, a scroll-up with Shift held, decodes as a Left press with Shift. */
  lemma ShiftScrollIsLeftPress(x: nat, y: nat)
    ensures DecodeMouse(68, x, y, true) == MouseEvent(Some(MouseButton.Left), x, y, SHIFT, true, false)
  {
  }

  /** The xterm button code for button number `n` (0..2) with the given modifiers and drag flag. */
  function ButtonCode(n: nat, shift: bool, alt: bool, ctrl: bool, drag: bool): nat {
    n + (if shift then 4 else 0) + (if alt then 8 else 0) + (if ctrl then 16 else 0) + (if drag then 32 else 0)
  }

  /** Bits 4, 8, 16 and 32 and the low two bits of a button code are read back independently. */
  lemma DecodeButtonCode(n: nat, shift: bool, alt: bool, ctrl: bool, drag: bool, x: nat, y: nat, isPress: bool)
    requires n < 3
    ensures DecodeMouse(ButtonCode(n, shift, alt, ctrl, drag), x, y, isPress)
         == MouseEvent(Some([MouseButton.Left, Middle, MouseButton.Right][n]), x, y,
                       KeyModifiers(ctrl, alt, shift, false), isPress, drag)
  {
    var s, a, c, d := (if shift then 1 else 0), (if alt then 1 else 0), (if ctrl then 1 else 0), (if drag then 1 else 0);
    var code := ButtonCode(n, shift, alt, ctrl, drag);
    assert code == n + 4 * (s + 2 * (a + 2 * (c + 2 * d)));
    assert code / 4 == s + 2 * (a + 2 * (c + 2 * d));
    assert code % 4 == n;
    assert code / 8 == a + 2 * (c + 2 * d);
    assert code / 16 == c + 2 * d;
    assert code / 32 == d;
    assert code < 64;
  }
}
