/**
 The diagnostic writer's string escaping, and a reader of strings by section 7 of RFC 8259.
 Characters are Unicode scalar values.
 */
module JsonText {
  import opened Common

  // ---------------------------------------------------------------- writing

  /** The control characters: C0, delete and C1. */
  predicate IsControl(c: char) {
    c as int < 0x20 || 0x7F <= c as int < 0xA0
  }

  function HexDigit(n: nat): char
    requires n < 16
  {
    "0123456789abcdef"[n]
  }

  /** Four lower-case hexadecimal digits. */
  function Hex4(n: nat): (text: string)
    requires n < 0x10000
    ensures |text| == 4
  {
    [HexDigit(n / 4096), HexDigit(n / 256 % 16), HexDigit(n / 16 % 16), HexDigit(n % 16)]
  }

  function Escape(c: char): string {
    if c == '"' then "\\\""
    else if c == '\\' then "\\\\"
    else if c == '\n' then "\\n"
    else if c == '\r' then "\\r"
    else if c == '\t' then "\\t"
    else if IsControl(c) then "\\u" + Hex4(c as int)
    else [c]
  }

  function Escaped(value: string): string {
    if value == "" then "" else Escape(value[0]) + Escaped(value[1..])
  }

  function Quoted(value: string): string {
    "\"" + Escaped(value) + "\""
  }

  lemma EscapedStep(value: string, i: nat)
    requires i < |value|
    ensures Escaped(value[i..]) == Escape(value[i]) + Escaped(value[i + 1..])
  {
    hide Escape;
    var rest := value[i..];
    assert rest[0] == value[i] && rest[1..] == value[i + 1..];
  }

  method PushChar(output: string, character: char) returns (pushed: string)
    ensures pushed == output + Escape(character)
  {
    hide Hex4;
    match character
    case '"' => pushed := output + "\\\"";
    case '\\' => pushed := output + "\\\\";
    case '\n' => pushed := output + "\\n";
    case '\r' => pushed := output + "\\r";
    case '\t' => pushed := output + "\\t";
    case _ =>
      if IsControl(character) {
        pushed := output + ("\\u" + Hex4(character as int));
      } else {
        pushed := output + [character];
      }
  }

  /** Appends the quoted value to the output, one character at a time. */
  method PushJsonString(output: string, value: string) returns (pushed: string)
    ensures pushed == output + Quoted(value)
  {
    hide Escape, Escaped;
    pushed := output + "\"";
    assert value[0..] == value;
    for i := 0 to |value|
      invariant pushed + Escaped(value[i..]) == output + "\"" + Escaped(value)
    {
      ghost var before, rest := pushed, Escaped(value[i + 1..]);
      EscapedStep(value, i);
      pushed := PushChar(pushed, value[i]);
      assert before + (Escape(value[i]) + rest) == pushed + rest;
    }
    EscapedEmpty(value[|value|..]);
    assert pushed + "" == pushed;
    pushed := pushed + "\"";
  }

  lemma EscapedEmpty(value: string)
    requires value == ""
    ensures Escaped(value) == ""
  {
  }

  /** A text of ordinary characters is written as it stands. */
  lemma {:induction false} OrdinaryIsKept(value: string)
    requires forall i :: 0 <= i < |value| ==> value[i] != '"' && value[i] != '\\' && !IsControl(value[i])
    ensures Escaped(value) == value
  {
    if value != "" {
      OrdinaryIsKept(value[1..]);
      assert Escape(value[0]) == [value[0]];
    }
  }

  // ---------------------------------------------------------------- reading

  function HexValue(c: char): (value: Option<nat>)
    ensures value.Some? ==> value.value < 16
  {
    if '0' <= c <= '9' then Some(c as int - '0' as int)
    else if 'a' <= c <= 'f' then Some(c as int - 'a' as int + 10)
    else if 'A' <= c <= 'F' then Some(c as int - 'A' as int + 10)
    else None
  }

  function HexUnit(text: string): (unit: Option<nat>)
    ensures unit.Some? ==> |text| >= 4 && unit.value < 0x10000
  {
    if |text| < 4 then None
    else
      var (a, b, c, d) := (HexValue(text[0]), HexValue(text[1]), HexValue(text[2]), HexValue(text[3]));
      if a.Some? && b.Some? && c.Some? && d.Some?
      then Some(a.value * 4096 + b.value * 256 + c.value * 16 + d.value) else None
  }

  predicate IsHigh(n: nat) {
    0xD800 <= n < 0xDC00
  }

  predicate IsLow(n: nat) {
    0xDC00 <= n < 0xE000
  }

  /** The text after `\u`: one unit, or a high and a low surrogate. */
  function ReadUnicode(text: string): (read: Option<(char, string)>)
    ensures read.Some? ==> |read.value.1| < |text|
  {
    match HexUnit(text)
    case None => None
    case Some(high) =>
      if IsLow(high) then None
      else if !IsHigh(high) then Some((high as char, text[4..]))
      else if |text| < 6 || text[4] != '\\' || text[5] != 'u' then None
      else
        match HexUnit(text[6..])
        case None => None
        case Some(low) =>
          if IsLow(low)
          then Some(((0x10000 + (high - 0xD800) * 0x400 + (low - 0xDC00)) as char, text[10..]))
          else None
  }

  /** The text after a backslash. */
  function ReadEscape(text: string): (read: Option<(char, string)>)
    ensures read.Some? ==> |read.value.1| < |text|
  {
    if text == "" then None
    else
      match text[0]
      case '"' => Some(('"', text[1..]))
      case '\\' => Some(('\\', text[1..]))
      case '/' => Some(('/', text[1..]))
      case 'b' => Some((8 as char, text[1..]))
      case 'f' => Some((12 as char, text[1..]))
      case 'n' => Some(('\n', text[1..]))
      case 'r' => Some(('\r', text[1..]))
      case 't' => Some(('\t', text[1..]))
      case 'u' => ReadUnicode(text[1..])
      case _ => None
  }

  /** The text after an opening quote: the string's value, and what follows its closing quote. */
  function ReadChars(text: string): (read: Option<(string, string)>)
    ensures read.Some? ==> |read.value.1| < |text|
    decreases |text|
  {
    if text == "" then None
    else if text[0] == '"' then Some(("", text[1..]))
    else if text[0] == '\\' then
      match ReadEscape(text[1..])
      case None => None
      case Some((c, rest)) => Prepend(c, ReadChars(rest))
    else if text[0] as int < 0x20 then None
    else Prepend(text[0], ReadChars(text[1..]))
  }

  function Prepend(c: char, read: Option<(string, string)>): Option<(string, string)> {
    if read.Some? then Some(([c] + read.value.0, read.value.1)) else None
  }

  function ReadString(text: string): (read: Option<(string, string)>)
    ensures read.Some? ==> |read.value.1| < |text|
  {
    if text == "" || text[0] != '"' then None else ReadChars(text[1..])
  }

  // ---------------------------------------------------------------- the round trip

  lemma HexDigitReads(n: nat)
    requires n < 16
    ensures HexValue(HexDigit(n)) == Some(n)
  {
  }

  lemma HexDigitsSum(n: nat)
    ensures n / 4096 * 4096 + n / 256 % 16 * 256 + n / 16 % 16 * 16 + n % 16 == n
  {
    var m := n / 16;
    assert n == m * 16 + n % 16 && m == m / 16 * 16 + m % 16;
    assert m / 16 == m / 256 * 16 + m / 16 % 16;
    assert n / 256 == m / 16 && n / 4096 == m / 256;
  }

  lemma Hex4Reads(n: nat, tail: string)
    requires n < 0x10000
    ensures HexUnit(Hex4(n) + tail) == Some(n)
  {
    HexDigitsSum(n);
    var (a, b, c, d) := (n / 4096, n / 256 % 16, n / 16 % 16, n % 16);
    var text := Hex4(n) + tail;
    assert text[0] == HexDigit(a) && text[1] == HexDigit(b) && text[2] == HexDigit(c) && text[3] == HexDigit(d);
    hide HexDigit, HexValue, Hex4;
    HexDigitReads(a);
    HexDigitReads(b);
    HexDigitReads(c);
    HexDigitReads(d);
  }

  lemma ControlReadsBack(c: char, tail: string)
    requires IsControl(c)
    ensures ReadUnicode(Hex4(c as int) + tail) == Some((c, tail))
  {
    hide Hex4, HexUnit;
    Hex4Reads(c as int, tail);
    assert (Hex4(c as int) + tail)[4..] == tail;
  }

  /** One escaped character reads back as that character. */
  lemma EscapeReadsBack(c: char, tail: string)
    ensures ReadChars(Escape(c) + tail) == Prepend(c, ReadChars(tail))
  {
    hide ReadUnicode, Hex4;
    var text := Escape(c) + tail;
    if c == '"' || c == '\\' || c == '\n' || c == '\r' || c == '\t' {
      hide Escape, ReadEscape;
      ShortEscape(c, tail);
    } else if IsControl(c) {
      var unit := Hex4(c as int) + tail;
      assert text[1..] == "u" + unit;
      assert ("u" + unit)[1..] == unit;
      ControlReadsBack(c, tail);
    } else {
      assert text[0] == c && text[1..] == tail;
    }
  }

  lemma ShortEscape(c: char, tail: string)
    requires c == '"' || c == '\\' || c == '\n' || c == '\r' || c == '\t'
    ensures |Escape(c)| == 2 && Escape(c)[0] == '\\'
    ensures ReadEscape((Escape(c) + tail)[1..]) == Some((c, tail))
  {
    hide ReadUnicode, Hex4, IsControl;
    var text := (Escape(c) + tail)[1..];
    assert text == [Escape(c)[1]] + tail;
    assert text[1..] == tail;
  }

  lemma {:induction false} EscapedReadsBack(value: string, tail: string)
    ensures ReadChars(Escaped(value) + "\"" + tail) == Some((value, tail))
  {
    if value == "" {
      assert (Escaped(value) + "\"" + tail)[1..] == tail;
    } else {
      EscapedReadsBack(value[1..], tail);
      assert Escaped(value) + "\"" + tail == Escape(value[0]) + (Escaped(value[1..]) + "\"" + tail);
      EscapeReadsBack(value[0], Escaped(value[1..]) + "\"" + tail);
      assert [value[0]] + value[1..] == value;
    }
  }

  /** Reading a quoted value gives back the value and stops exactly at its closing quote,
      whatever the value and whatever follows. */
  lemma StringRoundTrip(value: string, tail: string)
    ensures ReadString(Quoted(value) + tail) == Some((value, tail))
  {
    hide ReadChars, Escaped;
    EscapedReadsBack(value, tail);
    assert (Quoted(value) + tail)[1..] == Escaped(value) + "\"" + tail;
  }

  ghost predicate NoControls(text: string) {
    forall i :: 0 <= i < |text| ==> !IsControl(text[i])
  }

  lemma {:induction false} EscapedHasNoControls(value: string)
    ensures NoControls(Escaped(value))
  {
    if value != "" {
      EscapedHasNoControls(value[1..]);
      EscapeHasNoControls(value[0]);
      hide Escape, IsControl;
    }
  }

  lemma EscapeHasNoControls(c: char)
    ensures NoControls(Escape(c))
  {
    if IsControl(c) {
      assert forall n: nat :: n < 16 ==> !IsControl(HexDigit(n));
      hide HexDigit;
    }
  }

  /** Quoting leaves no control character in the text. */
  lemma QuotedHasNoControls(value: string)
    ensures NoControls(Quoted(value))
  {
    EscapedHasNoControls(value);
    hide Escaped;
  }

  /** What is escaped: the quote, the backslash and the control characters, by their codes. */
  lemma EscapedExactlyWhen(c: char)
    ensures Escape(c) != [c] <==> c == '"' || c == '\\' || c as int < 0x20 || 0x7F <= c as int < 0xA0
  {
  }

  /** How: by the short escape where the standard has a common one, otherwise by its code. */
  lemma EscapeSpellings(c: char)
    ensures Escape('"') == "\\\"" && Escape('\\') == "\\\\"
    ensures Escape('\n') == "\\n" && Escape('\r') == "\\r" && Escape('\t') == "\\t"
    ensures IsControl(c) && c !in {'\n', '\r', '\t'} ==> Escape(c) == "\\u" + Hex4(c as int)
    ensures Hex4(0x0001) == "0001" && Hex4(0x001F) == "001f" && Hex4(0xABCD) == "abcd"
  {
  }

  // ---------------------------------------------------------------- the rest of the standard's escapes

  lemma UnitsRead(text: string, high: nat, low: nat)
    requires IsHigh(high) && IsLow(low) && |text| >= 10 && text[4] == '\\' && text[5] == 'u'
    requires HexUnit(text) == Some(high) && HexUnit(text[6..]) == Some(low)
    ensures ReadUnicode(text) == Some(((0x10000 + (high - 0xD800) * 0x400 + (low - 0xDC00)) as char, text[10..]))
  {
    hide HexUnit;
  }

  lemma AfterUnit(unit: string, after: string)
    requires |unit| == 4
    ensures
      var text := unit + ("\\u" + after);
      |text| == 6 + |after| && text[4] == '\\' && text[5] == 'u' && text[6..] == after
  {
  }

  lemma PairReads(high: nat, low: nat, tail: string)
    requires IsHigh(high) && IsLow(low)
    ensures ReadUnicode(Hex4(high) + ("\\u" + (Hex4(low) + tail)))
         == Some(((0x10000 + (high - 0xD800) * 0x400 + (low - 0xDC00)) as char, tail))
  {
    hide Hex4, HexUnit, ReadUnicode;
    var after := Hex4(low) + tail;
    var text := Hex4(high) + ("\\u" + after);
    Hex4Reads(high, "\\u" + after);
    Hex4Reads(low, tail);
    AfterUnit(Hex4(high), after);
    assert text[10..] == text[6..][4..] && after[4..] == tail;
    UnitsRead(text, high, low);
  }

  /** A character beyond the first plane is read from its two surrogates. */
  lemma SurrogatesRead(n: nat, tail: string)
    requires 0x10000 <= n < 0x110000
    ensures
      var high, low := 0xD800 + (n - 0x10000) / 0x400, 0xDC00 + (n - 0x10000) % 0x400;
      && high < 0x10000
      && ReadUnicode(Hex4(high) + ("\\u" + (Hex4(low) + tail))) == Some((n as char, tail))
  {
    hide ReadUnicode, Hex4;
    PairReads(0xD800 + (n - 0x10000) / 0x400, 0xDC00 + (n - 0x10000) % 0x400, tail);
  }

  /** A lone surrogate is not a character. */
  lemma LoneSurrogateFails(n: nat, tail: string)
    requires 0xD800 <= n < 0xE000 && !("\\u" <= tail)
    ensures ReadUnicode(Hex4(n) + tail) == None
  {
    Hex4Reads(n, tail);
    hide Hex4, HexUnit;
    var text := Hex4(n) + tail;
    assert |text| >= 6 ==> text[4] == tail[0] && text[5] == tail[1];
  }

  /** The escapes the writer never uses, and upper-case digits, are read as section 7 has them. */
  lemma OtherEscapesRead(tail: string)
    ensures ReadEscape("/" + tail) == Some(('/', tail))
    ensures ReadEscape("b" + tail) == Some((0x08 as char, tail)) && ReadEscape("f" + tail) == Some((0x0C as char, tail))
    ensures [HexValue('A'), HexValue('B'), HexValue('C'), HexValue('D'), HexValue('E'), HexValue('F')]
         == [Some(10), Some(11), Some(12), Some(13), Some(14), Some(15)]
    ensures HexValue('@') == None && HexValue('G') == None
  {
    hide ReadUnicode;
    assert ("/" + tail)[1..] == tail && ("b" + tail)[1..] == tail && ("f" + tail)[1..] == tail;
  }

  // ---------------------------------------------------------------- unescaped text

  /** Needs no escaping to stand between quotes. */
  ghost predicate Plain(text: string) {
    forall i :: 0 <= i < |text| ==> text[i] != '"' && text[i] != '\\' && text[i] as int >= 0x20
  }

  /** A value is no longer than the text it is read from, and as long only when no escape is read. */
  lemma {:induction false} ReadingNeverLengthens(text: string)
    requires ReadChars(text).Some?
    ensures var (value, rest) := ReadChars(text).value;
            && |value| + 1 + |rest| <= |text|
            && (|value| + 1 + |rest| == |text| ==> Plain(text[..|value|]))
    decreases |text|
  {
    if text[0] == '"' {
    } else if text[0] == '\\' {
      ReadingNeverLengthens(ReadEscape(text[1..]).value.1);
    } else {
      ReadingNeverLengthens(text[1..]);
      var value := ReadChars(text).value.0;
      if |value| + 1 + |ReadChars(text).value.1| == |text| {
        assert text[..|value|] == [text[0]] + text[1..][..|value| - 1];
      }
    }
  }

  lemma {:induction false} PlainReadsBack(value: string, tail: string)
    requires Plain(value)
    ensures ReadChars(value + "\"" + tail) == Some((value, tail))
  {
    if value == "" {
      assert (value + "\"" + tail)[1..] == tail;
    } else {
      PlainReadsBack(value[1..], tail);
      assert (value + "\"" + tail)[1..] == value[1..] + "\"" + tail;
      assert [value[0]] + value[1..] == value;
    }
  }

  /** A value put between quotes without escaping reads back exactly when it is plain. */
  lemma UnescapedReadsBackExactlyWhenPlain(value: string, tail: string)
    ensures ReadString("\"" + value + "\"" + tail) == Some((value, tail)) <==> Plain(value)
  {
    var text := value + "\"" + tail;
    assert ("\"" + value + "\"" + tail)[1..] == text;
    if Plain(value) {
      PlainReadsBack(value, tail);
    } else {
      assert text[..|value|] == value;
      if ReadChars(text).Some? {
        ReadingNeverLengthens(text);
      }
    }
  }
}
