/** Quoting a value as a Lua string literal, and the reader that takes it back. */
module LuaQuote {

  const BELL := 7 as char
  const BACKSPACE := 8 as char
  const TAB := 9 as char
  const VTAB := 11 as char
  const FORMFEED := 12 as char
  const DELETE := 127 as char
  const QUOTE := '\"'

  predicate IsControl(c: char) {
    c as int < 0x20 || c == DELETE
  }

  function Digit(n: nat): char
    requires n < 10
  {
    ('0' as int + n) as char
  }

  /** A number printed with the format %03u, for the numbers that need no more than three digits */
  function ThreeDigits(n: nat): string
    requires n < 1000
  {
    [Digit(n / 100), Digit(n / 10 % 10), Digit(n % 10)]
  }

  function Escaped(c: char): string {
    if c == '\\' then "\\\\"
    else if c == QUOTE then "\\\""
    else if c == '\n' then "\\n"
    else if c == '\r' then "\\r"
    else if c == '\t' then "\\t"
    else if c == BACKSPACE then "\\b"
    else if c == FORMFEED then "\\f"
    else if IsControl(c) then "\\" + ThreeDigits(c as int)
    else [c]
  }

  function Body(s: string): string {
    if s == "" then "" else Escaped(s[0]) + Body(s[1..])
  }

  function Quoted(s: string): string {
    [QUOTE] + Body(s) + [QUOTE]
  }

  lemma {:induction false} BodySnoc(s: string, c: char)
    ensures Body(s + [c]) == Body(s) + Escaped(c)
  {
    if s == "" {
      assert s + [c] == [c] && [c][1..] == "";
      assert Body([c]) == Escaped(c) + Body("");
    } else {
      assert (s + [c])[1..] == s[1..] + [c];
      BodySnoc(s[1..], c);
    }
  }

  lemma BodyNext(s: string, i: nat)
    requires i < |s|
    ensures [QUOTE] + Body(s[..i + 1]) == [QUOTE] + Body(s[..i]) + Escaped(s[i])
  {
    assert s[..i + 1] == s[..i] + [s[i]];
    BodySnoc(s[..i], s[i]);
  }

  /** quote_lua_string */
  method QuoteLuaString(value: string) returns (result: string)
    ensures result == Quoted(value)
  {
    result := [QUOTE];
    for i := 0 to |value|
      invariant result == [QUOTE] + Body(value[..i])
    {
      var c := value[i];
      BodyNext(value, i);
      ghost var before := result;
      if c == '\\' {
        result := result + "\\\\";
      } else if c == QUOTE {
        result := result + "\\\"";
      } else if c == '\n' {
        result := result + "\\n";
      } else if c == '\r' {
        result := result + "\\r";
      } else if c == '\t' {
        result := result + "\\t";
      } else if c == BACKSPACE {
        result := result + "\\b";
      } else if c == FORMFEED {
        result := result + "\\f";
      } else if IsControl(c) {
        result := result + "\\" + ThreeDigits(c as int);
      } else {
        result := result + [c];
      }
      assert result == before + Escaped(c);
    }
    assert value[..|value|] == value;
    result := result + [QUOTE];
  }

  // ----- Reading: section 3.1 of the Lua 5.3 Reference Manual ----------------------------------------

  datatype Reading = Read(value: string, rest: string) | Malformed

  predicate IsDigit(c: char) {
    '0' <= c <= '9'
  }

  function HexValue(c: char): int {
    if '0' <= c <= '9' then c as int - '0' as int
    else if 'a' <= c <= 'f' then c as int - 'a' as int + 10
    else if 'A' <= c <= 'F' then c as int - 'A' as int + 10
    else -1
  }

  predicate IsBreak(c: char) {
    c == '\n' || c == '\r'
  }

  predicate IsSpace(c: char) {
    c == ' ' || c == TAB || c == VTAB || c == FORMFEED || IsBreak(c)
  }

  /** The value of an escape of one letter */
  function Letter(c: char): string {
    match c
    case 'a' => [BELL]
    case 'b' => [BACKSPACE]
    case 'f' => [FORMFEED]
    case 'n' => "\n"
    case 'r' => "\r"
    case 't' => "\t"
    case 'v' => [VTAB]
    case '\\' => "\\"
    case '\"' => "\""
    case '\'' => "\'"
    case _ => ""
  }

  /** How many of the first n characters, at most, are digits, up to the first that is not */
  function DigitCount(s: string, n: nat): nat
    ensures DigitCount(s, n) <= n && DigitCount(s, n) <= |s|
  {
    if n == 0 || s == "" || !IsDigit(s[0]) then 0 else 1 + DigitCount(s[1..], n - 1)
  }

  function DecimalValue(s: string): int {
    if s == "" then 0 else 10 * DecimalValue(s[..|s| - 1]) + s[|s| - 1] as int - '0' as int
  }

  function SkipSpaces(s: string): string
    ensures |SkipSpaces(s)| <= |s|
  {
    if s != "" && IsSpace(s[0]) then SkipSpaces(s[1..]) else s
  }

  function Prepend(c: char, r: Reading): Reading {
    if r.Read? then Read([c] + r.value, r.rest) else r
  }

  /** The rest of a literal whose opening delimiter has been read */
  function ReadBody(src: string, delimiter: char): Reading
    decreases |src|
  {
    if src == "" || IsBreak(src[0]) then Malformed
    else if src[0] == delimiter then Read("", src[1..])
    else if src[0] == '\\' then
      if |src| == 1 then Malformed else ReadEscape(src, delimiter)
    else Prepend(src[0], ReadBody(src[1..], delimiter))
  }

  /** The same, where it starts with a backslash */
  function ReadEscape(src: string, delimiter: char): Reading
    requires |src| >= 2
    decreases |src|, 0
  {
    var c := src[1];
    if Letter(c) != "" then Prepend(Letter(c)[0], ReadBody(src[2..], delimiter))
    else if IsBreak(c) then
      // a carriage return and a newline together are one line break
      var n := if |src| > 2 && IsBreak(src[2]) && src[2] != c then 3 else 2;
      Prepend('\n', ReadBody(src[n..], delimiter))
    else if c == 'z' then ReadBody(SkipSpaces(src[2..]), delimiter)
    else if c == 'x' then
      if |src| >= 4 && HexValue(src[2]) >= 0 && HexValue(src[3]) >= 0 then
        Prepend((16 * HexValue(src[2]) + HexValue(src[3])) as char, ReadBody(src[4..], delimiter))
      else Malformed
    else if IsDigit(c) then
      var n := DigitCount(src[1..], 3);
      var v := DecimalValue(src[1..n + 1]);
      if 0 <= v <= 255 then Prepend(v as char, ReadBody(src[n + 1..], delimiter)) else Malformed
    else Malformed
  }

  /** A literal between matching single or double quotes */
  function ReadString(src: string): Reading {
    if src != "" && (src[0] == QUOTE || src[0] == '\'') then ReadBody(src[1..], src[0]) else Malformed
  }

  // ----- The round trip ----------------------------------------------------------------------------

  lemma ThreeDigitsRead(n: nat, tail: string)
    requires n < 1000
    ensures DigitCount(ThreeDigits(n) + tail, 3) == 3 && DecimalValue(ThreeDigits(n)) == n
  {
    var s := ThreeDigits(n);
    assert IsDigit(s[0]) && IsDigit(s[1]) && IsDigit(s[2]);
    assert (s + tail)[1..] == [s[1], s[2]] + tail;
    assert ([s[1], s[2]] + tail)[1..] == [s[2]] + tail;
    assert ([s[2]] + tail)[1..] == tail;
    assert DigitCount([s[2]] + tail, 1) == 1;
    assert DigitCount([s[1], s[2]] + tail, 2) == 2;
    assert s[..2] == [s[0], s[1]] && s[..2][..1] == [s[0]] && s[..2][..1][..0] == "";
    assert DecimalValue([s[0]]) == n / 100;
    assert DecimalValue([s[0], s[1]]) == n / 10;
  }

  /** A control character is read back whatever follows it, digits included. */
  lemma ReadControl(c: char, tail: string)
    requires IsControl(c)
    ensures ReadBody("\\" + ThreeDigits(c as int) + tail, QUOTE) == Prepend(c, ReadBody(tail, QUOTE))
  {
    var s := ThreeDigits(c as int);
    var src := "\\" + s + tail;
    ThreeDigitsRead(c as int, tail);
    assert src[1..] == s + tail && src[1..4] == s && src[4..] == tail;
    assert src[1] == s[0] && IsDigit(src[1]);
    assert ReadEscape(src, QUOTE) == Prepend(c, ReadBody(tail, QUOTE));
  }

  /** Each character is read back, and no more than its own escape is consumed. */
  lemma ReadEscaped(c: char, tail: string)
    ensures ReadBody(Escaped(c) + tail, QUOTE) == Prepend(c, ReadBody(tail, QUOTE))
  {
    var src := Escaped(c) + tail;
    if |Escaped(c)| == 1 {
      assert src[1..] == tail;
    } else if |Escaped(c)| == 2 {
      assert src[2..] == tail && src[1] == Escaped(c)[1];
      assert Letter(src[1]) == [c];
    } else {
      ReadControl(c, tail);
    }
  }

  lemma {:induction false} ReadQuotedBody(s: string, rest: string)
    ensures ReadBody(Body(s) + [QUOTE] + rest, QUOTE) == Read(s, rest)
  {
    if s == "" {
      assert Body(s) + [QUOTE] + rest == [QUOTE] + rest;
      assert ([QUOTE] + rest)[1..] == rest;
    } else {
      var tail := Body(s[1..]) + [QUOTE] + rest;
      assert Body(s) + [QUOTE] + rest == Escaped(s[0]) + tail;
      ReadEscaped(s[0], tail);
      ReadQuotedBody(s[1..], rest);
      assert s == [s[0]] + s[1..];
    }
  }

  /** Reading a quoted string consumes all of it and nothing behind it, and gives the string back. */
  lemma ReadQuoted(s: string, rest: string)
    ensures ReadString(Quoted(s) + rest) == Read(s, rest)
  {
    assert (Quoted(s) + rest)[1..] == Body(s) + [QUOTE] + rest;
    ReadQuotedBody(s, rest);
  }

  /** So no quoted string is the beginning of another one, and different strings are quoted differently. */
  lemma QuotedApart(s: string, t: string, rest: string)
    requires Quoted(s) + rest == Quoted(t)
    ensures s == t && rest == ""
  {
    ReadQuoted(s, rest);
    ReadQuoted(t, "");
    assert Quoted(t) + "" == Quoted(t);
  }

  /** No control character, and so no line break, is left in the output. */
  lemma {:induction false} NoControls(s: string)
    ensures forall i :: 0 <= i < |Body(s)| ==> 32 <= Body(s)[i] as int != 127
  {
    if s != "" {
      NoControls(s[1..]);
      EscapedPlain(s[0]);
    }
  }

  lemma EscapedPlain(c: char)
    ensures forall i :: 0 <= i < |Escaped(c)| ==> 32 <= Escaped(c)[i] as int != 127
  {
  }

  /** A character stands for itself, has an escape of one letter, or, a control character, of three digits. */
  lemma EscapeForms(c: char)
    ensures c in "\\\"" ==> Escaped(c) == ['\\', c]
    ensures c as int in {8, 9, 10, 12, 13} ==> |Escaped(c)| == 2 && 'b' <= Escaped(c)[1] <= 't'
    ensures (c as int < 32 || c as int == 127) && c as int !in {8, 9, 10, 12, 13} ==>
              |Escaped(c)| == 4 && forall i :: 1 <= i < 4 ==> IsDigit(Escaped(c)[i])
    ensures 32 <= c as int != 127 && c !in "\\\"" ==> Escaped(c) == [c]
  {
  }
}
