/** JsonString, tools/xex_inspect.cpp, against a decoder of JSON strings, RFC 8259 section 7. */
module JsonStrings {
  import opened Bytes

  const QUOTE: byte := 0x22
  const BACKSLASH: byte := 0x5C

  // ---- RFC 8259 section 7 ----

  function HexValue(c: byte): Option<nat> {
    if 0x30 <= c <= 0x39 then Some(c - 0x30)
    else if 0x41 <= c <= 0x46 then Some(c - 0x41 + 10)
    else if 0x61 <= c <= 0x66 then Some(c - 0x61 + 10)
    else None
  }

  /** The four hexadecimal digits at the front, in either case. */
  function CodeUnit(s: text): (unit: Option<nat>)
    ensures unit.Some? ==> |s| >= 4 && unit.value < 0x1_0000
  {
    if |s| < 4 then None
    else
      var (a, b, c, d) := (HexValue(s[0]), HexValue(s[1]), HexValue(s[2]), HexValue(s[3]));
      if a.None? || b.None? || c.None? || d.None? then None
      else Some(a.value * 0x1000 + b.value * 0x100 + c.value * 0x10 + d.value)
  }

  /** UTF-8, RFC 3629 section 3. */
  function Utf8(scalar: nat): text
    requires scalar < 0x11_0000
  {
    if scalar < 0x80 then [scalar]
    else if scalar < 0x800 then [0xC0 + scalar / 0x40, 0x80 + scalar % 0x40]
    else if scalar < 0x1_0000 then [0xE0 + scalar / 0x1000, 0x80 + scalar / 0x40 % 0x40, 0x80 + scalar % 0x40]
    else [0xF0 + scalar / 0x4_0000, 0x80 + scalar / 0x1000 % 0x40, 0x80 + scalar / 0x40 % 0x40, 0x80 + scalar % 0x40]
  }

  /** What follows a backslash and a u: one code unit, or a surrogate pair. A lone surrogate is refused. */
  function DecodeUnicode(s: text): (decoded: Option<(text, text)>)
    ensures decoded.Some? ==> |decoded.value.1| < |s|
  {
    match CodeUnit(s)
    case None => None
    case Some(unit) =>
      if 0xDC00 <= unit < 0xE000 then None
      else if 0xD800 <= unit < 0xDC00 then
        if |s| < 6 || s[4] != 0x5C || s[5] != 0x75 then None
        else match CodeUnit(s[6..])
          case None => None
          case Some(low) =>
            if 0xDC00 <= low < 0xE000 then
              Some((Utf8(0x1_0000 + (unit - 0xD800) * 0x400 + (low - 0xDC00)), s[10..]))
            else None
      else Some((Utf8(unit), s[4..]))
  }

  /** What follows a backslash. */
  function DecodeEscape(s: text): (decoded: Option<(text, text)>)
    ensures decoded.Some? ==> |decoded.value.1| < |s|
  {
    if |s| == 0 then None
    else if s[0] == 0x22 || s[0] == 0x5C || s[0] == 0x2F then Some(([s[0]], s[1..]))
    else if s[0] == 0x62 then Some(([0x08], s[1..]))
    else if s[0] == 0x66 then Some(([0x0C], s[1..]))
    else if s[0] == 0x6E then Some(([0x0A], s[1..]))
    else if s[0] == 0x72 then Some(([0x0D], s[1..]))
    else if s[0] == 0x74 then Some(([0x09], s[1..]))
    else if s[0] == 0x75 then DecodeUnicode(s[1..])
    else None
  }

  /** The characters up to the closing quote, and the text after it. */
  function DecodeCharacters(s: text): Option<(text, text)>
    decreases |s|
  {
    if |s| == 0 then None
    else if s[0] == 0x22 then Some(([], s[1..]))
    else if s[0] == 0x5C then
      match DecodeEscape(s[1..])
      case None => None
      case Some((front, rest)) => Prepend(front, DecodeCharacters(rest))
    else if s[0] < 0x20 then None
    else Prepend([s[0]], DecodeCharacters(s[1..]))
  }

  function Prepend(front: text, decoded: Option<(text, text)>): Option<(text, text)> {
    match decoded
    case None => None
    case Some((value, rest)) => Some((front + value, rest))
  }

  function DecodeString(s: text): Option<(text, text)> {
    if |s| == 0 || s[0] != 0x22 then None else DecodeCharacters(s[1..])
  }

  // ---- The escape ----

  /** Lower case, as std::hex writes it. */
  function HexDigit(value: nat): byte
    requires value < 16
  {
    if value < 10 then 0x30 + value else 0x61 + (value - 10)
  }

  function Escape(c: byte): (escaped: text)
    ensures |escaped| > 0
  {
    if c == QUOTE then [BACKSLASH, QUOTE]
    else if c == BACKSLASH then [BACKSLASH, BACKSLASH]
    else if c == 0x0A then [BACKSLASH, 0x6E]
    else if c == 0x0D then [BACKSLASH, 0x72]
    else if c == 0x09 then [BACKSLASH, 0x74]
    else if c < 0x20 then [BACKSLASH, 0x75, 0x30, 0x30, HexDigit(c / 16), HexDigit(c % 16)]
    else [c]
  }

  /** Quote, backslash, line feed, carriage return and tab take two characters; any other control
      byte takes six, its digits in lower case; every other byte goes through as it is. */
  lemma EscapeForms(c: byte)
    ensures |Escape(c)| == 2 <==> c in {0x22, 0x5C, 0x0A, 0x0D, 0x09}
    ensures |Escape(c)| == 1 <==> c >= 0x20 && c != 0x22 && c != 0x5C
    ensures |Escape(c)| == 6 <==> c < 0x20 && c !in {0x0A, 0x0D, 0x09}
    ensures |Escape(c)| in {1, 2, 6}
    ensures |Escape(c)| == 6 ==>
              Escape(c)[..5] == [0x5C, 0x75, 0x30, 0x30, if c < 0x10 then 0x30 else 0x31]
              && Escape(c)[5] == [0x30, 0x31, 0x32, 0x33, 0x34, 0x35, 0x36, 0x37,
                                  0x38, 0x39, 0x61, 0x62, 0x63, 0x64, 0x65, 0x66][c % 16]
  {
    if |Escape(c)| == 6 {
      assert Escape(c)[..5] == [Escape(c)[0], Escape(c)[1], Escape(c)[2], Escape(c)[3], Escape(c)[4]];
    }
  }

  function EscapeAll(value: text): text {
    if |value| == 0 then [] else Escape(value[0]) + EscapeAll(value[1..])
  }

  lemma {:induction false} EscapeAllAppends(left: text, right: text)
    ensures EscapeAll(left + right) == EscapeAll(left) + EscapeAll(right)
    decreases |left|
  {
    if |left| == 0 {
      assert left + right == right;
    } else {
      assert (left + right)[0] == left[0] && (left + right)[1..] == left[1..] + right;
      EscapeAllAppends(left[1..], right);
    }
  }

  /** std::setw(4) with a fill of zeros, in hexadecimal. */
  method FourHexDigits(value: nat) returns (digits: text)
    requires value < 0x1_0000
    ensures digits == [HexDigit(value / 0x1000), HexDigit(value / 0x100 % 16), HexDigit(value / 16 % 16), HexDigit(value % 16)]
  {
    digits := [];
    var rest := value;
    for k := 0 to 4
      invariant |digits| == k
      invariant rest == if k == 0 then value else if k == 1 then value / 16 else if k == 2 then value / 0x100
                        else if k == 3 then value / 0x1000 else 0
      invariant k >= 1 ==> digits[k - 1] == HexDigit(value % 16)
      invariant k >= 2 ==> digits[k - 2] == HexDigit(value / 16 % 16)
      invariant k >= 3 ==> digits[k - 3] == HexDigit(value / 0x100 % 16)
      invariant k >= 4 ==> digits[k - 4] == HexDigit(value / 0x1000)
    {
      digits := [HexDigit(rest % 16)] + digits;
      rest := rest / 16;
    }
  }

  /** A JSON string whose text decodes to `value`. */
  method JsonString(value: text) returns (output: text)
    ensures output == [QUOTE] + EscapeAll(value) + [QUOTE]
    ensures forall rest :: DecodeString(output + rest) == Some((value, rest))
  {
    hide EscapeAll, HexDigit;
    output := [QUOTE];
    NothingEscaped();
    for index := 0 to |value|
      invariant output == [QUOTE] + EscapeAll(value[..index])
    {
      var character := value[index];
      OneMoreEscaped(value, index);
      if character == QUOTE {
        output := output + [BACKSLASH, QUOTE];
      } else if character == BACKSLASH {
        output := output + [BACKSLASH, BACKSLASH];
      } else if character == 0x0A {
        output := output + [BACKSLASH, 0x6E];
      } else if character == 0x0D {
        output := output + [BACKSLASH, 0x72];
      } else if character == 0x09 {
        output := output + [BACKSLASH, 0x74];
      } else if character < 0x20 {
        var digits := FourHexDigits(character);
        ControlDigits(character);
        output := output + ([BACKSLASH, 0x75] + digits);
      } else {
        output := output + [character];
      }
    }
    assert value[..|value|] == value;
    output := output + [QUOTE];
    forall rest
      ensures DecodeString(output + rest) == Some((value, rest))
    {
      DecodeUndoesJsonString(value, rest);
    }
  }

  lemma NothingEscaped()
    ensures EscapeAll([]) == []
  {
  }

  lemma OneMoreEscaped(value: text, index: nat)
    requires index < |value|
    ensures EscapeAll(value[..index + 1]) == EscapeAll(value[..index]) + Escape(value[index])
  {
    assert value[..index + 1] == value[..index] + [value[index]];
    EscapeAllAppends(value[..index], [value[index]]);
    assert EscapeAll([value[index]]) == Escape(value[index]) + EscapeAll([]);
  }

  lemma ControlDigits(c: byte)
    requires c < 0x20
    ensures HexDigit(c / 0x1000) == 0x30 && HexDigit(c / 0x100 % 16) == 0x30
    ensures c / 16 < 16 && HexDigit(c / 16 % 16) == HexDigit(c / 16)
  {
  }

  // ---- The round trip ----

  /** Decoding from an escaped character on gives that character and goes on behind it. */
  lemma DecodeUndoesEscape(c: byte, rest: text)
    ensures DecodeCharacters(Escape(c) + rest) == Prepend([c], DecodeCharacters(rest))
  {
    var s := Escape(c) + rest;
    if c == QUOTE || c == BACKSLASH || c == 0x0A || c == 0x0D || c == 0x09 {
      assert s[1..][1..] == rest;
    } else if c < 0x20 {
      HexDigitsAreRead(c);
      assert s[1..][1..][0] == 0x30 && s[1..][1..][1] == 0x30;
      assert s[1..][1..][2] == HexDigit(c / 16) && s[1..][1..][3] == HexDigit(c % 16);
      assert CodeUnit(s[1..][1..]) == Some(c as nat);
      assert s[1..][1..][4..] == rest;
    } else {
      assert s[1..] == rest;
    }
  }

  lemma HexDigitsAreRead(c: byte)
    requires c < 0x20
    ensures HexValue(HexDigit(c / 16)) == Some(c / 16) && HexValue(HexDigit(c % 16)) == Some(c % 16)
    ensures HexValue(0x30) == Some(0) && c / 16 * 16 + c % 16 == c
  {
  }

  lemma {:induction false} DecodeUndoesEscapes(value: text, rest: text)
    ensures DecodeCharacters(EscapeAll(value) + [QUOTE] + rest) == Some((value, rest))
    decreases |value|
  {
    hide Escape;
    if |value| == 0 {
      assert EscapeAll(value) + [QUOTE] + rest == [QUOTE] + rest;
      assert ([QUOTE] + rest)[1..] == rest;
    } else {
      var behind := EscapeAll(value[1..]) + [QUOTE] + rest;
      assert EscapeAll(value) + [QUOTE] + rest == Escape(value[0]) + behind;
      DecodeUndoesEscape(value[0], behind);
      DecodeUndoesEscapes(value[1..], rest);
      assert value == [value[0]] + value[1..];
    }
  }

  /** Whatever text follows, decoding stops at the closing quote and gives the value back. */
  lemma DecodeUndoesJsonString(value: text, rest: text)
    ensures DecodeString([QUOTE] + EscapeAll(value) + [QUOTE] + rest) == Some((value, rest))
  {
    var s := [QUOTE] + EscapeAll(value) + [QUOTE] + rest;
    assert s[1..] == EscapeAll(value) + [QUOTE] + rest;
    DecodeUndoesEscapes(value, rest);
  }

  /** Two documents that share a string's text share the string and what follows it. */
  lemma JsonStringIsInjective(left: text, leftRest: text, right: text, rightRest: text)
    requires [QUOTE] + EscapeAll(left) + [QUOTE] + leftRest == [QUOTE] + EscapeAll(right) + [QUOTE] + rightRest
    ensures left == right && leftRest == rightRest
  {
    DecodeUndoesJsonString(left, leftRest);
    DecodeUndoesJsonString(right, rightRest);
  }

  // ---- UTF-8, RFC 8259 section 8.1 ----

  /** How a UTF-8 reader stands, RFC 3629 section 4: between characters, or waiting for trailing
      bytes, the next of which lies in low..high. */
  datatype Utf8Reader = Waiting(count: nat, low: byte, high: byte) | Malformed

  const BETWEEN := Waiting(0, 0x80, 0xBF)

  function ReadByte(reader: Utf8Reader, c: byte): Utf8Reader {
    if reader.Malformed? then Malformed
    else if reader.count > 0 then
      if reader.low <= c <= reader.high then Waiting(reader.count - 1, 0x80, 0xBF) else Malformed
    else if c < 0x80 then BETWEEN
    else if 0xC2 <= c <= 0xDF then Waiting(1, 0x80, 0xBF)
    else if c == 0xE0 then Waiting(2, 0xA0, 0xBF)
    else if c == 0xED then Waiting(2, 0x80, 0x9F)
    else if 0xE1 <= c <= 0xEF then Waiting(2, 0x80, 0xBF)
    else if c == 0xF0 then Waiting(3, 0x90, 0xBF)
    else if c == 0xF4 then Waiting(3, 0x80, 0x8F)
    else if 0xF1 <= c <= 0xF3 then Waiting(3, 0x80, 0xBF)
    else Malformed
  }

  function ReadBytes(reader: Utf8Reader, s: text): Utf8Reader
    decreases |s|
  {
    if |s| == 0 then reader else ReadBytes(ReadByte(reader, s[0]), s[1..])
  }

  predicate ValidUtf8(s: text) {
    var end := ReadBytes(BETWEEN, s);
    end.Waiting? && end.count == 0
  }

  /** A reader that is between characters or lost, or that asks for a byte above 0x7F. */
  predicate Proper(reader: Utf8Reader) {
    reader.Waiting? ==> reader.low >= 0x80 && (reader.count == 0 ==> reader == BETWEEN)
  }

  lemma {:induction false} AsciiIsOneStep(reader: Utf8Reader, s: text)
    requires Proper(reader) && |s| > 0 && forall k :: 0 <= k < |s| ==> s[k] < 0x80
    ensures ReadBytes(reader, s) == if reader == BETWEEN then BETWEEN else Malformed
    decreases |s|
  {
    var next := ReadByte(reader, s[0]);
    if |s| == 1 {
      assert s[1..] == [];
    } else {
      AsciiIsOneStep(next, s[1..]);
    }
  }

  lemma {:induction false} ReadBytesInTwo(reader: Utf8Reader, left: text, right: text)
    ensures ReadBytes(reader, left + right) == ReadBytes(ReadBytes(reader, left), right)
    decreases |left|
  {
    if |left| == 0 {
      assert left + right == right;
    } else {
      assert (left + right)[1..] == left[1..] + right;
      ReadBytesInTwo(ReadByte(reader, left[0]), left[1..], right);
    }
  }

  lemma EscapeReadsLikeItsByte(reader: Utf8Reader, c: byte)
    requires Proper(reader)
    ensures ReadBytes(reader, Escape(c)) == ReadByte(reader, c)
    ensures Proper(ReadByte(reader, c))
  {
    if c < 0x80 {
      AsciiIsOneStep(reader, Escape(c));
    } else {
      assert [c][1..] == [];
    }
  }

  lemma {:induction false} EscapesReadLikeTheirBytes(reader: Utf8Reader, value: text)
    requires Proper(reader)
    ensures ReadBytes(reader, EscapeAll(value)) == ReadBytes(reader, value)
    ensures Proper(ReadBytes(reader, value))
    decreases |value|
  {
    hide Escape, ReadByte;
    if |value| > 0 {
      EscapeReadsLikeItsByte(reader, value[0]);
      ReadBytesInTwo(reader, Escape(value[0]), EscapeAll(value[1..]));
      EscapesReadLikeTheirBytes(ReadByte(reader, value[0]), value[1..]);
    }
  }

  /** The string is UTF-8, as JSON text must be, exactly when the value is. */
  lemma JsonStringIsUtf8IffItsValueIs(value: text)
    ensures ValidUtf8([QUOTE] + EscapeAll(value) + [QUOTE]) <==> ValidUtf8(value)
  {
    ReadBytesInTwo(BETWEEN, [QUOTE] + EscapeAll(value), [QUOTE]);
    ReadBytesInTwo(BETWEEN, [QUOTE], EscapeAll(value));
    AsciiIsOneStep(BETWEEN, [QUOTE]);
    EscapesReadLikeTheirBytes(BETWEEN, value);
    AsciiIsOneStep(ReadBytes(BETWEEN, value), [QUOTE]);
  }

  /** A byte that UTF-8 never uses goes through as it is, and the string is not JSON text. */
  lemma JsonStringNeedNotBeUtf8()
    ensures [QUOTE] + EscapeAll([0xFF]) + [QUOTE] == [QUOTE, 0xFF, QUOTE]
    ensures !ValidUtf8([QUOTE, 0xFF, QUOTE])
  {
    var value: text := [0xFF];
    assert value[1..] == [];
    assert EscapeAll(value) == Escape(0xFF) + EscapeAll([]) == [0xFF];
    assert ReadBytes(BETWEEN, value) == ReadBytes(ReadByte(BETWEEN, 0xFF), value[1..]) == Malformed;
    JsonStringIsUtf8IffItsValueIs(value);
  }
}
