/** String literals: `valueToQuotedString`, `Reader::decodeString` and the `\u` machinery. */
module JsonString {
  import opened Wrappers
  import opened JsonValue

  const BACKSPACE: char := 8 as char
  const FORMFEED: char := 12 as char

  predicate IsControlCharacter(c: char) { 0 as char < c <= 0x1F as char }

  function HexChar(d: nat): char
    requires d < 16
  {
    if d < 10 then ('0' as int + d) as char else ('A' as int + d - 10) as char
  }

  /** Four upper-case hexadecimal digits. */
  function Hex4(n: nat): string
    requires n < 0x1_0000
  {
    [HexChar(n / 0x1000), HexChar(n / 0x100 % 16), HexChar(n / 16 % 16), HexChar(n % 16)]
  }

  // ------------------------------------------------------------------ quoting

  function EscapeChar(c: char): (s: string)
    ensures s != []
  {
    if c == '"' then "\\\"" else
    if c == '\\' then "\\\\" else
    if c == BACKSPACE then "\\b" else
    if c == FORMFEED then "\\f" else
    if c == '\n' then "\\n" else
    if c == '\r' then "\\r" else
    if c == '\t' then "\\t" else
    if IsControlCharacter(c) then "\\u" + Hex4(c as nat) else [c]
  }

  function QuoteBody(s: string): string {
    if s == [] then "" else EscapeChar(s[0]) + QuoteBody(s[1..])
  }

  function Quoted(s: string): string { "\"" + QuoteBody(s) + "\"" }

  /** Characters the source looks for before it takes the copying fast path. */
  predicate IsSpecial(c: char) {
    c in ['"', '\\', BACKSPACE, FORMFEED, '\n', '\r', '\t'] || IsControlCharacter(c)
  }

  lemma {:induction false} PlainBody(s: string)
    requires forall k :: 0 <= k < |s| ==> !IsSpecial(s[k])
    ensures QuoteBody(s) == s
  {
    if s != [] {
      assert !IsSpecial(s[0]);
      PlainBody(s[1..]);
      assert s == [s[0]] + s[1..];
    }
  }

  lemma {:induction false} QuoteBodyAppend(s: string, c: char)
    ensures QuoteBody(s + [c]) == QuoteBody(s) + EscapeChar(c)
  {
    if s == [] {
      assert [c][1..] == "";
      assert QuoteBody([c]) == EscapeChar(c) + QuoteBody("");
      assert s + [c] == [c];
    } else {
      assert (s + [c])[1..] == s[1..] + [c];
      QuoteBodyAppend(s[1..], c);
    }
  }

  /** What `writeValue` emits for a string: nothing at all for a null pointer. */
  function StringText(value: Option<CString>): string {
    match value
    case None => ""
    case Some(s) => Quoted(s)
  }

  /** `valueToQuotedString`: the fast path that only adds quotes yields the escaped form too. */
  method ValueToQuotedString(value: Option<CString>) returns (result: string)
    ensures result == StringText(value)
  {
    hide QuoteBody, EscapeChar, IsSpecial;
    if value.None? { return ""; }
    var s: string := value.value;
    if forall k :: 0 <= k < |s| ==> !IsSpecial(s[k]) {
      PlainBody(s);
      return "\"" + s + "\"";
    }
    result := "\"";
    NothingQuoted();
    for c := 0 to |s|
      invariant result == "\"" + QuoteBody(s[..c])
    {
      assert s[..c + 1] == s[..c] + [s[c]];
      QuoteBodyAppend(s[..c], s[c]);
      result := AppendEscaped(result, s[c]);
    }
    assert s[..|s|] == s;
    result := result + "\"";
  }

  lemma NothingQuoted()
    ensures QuoteBody("") == ""
  {
  }

  /** One round of its loop. */
  method AppendEscaped(result: string, c: char) returns (longer: string)
    ensures longer == result + EscapeChar(c)
  {
    if c == '"' { longer := result + "\\\""; }
    else if c == '\\' { longer := result + "\\\\"; }
    else if c == BACKSPACE { longer := result + "\\b"; }
    else if c == FORMFEED { longer := result + "\\f"; }
    else if c == '\n' { longer := result + "\\n"; }
    else if c == '\r' { longer := result + "\\r"; }
    else if c == '\t' { longer := result + "\\t"; }
    else if IsControlCharacter(c) { longer := result + "\\u" + Hex4(c as nat); }
    else { longer := result + [c]; }
  }

  // ------------------------------------------------------------------ unicode

  /** `codePointToUTF8`; masks and shifts by powers of two are written as division. */
  function CodePointToUTF8(cp: nat): string {
    if cp <= 0x7F then [cp as char]
    else if cp <= 0x7FF then [(0xC0 + cp / 64 % 32) as char, (0x80 + cp % 64) as char]
    else if cp <= 0xFFFF then
      [(0xE0 + cp / 0x1000 % 16) as char, (0x80 + cp / 64 % 64) as char, (0x80 + cp % 64) as char]
    else if cp <= 0x10FFFF then
      [(0xF0 + cp / 0x4_0000 % 8) as char, (0x80 + cp / 0x1000 % 64) as char,
       (0x80 + cp / 64 % 64) as char, (0x80 + cp % 64) as char]
    else ""
  }

  predicate IsScalar(cp: nat) { cp < 0xD800 || 0xE000 <= cp <= 0x10FFFF }

  predicate IsTail(c: char) { 0x80 <= c as int <= 0xBF }

  function Tail(c: char): nat
    requires IsTail(c)
  {
    c as int - 0x80
  }

  /** The number a byte string encodes, by the table in section 3 of RFC 3629: shortest forms only. */
  function NumberOfUtf8(s: string): Option<nat> {
    if |s| == 1 && s[0] as int < 0x80 then Some(s[0] as int)
    else if |s| == 2 && 0xC2 <= s[0] as int <= 0xDF && IsTail(s[1]) then
      Some((s[0] as int - 0xC0) * 64 + Tail(s[1]))
    else if |s| == 3 && 0xE0 <= s[0] as int <= 0xEF && IsTail(s[1]) && IsTail(s[2]) then
      var cp := (s[0] as int - 0xE0) * 0x1000 + Tail(s[1]) * 64 + Tail(s[2]);
      if cp >= 0x800 then Some(cp) else None
    else if |s| == 4 && 0xF0 <= s[0] as int <= 0xF4 && IsTail(s[1]) && IsTail(s[2]) && IsTail(s[3]) then
      var cp := (s[0] as int - 0xF0) * 0x4_0000 + Tail(s[1]) * 0x1000 + Tail(s[2]) * 64 + Tail(s[3]);
      if 0x1_0000 <= cp <= 0x10FFFF then Some(cp) else None
    else None
  }

  /** The scalar value it encodes; the surrogates, which are no scalar values, have no encoding there. */
  function ScalarOfUtf8(s: string): Option<nat> {
    match NumberOfUtf8(s)
    case Some(cp) => if IsScalar(cp) then Some(cp) else None
    case None => None
  }

  /** The encoder produces exactly the RFC 3629 form of every scalar value. */
  lemma Utf8RoundTrip(cp: nat)
    requires IsScalar(cp)
    ensures ScalarOfUtf8(CodePointToUTF8(cp)) == Some(cp)
  {
    Utf8OfAny(cp);
  }

  /** Surrogates, which it does not refuse, get the form their number would have. */
  lemma Utf8OfAny(cp: nat)
    requires cp <= 0x10FFFF
    ensures NumberOfUtf8(CodePointToUTF8(cp)) == Some(cp)
  {
    if 0x7F < cp <= 0x7FF {
      var a, b, c, d := SixBits(cp);
    } else if 0x7FF < cp <= 0xFFFF {
      ThreeBytes(cp);
    } else if 0xFFFF < cp {
      FourBytes(cp);
    }
  }

  lemma ThreeBytes(cp: nat)
    requires 0x800 <= cp <= 0xFFFF
    ensures NumberOfUtf8(CodePointToUTF8(cp)) == Some(cp)
  {
    var a, b, c, d := SixBits(cp);
    assert CodePointToUTF8(cp) == [(0xE0 + b) as char, (0x80 + c) as char, (0x80 + d) as char];
  }

  lemma FourBytes(cp: nat)
    requires 0x1_0000 <= cp <= 0x10FFFF
    ensures NumberOfUtf8(CodePointToUTF8(cp)) == Some(cp)
  {
    var a, b, c, d := SixBits(cp);
    assert CodePointToUTF8(cp) == [(0xF0 + a) as char, (0x80 + b) as char, (0x80 + c) as char, (0x80 + d) as char];
  }

  /** The six-bit groups of a code point, most significant first. */
  lemma SixBits(cp: nat) returns (a: nat, b: nat, c: nat, d: nat)
    requires cp <= 0x10FFFF
    ensures cp == a * 0x4_0000 + b * 0x1000 + c * 64 + d
    ensures a <= 4 && b < 64 && c < 64 && d < 64
    ensures a == cp / 0x4_0000 && b == cp / 0x1000 % 64 && c == cp / 64 % 64 && d == cp % 64
    ensures cp <= 0xFFFF ==> a == 0 && b == cp / 0x1000 < 16
    ensures a % 8 == a
  {
    d := cp % 64;
    c := cp / 64 % 64;
    b := cp / 0x1000 % 64;
    a := cp / 0x4_0000;
    assert cp == 64 * (cp / 64) + d;
    assert cp / 64 == 64 * (cp / 64 / 64) + c;
    assert cp / 64 / 64 == cp / 0x1000;
    assert cp / 0x1000 == 64 * (cp / 0x1000 / 64) + b;
    assert cp / 0x1000 / 64 == cp / 0x4_0000;
  }

  // ------------------------------------------------------------------ decoding

  datatype StringError =
    | EmptyEscape | BadEscape | FourDigitsExpected | HexDigitExpected
    | SixMoreExpected | SecondHalfExpected

  /** A decoded unit and the position after it, or an error and the position it is reported at. */
  datatype Unit = Unit(value: nat, next: nat) | BadUnit(error: StringError, at: nat)

  predicate IsHex(c: char) { '0' <= c <= '9' || 'a' <= c <= 'f' || 'A' <= c <= 'F' }

  function HexValue(c: char): (d: nat)
    requires IsHex(c)
    ensures d < 16
  {
    if '0' <= c <= '9' then c as int - '0' as int
    else if 'a' <= c <= 'f' then c as int - 'a' as int + 10
    else c as int - 'A' as int + 10
  }

  /** The digit loop of `decodeUnicodeEscapeSequence` with `left` digits to go. */
  function HexRun(s: string, i: nat, left: nat, unicode: nat): Unit
    requires i + left <= |s|
    decreases left
  {
    if left == 0 then Unit(unicode, i)
    else if !IsHex(s[i]) then BadUnit(HexDigitExpected, i + 1)
    else HexRun(s, i + 1, left - 1, unicode * 16 + HexValue(s[i]))
  }

  /** `decodeUnicodeEscapeSequence`. */
  function EscapeSequence(s: string, i: nat): Unit
    requires i <= |s|
  {
    if |s| - i < 4 then BadUnit(FourDigitsExpected, i) else HexRun(s, i, 4, 0)
  }

  lemma {:induction false} HexRunAdvances(s: string, i: nat, left: nat, unicode: nat)
    requires i + left <= |s|
    ensures var r := HexRun(s, i, left, unicode); r.Unit? ==> r.next == i + left
    decreases left
  {
    if left > 0 && IsHex(s[i]) { HexRunAdvances(s, i + 1, left - 1, unicode * 16 + HexValue(s[i])); }
  }

  /** `decodeUnicodeCodePoint`; the second half of a pair is not checked to be a low surrogate. */
  function CodePoint(s: string, i: nat): Unit
    requires i <= |s|
  {
    var first := EscapeSequence(s, i);
    if first.BadUnit? || !(0xD800 <= first.value <= 0xDBFF) then first
    else
      HexRunAdvances(s, i, 4, 0);
      if |s| - first.next < 6 then BadUnit(SixMoreExpected, first.next)
      else if s[first.next] != '\\' then BadUnit(SecondHalfExpected, first.next + 1)
      else if s[first.next + 1] != 'u' then BadUnit(SecondHalfExpected, first.next + 2)
      else
        var second := EscapeSequence(s, first.next + 2);
        if second.BadUnit? then second
        else Unit(0x1_0000 + first.value % 0x400 * 0x400 + second.value % 0x400, second.next)
  }

  lemma CodePointAdvances(s: string, i: nat)
    requires i <= |s|
    ensures var r := CodePoint(s, i); r.Unit? ==> i < r.next <= |s|
  {
  }

  datatype Text = Text(text: string) | BadText(error: StringError, at: nat)

  /** Meaning of the one-character escapes. */
  function SimpleEscape(c: char): Option<char> {
    match c
    case '"' => Some('"')
    case '/' => Some('/')
    case '\\' => Some('\\')
    case 'b' => Some(BACKSPACE)
    case 'f' => Some(FORMFEED)
    case 'n' => Some('\n')
    case 'r' => Some('\r')
    case 't' => Some('\t')
    case _ => None
  }

  /** The loop of `decodeString` over the text between the quotes, from position `i`. */
  function DecodeBody(s: string, i: nat, decoded: string): Text
    requires i <= |s|
    decreases |s| - i
  {
    if i == |s| || s[i] == '"' then Text(decoded)
    else if s[i] != '\\' then DecodeBody(s, i + 1, decoded + [s[i]])
    else if i + 1 == |s| then BadText(EmptyEscape, i + 1)
    else if s[i + 1] == 'u' then
      CodePointAdvances(s, i + 2);
      var r := CodePoint(s, i + 2);
      if r.BadUnit? then BadText(r.error, r.at) else DecodeBody(s, r.next, decoded + CodePointToUTF8(r.value))
    else match SimpleEscape(s[i + 1])
      case None => BadText(BadEscape, i + 2)
      case Some(c) => DecodeBody(s, i + 2, decoded + [c])
  }

  lemma HexRunStep(s: string, i: nat, left: nat, unicode: nat)
    requires i + left <= |s|
    ensures left == 0 ==> HexRun(s, i, left, unicode) == Unit(unicode, i)
    ensures left > 0 && !IsHex(s[i]) ==> HexRun(s, i, left, unicode) == BadUnit(HexDigitExpected, i + 1)
    ensures left > 0 && IsHex(s[i]) ==> HexRun(s, i, left, unicode) == HexRun(s, i + 1, left - 1, unicode * 16 + HexValue(s[i]))
  {
  }

  method DecodeUnicodeEscapeSequence(s: string, start: nat) returns (r: Unit)
    requires start <= |s|
    ensures r == EscapeSequence(s, start)
  {
    hide HexRun;
    var current := start;
    if |s| - current < 4 { return BadUnit(FourDigitsExpected, current); }
    var unicode: nat := 0;
    for index := 0 to 4
      invariant current == start + index
      invariant HexRun(s, current, 4 - index, unicode) == HexRun(s, start, 4, 0)
    {
      HexRunStep(s, current, 4 - index, unicode);
      var c := s[current];
      current := current + 1;
      unicode := unicode * 16;
      if '0' <= c <= '9' {
        unicode := unicode + (c as int - '0' as int);
      } else if 'a' <= c <= 'f' {
        unicode := unicode + (c as int - 'a' as int) + 10;
      } else if 'A' <= c <= 'F' {
        unicode := unicode + (c as int - 'A' as int) + 10;
      } else {
        return BadUnit(HexDigitExpected, current);
      }
    }
    HexRunStep(s, current, 0, unicode);
    r := Unit(unicode, current);
  }

  method DecodeUnicodeCodePoint(s: string, start: nat) returns (r: Unit)
    requires start <= |s|
    ensures r == CodePoint(s, start)
  {
    r := DecodeUnicodeEscapeSequence(s, start);
    if r.BadUnit? { return; }
    HexRunAdvances(s, start, 4, 0);
    var unicode, current := r.value, r.next;
    if 0xD800 <= unicode <= 0xDBFF {
      if |s| - current < 6 { return BadUnit(SixMoreExpected, current); }
      current := current + 1;
      if s[current - 1] != '\\' { return BadUnit(SecondHalfExpected, current); }
      current := current + 1;
      if s[current - 1] != 'u' { return BadUnit(SecondHalfExpected, current); }
      r := DecodeUnicodeEscapeSequence(s, current);
      if r.Unit? {
        r := Unit(0x1_0000 + unicode % 0x400 * 0x400 + r.value % 0x400, r.next);
      }
    }
  }

  /** `decodeString(Token&, std::string&)` on the text between the quotes. */
  method DecodeString(s: string) returns (r: Text)
    ensures r == DecodeBody(s, 0, "")
  {
    var decoded, current := "", 0;
    while current != |s|
      invariant current <= |s|
      invariant DecodeBody(s, current, decoded) == DecodeBody(s, 0, "")
      decreases |s| - current
    {
      var c := s[current];
      current := current + 1;
      if c == '"' {
        break;
      } else if c == '\\' {
        if current == |s| { return BadText(EmptyEscape, current); }
        var escape := s[current];
        current := current + 1;
        match escape {
          case '"' => decoded := decoded + ['"'];
          case '/' => decoded := decoded + ['/'];
          case '\\' => decoded := decoded + ['\\'];
          case 'b' => decoded := decoded + [BACKSPACE];
          case 'f' => decoded := decoded + [FORMFEED];
          case 'n' => decoded := decoded + ['\n'];
          case 'r' => decoded := decoded + ['\r'];
          case 't' => decoded := decoded + ['\t'];
          case 'u' =>
            CodePointAdvances(s, current);
            var unicode := DecodeUnicodeCodePoint(s, current);
            if unicode.BadUnit? { return BadText(unicode.error, unicode.at); }
            current := unicode.next;
            decoded := decoded + CodePointToUTF8(unicode.value);
          case _ => return BadText(BadEscape, current);
        }
      } else {
        decoded := decoded + [c];
      }
    }
    r := Text(decoded);
  }

  // ------------------------------------------------------------------ round trips

  const LOWER_DIGITS: string := "0123456789abcdef"
  const UPPER_DIGITS: string := "0123456789ABCDEF"

  /** `c` is the hexadecimal digit of value `d`, in either case. */
  predicate DigitIs(c: char, d: nat) { d < 16 && (c == LOWER_DIGITS[d] || c == UPPER_DIGITS[d]) }

  /** The reader takes exactly these digits, at these values, and the printer the upper-case ones. */
  lemma HexDigits(c: char, d: nat)
    ensures DigitIs(c, d) <==> IsHex(c) && HexValue(c) == d
    ensures d < 16 ==> HexChar(d) == UPPER_DIGITS[d]
  {
  }

  /** Four hexadecimal digits, in either case, that spell a number. */
  predicate SpellsUnit(h: string, n: nat) {
    |h| == 4 && n < 0x1_0000 &&
    DigitIs(h[0], n / 0x1000) && DigitIs(h[1], n / 0x100 % 16) && DigitIs(h[2], n / 16 % 16) && DigitIs(h[3], n % 16)
  }

  lemma Hex4Spells(n: nat)
    requires n < 0x1_0000
    ensures SpellsUnit(Hex4(n), n)
  {
    hide HexChar, IsHex, HexValue;
    HexDigits(UPPER_DIGITS[n / 0x1000], n / 0x1000);
    HexDigits(UPPER_DIGITS[n / 0x100 % 16], n / 0x100 % 16);
    HexDigits(UPPER_DIGITS[n / 16 % 16], n / 16 % 16);
    HexDigits(UPPER_DIGITS[n % 16], n % 16);
  }

  lemma EscapeSequenceReads(s: string, i: nat, h: string, n: nat)
    requires i + 4 <= |s| && s[i..i + 4] == h && SpellsUnit(h, n)
    ensures EscapeSequence(s, i) == Unit(n, i + 4)
  {
    hide DigitIs;
    assert s[i] == h[0] && s[i + 1] == h[1] && s[i + 2] == h[2] && s[i + 3] == h[3];
    DigitsRun(s, i, n / 0x1000, n / 0x100 % 16, n / 16 % 16, n % 16);
    FourDigits(n);
  }

  lemma FourDigits(n: nat)
    requires n < 0x1_0000
    ensures ((n / 0x1000 * 16 + n / 0x100 % 16) * 16 + n / 16 % 16) * 16 + n % 16 == n
  {
  }

  lemma DigitsRun(s: string, i: nat, a: nat, b: nat, c: nat, d: nat)
    requires i + 4 <= |s| && DigitIs(s[i], a) && DigitIs(s[i + 1], b) && DigitIs(s[i + 2], c) && DigitIs(s[i + 3], d)
    ensures HexRun(s, i, 4, 0) == Unit(((a * 16 + b) * 16 + c) * 16 + d, i + 4)
  {
    hide HexRun, IsHex, HexValue, DigitIs;
    HexDigits(s[i], a);
    HexDigits(s[i + 1], b);
    HexDigits(s[i + 2], c);
    HexDigits(s[i + 3], d);
    HexRunStep(s, i, 4, 0);
    HexRunStep(s, i + 1, 3, a);
    HexRunStep(s, i + 2, 2, a * 16 + b);
    HexRunStep(s, i + 3, 1, (a * 16 + b) * 16 + c);
    HexRunStep(s, i + 4, 0, ((a * 16 + b) * 16 + c) * 16 + d);
  }

  /** One round of the decoding loop on a `\u` escape. */
  lemma DecodeUnit(s: string, i: nat, decoded: string)
    requires i + 1 < |s| && s[i] == '\\' && s[i + 1] == 'u' && CodePoint(s, i + 2).Unit?
    ensures var r := CodePoint(s, i + 2);
            i < r.next <= |s| && DecodeBody(s, i, decoded) == DecodeBody(s, r.next, decoded + CodePointToUTF8(r.value))
  {
    hide CodePoint, CodePointToUTF8;
    CodePointAdvances(s, i + 2);
  }

  /** One round of the decoding loop on a one-character escape. */
  lemma DecodeSimple(s: string, i: nat, c: char, decoded: string)
    requires i + 1 < |s| && s[i] == '\\' && SimpleEscape(s[i + 1]) == Some(c)
    ensures DecodeBody(s, i, decoded) == DecodeBody(s, i + 2, decoded + [c])
  {
    hide CodePoint, CodePointToUTF8;
  }

  lemma ControlEscapeReads(s: string, i: nat, c: char, decoded: string)
    requires IsControlCharacter(c) && i + 6 <= |s| && s[i..i + 6] == "\\u" + Hex4(c as nat)
    ensures DecodeBody(s, i, decoded) == DecodeBody(s, i + 6, decoded + [c])
  {
    hide DecodeBody, EscapeSequence, Hex4, SpellsUnit, CodePointToUTF8;
    var h := ControlDigits(c);
    assert s[i + 2..i + 6] == s[i..i + 6][2..] == h;
    assert s[i] == s[i..i + 6][0] && s[i + 1] == s[i..i + 6][1];
    EscapeSequenceReads(s, i + 2, h, c as nat);
    DecodeUnit(s, i, decoded);
  }

  lemma ControlDigits(c: char) returns (h: string)
    requires IsControlCharacter(c)
    ensures h == Hex4(c as nat) && |h| == 4 && SpellsUnit(h, c as nat) && CodePointToUTF8(c as nat) == [c]
  {
    h := Hex4(c as nat);
    Hex4Spells(c as nat);
  }

  lemma EscapeReads(t: string, i: nat, c: char, decoded: string)
    requires i + |EscapeChar(c)| <= |t| && t[i..i + |EscapeChar(c)|] == EscapeChar(c)
    ensures DecodeBody(t, i, decoded) == DecodeBody(t, i + |EscapeChar(c)|, decoded + [c])
  {
    var e := EscapeChar(c);
    assert t[i] == t[i..i + |e|][0] == e[0];
    if |e| == 2 {
      assert t[i + 1] == t[i..i + |e|][1] == e[1];
      assert SimpleEscape(e[1]) == Some(c);
      DecodeSimple(t, i, c, decoded);
    } else if |e| == 6 {
      ControlEscapeReads(t, i, c, decoded);
    }
  }

  lemma {:induction false} DecodeNothing(t: string, decoded: string)
    ensures DecodeBody(t, |t|, decoded) == Text(decoded)
  {
  }

  /** Decoding undoes quoting, character by character. */
  lemma {:induction false} DecodeUndoesQuote(t: string, i: nat, s: string, decoded: string)
    requires i <= |t| && t[i..] == QuoteBody(s)
    ensures DecodeBody(t, i, decoded) == Text(decoded + s)
    decreases |s|
  {
    hide DecodeBody, EscapeChar;
    if s == [] {
      assert decoded + s == decoded;
      assert |t[i..]| == 0;
      DecodeNothing(t, decoded);
    } else {
      var j := i + |EscapeChar(s[0])|;
      SplitAt(t, i, EscapeChar(s[0]), QuoteBody(s[1..]));
      EscapeReads(t, i, s[0], decoded);
      DecodeUndoesQuote(t, j, s[1..], decoded + [s[0]]);
      assert decoded + [s[0]] + s[1..] == decoded + s;
    }
  }

  lemma SplitAt(t: string, i: nat, x: string, y: string)
    requires i <= |t| && t[i..] == x + y
    ensures i + |x| <= |t| && t[i..i + |x|] == x && t[i + |x|..] == y
  {
    assert t[i..i + |x|] == t[i..][..|x|];
    assert t[i + |x|..] == t[i..][|x|..];
  }

  lemma {:induction false} QuoteRoundTrip(s: string)
    ensures DecodeBody(QuoteBody(s), 0, "") == Text(s)
  {
    assert QuoteBody(s)[0..] == QuoteBody(s);
    DecodeUndoesQuote(QuoteBody(s), 0, s, "");
    assert "" + s == s;
  }

  /** `t` spells the scalar value `cp` as section 7 of RFC 8259 prescribes: one escape in the
    * basic plane, a surrogate pair above it; digits in either case. */
  predicate SpellsScalar(t: string, cp: nat) {
    IsScalar(cp) &&
    if cp < 0x1_0000 then |t| == 6 && t[..2] == "\\u" && SpellsUnit(t[2..], cp)
    else
      |t| == 12 && t[..2] == "\\u" && t[6..8] == "\\u" &&
      SpellsUnit(t[2..6], 0xD800 + (cp - 0x1_0000) / 0x400) && SpellsUnit(t[8..], 0xDC00 + (cp - 0x1_0000) % 0x400)
  }

  lemma ScalarEscapeDecodes(s: string, i: nat, t: string, cp: nat, decoded: string)
    requires SpellsScalar(t, cp) && i + |t| <= |s| && s[i..i + |t|] == t
    ensures DecodeBody(s, i, decoded) == DecodeBody(s, i + |t|, decoded + CodePointToUTF8(cp))
  {
    hide DecodeBody, CodePointToUTF8, CodePoint;
    ScalarEscapeReads(s, i, t, cp);
    DecodeUnit(s, i, decoded);
  }

  lemma ScalarEscapeReads(s: string, i: nat, t: string, cp: nat)
    requires SpellsScalar(t, cp) && i + |t| <= |s| && s[i..i + |t|] == t
    ensures i + 1 < |s| && s[i] == '\\' && s[i + 1] == 'u' && CodePoint(s, i + 2) == Unit(cp, i + |t|)
  {
    hide EscapeSequence, SpellsUnit;
    assert forall k :: 0 <= k < |t| ==> s[i + k] == t[k];
    assert t[0] == t[..2][0] && t[1] == t[..2][1];
    assert s[i + 2..i + 6] == t[2..6];
    if cp < 0x1_0000 {
      assert t[2..6] == t[2..];
      EscapeSequenceReads(s, i + 2, t[2..6], cp);
    } else {
      EscapeSequenceReads(s, i + 2, t[2..6], 0xD800 + (cp - 0x1_0000) / 0x400);
      assert t[6] == t[6..8][0] && t[7] == t[6..8][1];
      assert s[i + 8..i + 12] == t[8..];
      EscapeSequenceReads(s, i + 8, t[8..], 0xDC00 + (cp - 0x1_0000) % 0x400);
      SurrogatePair(cp);
    }
  }

  lemma SurrogatePair(cp: nat)
    requires 0x1_0000 <= cp <= 0x10FFFF
    ensures var hi, lo := 0xD800 + (cp - 0x1_0000) / 0x400, 0xDC00 + (cp - 0x1_0000) % 0x400;
            0xD800 <= hi <= 0xDBFF && 0x1_0000 + hi % 0x400 * 0x400 + lo % 0x400 == cp
  {
  }

  /** Every scalar value, escaped, decodes to its RFC 3629 encoding and to nothing else. */
  lemma {:induction false} ScalarEscapeRoundTrip(t: string, cp: nat)
    requires SpellsScalar(t, cp)
    ensures DecodeBody(t, 0, "").Text?
    ensures ScalarOfUtf8(DecodeBody(t, 0, "").text) == Some(cp)
  {
    assert t[0..0 + |t|] == t;
    ScalarEscapeDecodes(t, 0, t, cp, "");
    Utf8RoundTrip(cp);
    assert "" + CodePointToUTF8(cp) == CodePointToUTF8(cp);
  }
}
