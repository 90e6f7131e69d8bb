/** What may stand between the quotes of a JSON string and what it means, independently of the decoding loop. */
module JsonEscapes {
  import opened Wrappers
  import opened JsonValue
  import opened S = JsonString

  /** The letters of the one-character escapes, and the characters they stand for in the same order. */
  const LETTERS: string := "\"\\/bfnrt"
  const MEANINGS: seq<char> := [34 as char, 92 as char, 47 as char, 8 as char, 12 as char, 10 as char, 13 as char, 9 as char]

  /** One character, one of the short escapes, four hexadecimal digits, or two groups of four. */
  datatype Piece =
    | Plain(c: char)
    | Short(k: nat)
    | Four(digits: string, n: nat)
    | Pair(digits: string, n: nat, more: string, m: nat)

  /** The groups of a pair need not be a high and a low surrogate: only the first has to be a high one. */
  predicate Proper(p: Piece) {
    match p
    case Plain(c) => c != '"' && c != '\\'
    case Short(k) => k < 8
    case Four(h, n) => SpellsUnit(h, n) && !(0xD800 <= n <= 0xDBFF)
    case Pair(h, n, g, m) => SpellsUnit(h, n) && 0xD800 <= n <= 0xDBFF && SpellsUnit(g, m)
  }

  function Spelling(p: Piece): string
    requires Proper(p)
  {
    match p
    case Plain(c) => [c]
    case Short(k) => ['\\', LETTERS[k]]
    case Four(h, _) => "\\u" + h
    case Pair(h, _, g, _) => "\\u" + h + "\\u" + g
  }

  /** The number a group or a pair of groups stands for. */
  function Number(p: Piece): nat
    requires Proper(p) && (p.Four? || p.Pair?)
  {
    if p.Four? then p.n else 0x1_0000 + (p.n - 0xD800) * 0x400 + p.m % 0x400
  }

  function Meaning(p: Piece): string
    requires Proper(p)
  {
    match p
    case Plain(c) => [c]
    case Short(k) => [MEANINGS[k]]
    case _ => CodePointToUTF8(Number(p))
  }

  predicate AllProper(ps: seq<Piece>) { forall k :: 0 <= k < |ps| ==> Proper(ps[k]) }

  function Spelled(ps: seq<Piece>): string
    requires AllProper(ps)
  {
    if ps == [] then "" else Spelling(ps[0]) + Spelled(ps[1..])
  }

  function Meant(ps: seq<Piece>): string
    requires AllProper(ps)
  {
    if ps == [] then "" else Meaning(ps[0]) + Meant(ps[1..])
  }

  /** The short escapes mean what section 7 of RFC 8259 says, and no other letter does. */
  lemma ShortEscapes(c: char)
    ensures forall k :: 0 <= k < 8 && c == LETTERS[k] ==> SimpleEscape(c) == Some(MEANINGS[k])
    ensures SimpleEscape(c).Some? ==> exists k :: 0 <= k < 8 && c == LETTERS[k]
  {
    if SimpleEscape(c).Some? {
      assert c == LETTERS[0] || c == LETTERS[1] || c == LETTERS[2] || c == LETTERS[3] || c == LETTERS[4] || c == LETTERS[5] ||
             c == LETTERS[6] || c == LETTERS[7];
    }
  }

  /** A number above the basic plane, or in it, has its shortest UTF-8 form. */
  lemma NumberIsEncoded(p: Piece)
    requires Proper(p) && (p.Four? || p.Pair?)
    ensures Number(p) <= 0x10FFFF && NumberOfUtf8(Meaning(p)) == Some(Number(p))
  {
    hide CodePointToUTF8;
    assert Number(p) <= 0x10FFFF;
    Utf8OfAny(Number(p));
  }

  // ------------------------------------------------------------------ what is spelled is decoded

  lemma GroupReads(s: string, i: nat, h: string, n: nat)
    requires i + 6 <= |s| && s[i..i + 6] == "\\u" + h && SpellsUnit(h, n)
    ensures s[i] == '\\' && s[i + 1] == 'u' && EscapeSequence(s, i + 2) == Unit(n, i + 6)
  {
    hide EscapeSequence, SpellsUnit;
    assert s[i] == s[i..i + 6][0] && s[i + 1] == s[i..i + 6][1];
    assert s[i + 2..i + 6] == s[i..i + 6][2..] == h;
    EscapeSequenceReads(s, i + 2, h, n);
  }

  lemma FourLong(h: string, n: nat)
    requires SpellsUnit(h, n)
    ensures |h| == 4
  {
  }

  lemma PieceReads(s: string, i: nat, p: Piece, decoded: string)
    requires Proper(p) && i + |Spelling(p)| <= |s| && s[i..i + |Spelling(p)|] == Spelling(p)
    ensures DecodeBody(s, i, decoded) == DecodeBody(s, i + |Spelling(p)|, decoded + Meaning(p))
  {
    hide DecodeBody, EscapeSequence, SpellsUnit, CodePointToUTF8, SimpleEscape;
    var t := Spelling(p);
    assert s[i] == s[i..i + |t|][0] == t[0];
    match p
    case Plain(c) => PlainDecodes(s, i, decoded);
    case Short(k) =>
      assert s[i + 1] == s[i..i + |t|][1] == t[1];
      ShortEscapes(LETTERS[k]);
      DecodeSimple(s, i, MEANINGS[k], decoded);
    case Four(h, n) =>
      FourLong(h, n);
      GroupReads(s, i, h, n);
      DecodeUnit(s, i, decoded);
    case Pair(h, n, g, m) =>
      FourLong(h, n);
      FourLong(g, m);
      assert s[i..i + 6] == s[i..i + |t|][..6] == "\\u" + h;
      assert s[i + 6..i + 12] == s[i..i + |t|][6..12] == "\\u" + g;
      GroupReads(s, i, h, n);
      GroupReads(s, i + 6, g, m);
      assert n % 0x400 == n - 0xD800;
      DecodeUnit(s, i, decoded);
  }

  lemma PlainDecodes(s: string, i: nat, decoded: string)
    requires i < |s| && s[i] != '"' && s[i] != '\\'
    ensures DecodeBody(s, i, decoded) == DecodeBody(s, i + 1, decoded + [s[i]])
  {
  }

  predicate EndsBody(rest: string) { rest == "" || rest[0] == '"' }

  lemma {:induction false} PiecesRead(s: string, i: nat, ps: seq<Piece>, rest: string, decoded: string)
    requires AllProper(ps) && EndsBody(rest) && i <= |s| && s[i..] == Spelled(ps) + rest
    ensures DecodeBody(s, i, decoded) == Text(decoded + Meant(ps))
    decreases |ps|
  {
    hide Proper, Spelling, Meaning, DecodeBody;
    if ps == [] {
      assert s[i..] == rest;
      BodyEnds(s, i, decoded);
      assert decoded + "" == decoded;
    } else {
      var t := Spelling(ps[0]);
      assert Spelled(ps) + rest == t + (Spelled(ps[1..]) + rest);
      SplitAt(s, i, t, Spelled(ps[1..]) + rest);
      PieceReads(s, i, ps[0], decoded);
      PiecesRead(s, i + |t|, ps[1..], rest, decoded + Meaning(ps[0]));
      assert decoded + Meaning(ps[0]) + Meant(ps[1..]) == decoded + Meant(ps);
    }
  }

  lemma {:induction false} BodyEnds(s: string, i: nat, decoded: string)
    requires i <= |s| && EndsBody(s[i..])
    ensures DecodeBody(s, i, decoded) == Text(decoded)
  {
    if i < |s| { assert s[i..][0] == s[i]; }
  }

  /** Any row of pieces, up to the end or a bare quote, decodes to what its pieces mean. */
  lemma {:induction false} SpelledDecodes(ps: seq<Piece>, rest: string)
    requires AllProper(ps) && EndsBody(rest)
    ensures DecodeBody(Spelled(ps) + rest, 0, "") == Text(Meant(ps))
  {
    var s := Spelled(ps) + rest;
    assert s[0..] == s && "" + Meant(ps) == Meant(ps);
    PiecesRead(s, 0, ps, rest, "");
  }

  // ------------------------------------------------------------------ what is decoded was spelled

  lemma DigitOf(c: char)
    requires IsHex(c)
    ensures DigitIs(c, HexValue(c))
  {
  }

  /** A group that is read consists of four hexadecimal digits. */
  lemma GroupIsSpelled(s: string, i: nat) returns (h: string)
    requires i <= |s| && EscapeSequence(s, i).Unit?
    ensures i + 4 <= |s| && h == s[i..i + 4] && SpellsUnit(h, EscapeSequence(s, i).value)
    ensures EscapeSequence(s, i).next == i + 4
  {
    hide HexRun, IsHex, HexValue, DigitIs;
    h := s[i..i + 4];
    HexRunStep(s, i, 4, 0);
    var a := HexValue(s[i]);
    HexRunStep(s, i + 1, 3, a);
    var b := HexValue(s[i + 1]);
    HexRunStep(s, i + 2, 2, a * 16 + b);
    var c := HexValue(s[i + 2]);
    HexRunStep(s, i + 3, 1, (a * 16 + b) * 16 + c);
    var d := HexValue(s[i + 3]);
    var n := ((a * 16 + b) * 16 + c) * 16 + d;
    HexRunStep(s, i + 4, 0, n);
    DigitOf(s[i]);
    DigitOf(s[i + 1]);
    DigitOf(s[i + 2]);
    DigitOf(s[i + 3]);
    FourGroups(a, b, c, d);
  }

  lemma FourGroups(a: nat, b: nat, c: nat, d: nat)
    requires a < 16 && b < 16 && c < 16 && d < 16
    ensures var n := ((a * 16 + b) * 16 + c) * 16 + d;
            n < 0x1_0000 && n / 0x1000 == a && n / 0x100 % 16 == b && n / 16 % 16 == c && n % 16 == d
  {
  }

  /** One round of decoding takes one piece. */
  lemma PieceIsSpelled(s: string, i: nat, decoded: string) returns (p: Piece)
    requires i < |s| && s[i] != '"' && DecodeBody(s, i, decoded).Text?
    ensures Proper(p) && 0 < |Spelling(p)| && i + |Spelling(p)| <= |s| && s[i..i + |Spelling(p)|] == Spelling(p)
  {
    hide DecodeBody, EscapeSequence, SpellsUnit, CodePointToUTF8, SimpleEscape;
    if s[i] != '\\' {
      p := Plain(s[i]);
    } else {
      BackslashDecodes(s, i, decoded);
      if s[i + 1] != 'u' {
        ShortEscapes(s[i + 1]);
        var k :| 0 <= k < 8 && s[i + 1] == LETTERS[k];
        p := Short(k);
      } else {
        var h := GroupIsSpelled(s, i + 2);
        var n := EscapeSequence(s, i + 2).value;
        assert s[i..i + 6] == "\\u" + h;
        if 0xD800 <= n <= 0xDBFF {
          var g := GroupIsSpelled(s, i + 8);
          p := Pair(h, n, g, EscapeSequence(s, i + 8).value);
          assert s[i + 6..i + 12] == "\\u" + g;
          assert s[i..i + 12] == s[i..i + 6] + s[i + 6..i + 12];
        } else {
          p := Four(h, n);
        }
      }
    }
  }

  /** What a decoded backslash is followed by. */
  lemma {:induction false} BackslashDecodes(s: string, i: nat, decoded: string)
    requires i < |s| && s[i] == '\\' && DecodeBody(s, i, decoded).Text?
    ensures i + 1 < |s|
    ensures s[i + 1] != 'u' ==> SimpleEscape(s[i + 1]).Some?
    ensures s[i + 1] == 'u' ==>
              var r := EscapeSequence(s, i + 2);
              r.Unit? && (0xD800 <= r.value <= 0xDBFF ==>
                            i + 12 <= |s| && s[i + 6] == '\\' && s[i + 7] == 'u' && EscapeSequence(s, i + 8).Unit?)
  {
    hide HexRun, CodePointToUTF8, SimpleEscape;
    if i + 1 < |s| && s[i + 1] == 'u' { HexRunAdvances(s, i + 2, if |s| - (i + 2) < 4 then 0 else 4, 0); }
  }

  lemma {:induction false} TextIsSpelledFrom(s: string, i: nat, decoded: string) returns (ps: seq<Piece>, rest: string)
    requires i <= |s| && DecodeBody(s, i, decoded).Text?
    ensures AllProper(ps) && EndsBody(rest) && s[i..] == Spelled(ps) + rest
    decreases |s| - i
  {
    hide DecodeBody, Proper, Spelling, Meaning;
    if i == |s| || s[i] == '"' {
      ps, rest := [], s[i..];
    } else {
      var p := PieceIsSpelled(s, i, decoded);
      var t := Spelling(p);
      PieceReads(s, i, p, decoded);
      var more;
      more, rest := TextIsSpelledFrom(s, i + |t|, decoded + Meaning(p));
      ps := [p] + more;
      assert s[i..] == t + s[i + |t|..];
      assert ps[1..] == more;
    }
  }

  /** Decoding succeeds exactly on rows of pieces: whatever it accepts was spelled so. */
  lemma {:induction false} TextIsSpelled(s: string) returns (ps: seq<Piece>, rest: string)
    requires DecodeBody(s, 0, "").Text?
    ensures AllProper(ps) && EndsBody(rest) && s == Spelled(ps) + rest && DecodeBody(s, 0, "") == Text(Meant(ps))
  {
    ps, rest := TextIsSpelledFrom(s, 0, "");
    assert s[0..] == s;
    SpelledDecodes(ps, rest);
  }

  // ------------------------------------------------------------------ instances

  /** Where the decoder finds fault: the error and the offset it reports, one of each kind. */
  lemma WhereItFails()
    ensures DecodeBody("\\", 0, "") == BadText(EmptyEscape, 1)
    ensures DecodeBody("\\x", 0, "") == BadText(BadEscape, 2)
    ensures DecodeBody("\\u12", 0, "") == BadText(FourDigitsExpected, 2)
    ensures DecodeBody("\\u12g4", 0, "") == BadText(HexDigitExpected, 5)
    ensures DecodeBody("\\ud800", 0, "") == BadText(SixMoreExpected, 6)
    ensures DecodeBody("\\ud800x12345", 0, "") == BadText(SecondHalfExpected, 7)
    ensures DecodeBody("\\ud800\\n1234", 0, "") == BadText(SecondHalfExpected, 8)
  {
    HighSurrogate("\\ud800");
    HighSurrogate("\\ud800x12345");
    HighSurrogate("\\ud800\\n1234");
    hide CodePointToUTF8;
    var s := "\\u12g4";
    assert EscapeSequence(s, 2) == BadUnit(HexDigitExpected, 5);
  }

  lemma HighSurrogate(s: string)
    requires |s| >= 6 && s[..6] == "\\ud800"
    ensures s[0] == '\\' && s[1] == 'u' && EscapeSequence(s, 2) == Unit(0xD800, 6)
  {
    assert s[..6][0] == s[0] && s[..6][1] == s[1] && s[..6][2] == s[2] && s[..6][3] == s[3] && s[..6][4] == s[4] && s[..6][5] == s[5];
    assert s[2..6] == "d800";
    EscapeSequenceReads(s, 2, "d800", 0xD800);
  }

  /** A high surrogate followed by any group at all is taken for a pair. */
  lemma HalfPairIsAccepted()
    ensures DecodeBody("\\ud800\\u0041", 0, "") == Text(CodePointToUTF8(0x1_0041))
  {
    hide CodePointToUTF8, DecodeBody;
    var p := Pair("d800", 0xD800, "0041", 0x41);
    assert Spelled([p]) == Spelling(p) + "";
    assert Spelling(p) == "\\ud800\\u0041";
    assert "\\ud800\\u0041" + "" == "\\ud800\\u0041";
    assert Meant([p]) == Meaning(p) + "" == Meaning(p);
    SpelledDecodes([p], "");
  }

  // ------------------------------------------------------------------ what quoting prints

  /** Quoting prints one piece per character: a short escape where there is one, except for the slash, upper-case digits
    * for the other control characters, and everything else as it is, NUL included. */
  lemma EscapeIsPiece(c: char) returns (p: Piece)
    ensures Proper(p) && Spelling(p) == EscapeChar(c) && Meaning(p) == [c]
    ensures p.Plain? <==> c as int == 0 || (c as int >= 0x20 && c != '"' && c != '\\')
    ensures p.Short? <==> c as int in {8, 9, 10, 12, 13, 34, 92}
    ensures p.Four? ==> c as int < 0x20 && p.n == c as int && p.digits == "00" + [UPPER_DIGITS[p.n / 16], UPPER_DIGITS[p.n % 16]]
  {
    hide SpellsUnit, Hex4, CodePointToUTF8;
    var n := c as int;
    if n == 34 { p := Short(0); }
    else if n == 92 { p := Short(1); }
    else if n == 8 { p := Short(3); }
    else if n == 12 { p := Short(4); }
    else if n == 10 { p := Short(5); }
    else if n == 13 { p := Short(6); }
    else if n == 9 { p := Short(7); }
    else if 0 < n < 0x20 {
      p := ControlPiece(c);
    } else {
      p := Plain(c);
    }
  }

  lemma ControlPiece(c: char) returns (p: Piece)
    requires IsControlCharacter(c)
    ensures var n := c as int;
            p.Four? && p.n == n && p.digits == "00" + [UPPER_DIGITS[n / 16], UPPER_DIGITS[n % 16]] && SpellsUnit(p.digits, n) &&
            "\\u" + p.digits == "\\u" + Hex4(n) && CodePointToUTF8(n) == [c]
  {
    hide SpellsUnit;
    var n := c as nat;
    var h := ControlDigits(c);
    p := Four(h, n);
    assert n / 0x1000 == 0 && n / 0x100 % 16 == 0 && n / 16 % 16 == n / 16;
  }
}
