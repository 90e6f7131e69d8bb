/** Parsing undoes printing: any layout of a value's lexemes reads back as that value, up to
  * the normal form the printers and the reader settle on. What cannot be read back is named
  * exactly.
  */
module JsonRoundTrip {
  import opened Wrappers
  import opened JsonValue
  import N = JsonNumber
  import S = JsonString
  import opened P = JsonParsing
  import opened T = JsonTokens

  // ------------------------------------------------------------------ what comes back

  /** Null strings print nothing, and so does null itself when nulls are dropped. */
  predicate PrintsNothing(v: Value, drop: bool) { v == StringValue(None) || (drop && v == NullValue) }

  /** The value that comes back from printing and parsing; None when the text is refused.
    *
    * `drop` is the printer's `dropNullPlaceholders_`; `comma` tells whether a comma follows,
    * in front of which the reader may take nothing for null.
    */
  function Back(v: Value, e: Settings, drop: bool, comma: bool): Option<Value>
    requires WellFormed(v)
    decreases Size(v), 0, 0
  {
    match v
    case ArrayValue(m) =>
      var n := Rounds(ArraySize(m));
      if n == 1 && PrintsNothing(Element(m, 0), drop) then Some(ArrayValue(Empty))
      else AsArray(BackElements(m, 0, n, e, drop))
    case ObjectValue(m) => AsObject(BackMembers(m, e, drop))
    case _ => BackScalar(v, e, drop, comma)
  }

  function BackScalar(v: Value, e: Settings, drop: bool, comma: bool): Option<Value> {
    if PrintsNothing(v, drop) then
      if comma && e.features.allowDroppedNullPlaceholders then Some(NullValue) else None
    else
      match v
      case IntValue(i) => Some(N.IntegerValue(i))
      case UIntValue(u) => Some(N.IntegerValue(u))
      case RealValue(r) =>
        var text := e.printDouble(r);
        if N.NumberLexeme(text) then NumberOf(e, text) else None
      case _ => Some(v)
  }

  function BackElements(m: ObjectValues, k: nat, n: nat, e: Settings, drop: bool): Option<ObjectValues>
    requires MapWellFormed(m)
    decreases SizeOfMap(m), 1, n - k
  {
    if k >= n then Some(Empty)
    else
      FindWellFormed(m, Index(k));
      var found := Find(m, Index(k));
      var first :=
        if found.Some? then Back(found.value, e, drop, k + 1 < n) else BackScalar(NullValue, e, drop, k + 1 < n);
      Joint(Index(k), first, BackElements(m, k + 1, n, e, drop))
  }

  function BackMembers(m: ObjectValues, e: Settings, drop: bool): Option<ObjectValues>
    requires MapWellFormed(m)
    decreases SizeOfMap(m), 1, 0
  {
    if m.Empty? then Some(Empty)
    else Joint(m.key, Back(m.value, e, drop, m.rest.Entry?), BackMembers(m.rest, e, drop))
  }

  /** One refused entry has the whole text refused. */
  function Joint(key: CZString, first: Option<Value>, rest: Option<ObjectValues>): Option<ObjectValues> {
    if first.Some? && rest.Some? then Some(Entry(key, first.value, rest.value)) else None
  }

  function AsArray(m: Option<ObjectValues>): Option<Value> { if m.Some? then Some(ArrayValue(m.value)) else None }

  function AsObject(m: Option<ObjectValues>): Option<Value> { if m.Some? then Some(ObjectValue(m.value)) else None }

  /** The printer's style, whose doubles are those the reader's settings know about. */
  function StyleOf(e: Settings, drop: bool): Style { Style(if drop then "" else "null", e.printDouble) }

  function Lexemes(v: Value, e: Settings, drop: bool): seq<string>
    requires WellFormed(v)
  {
    Tokens(v, StyleOf(e, drop))
  }

  // ------------------------------------------------------------------ single lexemes

  /** What may follow a value: the end of the document or one of the closing lexemes. */
  predicate Closing(rest: seq<string>) { rest == [] || rest[0] in {",", "]", "}"} }

  lemma {:induction false} Take(doc: string, i: nat, t: string, rest: seq<string>)
    requires i <= |doc| && RendersAt(doc, i, [t] + rest)
    ensures var j := SkipSpaces(doc, i);
            j + |t| <= |doc| && doc[j..j + |t|] == t && RendersAt(doc, j + |t|, rest)
  {
    assert ([t] + rest)[0] == t && ([t] + rest)[1..] == rest;
  }

  /** The kind of a punctuation mark. */
  function MarkKind(mark: char): TokenType {
    match mark
    case '{' => ObjectBegin
    case '}' => ObjectEnd
    case '[' => ArrayBegin
    case ']' => ArrayEnd
    case ',' => ArraySeparator
    case _ => MemberSeparator
  }

  lemma {:induction false} ReadMark(doc: string, i: nat, mark: char, rest: seq<string>)
    requires mark in ['{', '}', '[', ']', ',', ':']
    requires i <= |doc| && RendersAt(doc, i, [[mark]] + rest)
    ensures var j := SkipSpaces(doc, i);
            j < |doc| && doc[j] == mark && P.ReadToken(doc, i) == Token(MarkKind(mark), j, j + 1) &&
            NextToken(doc, i) == P.ReadToken(doc, i) && RendersAt(doc, j + 1, rest)
  {
    Take(doc, i, [mark], rest);
    var j := SkipSpaces(doc, i);
    assert doc[j] == doc[j..j + 1][0];
  }

  lemma {:induction false} ReadWord(doc: string, i: nat, word: string, rest: seq<string>)
    requires word in ["null", "true", "false"]
    requires i <= |doc| && RendersAt(doc, i, [word] + rest)
    ensures var t := P.ReadToken(doc, i);
            t.kind == (if word == "null" then NullToken else if word == "true" then TrueToken else FalseToken) &&
            RendersAt(doc, t.end, rest)
  {
    hide T.RendersAt, P.TokenAt, P.SkipSpaces;
    Take(doc, i, word, rest);
    WordToken(doc, SkipSpaces(doc, i), word);
  }

  lemma WordToken(doc: string, j: nat, word: string)
    requires word in ["null", "true", "false"] && j + |word| <= |doc| && doc[j..j + |word|] == word
    ensures TokenAt(doc, j) ==
            Token(if word == "null" then NullToken else if word == "true" then TrueToken else FalseToken, j, j + |word|)
  {
    assert doc[j] == doc[j..j + |word|][0];
    assert doc[j + 1..j + |word|] == doc[j..j + |word|][1..] == word[1..];
  }

  lemma {:induction false} NumberRun(doc: string, i: nat, j: nat)
    requires i <= j <= |doc|
    requires forall k :: i <= k < j ==> N.IsNumberChar(doc[k])
    requires j < |doc| ==> !N.IsNumberChar(doc[j])
    ensures NumberEnd(doc, i) == j
    decreases j - i
  {
    if i < j { NumberRun(doc, i + 1, j); }
  }

  lemma {:induction false} ClosingStopsNumbers(doc: string, i: nat, rest: seq<string>)
    requires i <= |doc| && RendersAt(doc, i, rest) && Closing(rest)
    ensures i < |doc| ==> !N.IsNumberChar(doc[i])
  {
  }

  lemma NumberTokenAt(doc: string, j: nat, t: string)
    requires N.NumberLexeme(t) && j + |t| <= |doc| && doc[j..j + |t|] == t
    requires j + |t| < |doc| ==> !N.IsNumberChar(doc[j + |t|])
    ensures TokenAt(doc, j) == Token(NumberToken, j, j + |t|)
  {
    assert doc[j] == doc[j..j + |t|][0] == t[0];
    forall k | j + 1 <= k < j + |t|
      ensures N.IsNumberChar(doc[k])
    {
      assert doc[k] == doc[j..j + |t|][k - j] == t[k - j];
    }
    NumberRun(doc, j + 1, j + |t|);
  }

  lemma {:induction false} ReadNumberLexeme(doc: string, i: nat, t: string, rest: seq<string>)
    requires N.NumberLexeme(t)
    requires i <= |doc| && RendersAt(doc, i, [t] + rest) && Closing(rest)
    ensures var j := SkipSpaces(doc, i);
            P.ReadToken(doc, i) == Token(NumberToken, j, j + |t|) && j + |t| <= |doc| && doc[j..j + |t|] == t &&
            RendersAt(doc, j + |t|, rest)
  {
    hide T.RendersAt;
    Take(doc, i, t, rest);
    ClosingStopsNumbers(doc, SkipSpaces(doc, i) + |t|, rest);
    NumberTokenAt(doc, SkipSpaces(doc, i), t);
  }

  lemma SliceSplit(doc: string, i: nat, x: string, y: string)
    requires i + |x + y| <= |doc| && doc[i..i + |x + y|] == x + y
    ensures doc[i..i + |x|] == x && doc[i + |x|..i + |x| + |y|] == y
  {
    assert doc[i..i + |x|] == doc[i..i + |x + y|][..|x|];
    assert doc[i + |x|..i + |x| + |y|] == doc[i..i + |x + y|][|x|..];
  }

  /** Text that may stand between quotes: no quote but behind a backslash, and no backslash at the end. */
  predicate Passed(body: string) {
    body == "" ||
    if body[0] == '\\' then |body| >= 2 && Passed(body[2..]) else body[0] != '"' && Passed(body[1..])
  }

  /** `readString` stops exactly at the closing quote. */
  lemma {:induction false} StringStops(doc: string, i: nat, body: string)
    requires Passed(body) && i + |body| < |doc| && doc[i..i + |body|] == body && doc[i + |body|] == '"'
    ensures StringEnd(doc, i) == Scan(true, i + |body| + 1)
    decreases |body|
  {
    hide P.StringEnd;
    if body == "" {
      QuoteStops(doc, i);
    } else {
      var n := if body[0] == '\\' then 2 else 1;
      assert doc[i] == doc[i..i + |body|][0] == body[0];
      assert doc[i + n..i + |body|] == doc[i..i + |body|][n..];
      if n == 2 { BackslashPassed(doc, i); } else { PlainPassed(doc, i); }
      StringStops(doc, i + n, body[n..]);
    }
  }

  lemma {:induction false} QuoteStops(doc: string, i: nat)
    requires i < |doc| && doc[i] == '"'
    ensures StringEnd(doc, i) == Scan(true, i + 1)
  {
  }

  lemma BackslashPassed(doc: string, i: nat)
    requires i + 1 < |doc| && doc[i] == '\\'
    ensures StringEnd(doc, i) == StringEnd(doc, i + 2)
  {
  }

  lemma PlainPassed(doc: string, i: nat)
    requires i < |doc| && doc[i] != '\\' && doc[i] != '"'
    ensures StringEnd(doc, i) == StringEnd(doc, i + 1)
  {
  }

  /** However many escapes quoting puts in, the quoted text passes. */
  lemma {:induction false} QuotePasses(s: string)
    ensures Passed(S.QuoteBody(s))
  {
    hide S.EscapeChar;
    if s != "" {
      QuotePasses(s[1..]);
      EscapePasses(s[0], S.QuoteBody(s[1..]));
    }
  }

  lemma {:induction false} EscapePasses(c: char, rest: string)
    requires Passed(rest)
    ensures Passed(S.EscapeChar(c) + rest)
  {
    hide S.Hex4;
    if S.IsControlCharacter(c) && |S.EscapeChar(c)| != 2 {
      var h := S.ControlDigits(c);
      DigitsPass(h, c as nat, rest);
      assert S.EscapeChar(c) + rest == "\\u" + (h + rest);
      assert ("\\u" + (h + rest))[2..] == h + rest;
    } else {
      assert (S.EscapeChar(c) + rest)[|S.EscapeChar(c)|..] == rest;
    }
  }

  lemma {:induction false} DigitsPass(h: string, n: nat, rest: string)
    requires S.SpellsUnit(h, n) && Passed(rest)
    ensures Passed(h + rest)
  {
    var t := h + rest;
    assert t[4..] == rest && t[3..][1..] == t[4..] && t[2..][1..] == t[3..] && t[1..][1..] == t[2..];
    assert Passed(t[3..]);
    assert Passed(t[2..]);
    assert Passed(t[1..]);
  }

  lemma {:induction false} ReadStringLexeme(doc: string, i: nat, s: CString, rest: seq<string>)
    requires i <= |doc| && RendersAt(doc, i, [S.Quoted(s)] + rest)
    ensures var t := P.ReadToken(doc, i);
            t.kind == StringToken && S.DecodeBody(Contents(doc, t), 0, "") == S.Text(s) &&
            Truncate(s) == s && RendersAt(doc, t.end, rest)
  {
    hide T.RendersAt, P.TokenAt, S.DecodeBody, S.QuoteBody, P.SkipSpaces;
    Take(doc, i, S.Quoted(s), rest);
    QuotedToken(doc, SkipSpaces(doc, i), s);
    S.QuoteRoundTrip(s);
    TruncateClean(s);
  }

  lemma {:induction false} QuotedToken(doc: string, j: nat, s: string)
    requires j + |S.Quoted(s)| <= |doc| && doc[j..j + |S.Quoted(s)|] == S.Quoted(s)
    ensures var t := TokenAt(doc, j);
            t == Token(StringToken, j, j + |S.Quoted(s)|) && Contents(doc, t) == S.QuoteBody(s)
  {
    QuotePasses(s);
    StringTokenAt(doc, j, S.QuoteBody(s));
  }

  lemma {:induction false} StringTokenAt(doc: string, j: nat, body: string)
    requires Passed(body) && j + |body| + 2 <= |doc| && doc[j..j + |body| + 2] == "\"" + body + "\""
    ensures var t := TokenAt(doc, j);
            t == Token(StringToken, j, j + |body| + 2) && Contents(doc, t) == body
  {
    hide Passed;
    QuotedParts(doc, j, body);
    StringStops(doc, j + 1, body);
    assert TokenAt(doc, j) == Scanned(StringToken, j, StringEnd(doc, j + 1)) by {
      hide P.StringEnd;
    }
  }

  lemma QuotedParts(doc: string, j: nat, body: string)
    requires j + |body| + 2 <= |doc| && doc[j..j + |body| + 2] == "\"" + body + "\""
    ensures doc[j] == '"' && doc[j + 1..j + 1 + |body|] == body && doc[j + 1 + |body|] == '"'
  {
    var q := doc[j..j + |body| + 2];
    assert doc[j] == q[0] && doc[j + 1 + |body|] == q[1 + |body|];
    assert "\"" + body + "\"" == "\"" + (body + "\"");
    SliceSplit(doc, j, "\"", body + "\"");
    SliceSplit(doc, j + 1, body, "\"");
  }

  lemma {:induction false} TruncateClean(s: string)
    requires '\0' !in s
    ensures Truncate(s) == s
  {
    if s != [] {
      assert s[0] in s;
      TruncateClean(s[1..]);
      assert s == [s[0]] + s[1..];
    }
  }

  // ------------------------------------------------------------------ building maps

  predicate AllBelow(m: ObjectValues, key: CZString) {
    m.Entry? ==> KeyLess(m.key, key) && AllBelow(m.rest, key)
  }

  function Append(x: ObjectValues, y: ObjectValues): ObjectValues {
    if x.Empty? then y else Entry(x.key, x.value, Append(x.rest, y))
  }

  /** An entry with a key above all others goes to the end. */
  lemma {:induction false} PutAppends(m: ObjectValues, key: CZString, v: Value, rest: ObjectValues)
    requires AllBelow(m, key)
    ensures Slot(m, key) == NullValue
    ensures Append(Put(m, key, v), rest) == Append(m, Entry(key, v, rest))
  {
    if m.Entry? {
      KeyTotal(m.key, key);
      PutAppends(m.rest, key, v, rest);
    }
  }

  lemma {:induction false} StaysBelow(m: ObjectValues, key: CZString, v: Value, above: CZString)
    requires AllBelow(m, key) && KeyLess(key, above)
    ensures AllBelow(Put(m, key, v), above)
  {
    if m.Entry? {
      KeyTotal(m.key, key);
      KeyTransitive(m.key, key, above);
      StaysBelow(m.rest, key, v, above);
    }
  }

  lemma {:induction false} AppendEmpty(m: ObjectValues)
    ensures Append(m, Empty) == m
  {
    if m.Entry? { AppendEmpty(m.rest); }
  }

  // ------------------------------------------------------------------ reading back

  /** The read succeeds with the given value and stops before the rest of the lexemes. */
  predicate ReadsTo(doc: string, r: Outcome, v: Value, rest: seq<string>) {
    r.ok && r.errors == [] && r.value == v && r.pos <= |doc| && RendersAt(doc, r.pos, rest)
  }

  /** The read yields what is to come back, or fails when nothing is. */
  predicate Answers(doc: string, r: Outcome, back: Option<Value>, rest: seq<string>) {
    if back.Some? then ReadsTo(doc, r, back.value, rest) else !r.ok
  }

  /** How `readValue` goes on after a token that is no comment. */
  lemma {:induction false} ValueOfToken(doc: string, e: Settings, i: nat, cur: Value)
    requires i <= |doc|
    ensures var t, r := P.ReadToken(doc, i), P.ReadValue(doc, e, i, cur);
      (t.kind == ObjectBegin ==> r == ReadMembers(doc, e, t.end, Empty, "")) &&
      (t.kind == ArrayBegin ==> r == P.ReadArray(doc, e, t.end)) &&
      (t.kind == StringToken && S.DecodeBody(Contents(doc, t), 0, "").Text? ==>
         r == Outcome(true, t.end, StringValue(Some(Truncate(S.DecodeBody(Contents(doc, t), 0, "").text))), [])) &&
      (t.kind == TrueToken ==> r == Outcome(true, t.end, BooleanValue(true), [])) &&
      (t.kind == FalseToken ==> r == Outcome(true, t.end, BooleanValue(false), [])) &&
      (t.kind == NullToken ==> r == Outcome(true, t.end, NullValue, [])) &&
      (t.kind in {ArrayEnd, ObjectEnd, EndOfStream} ==> !r.ok) &&
      (t.kind == ArraySeparator ==>
         if e.features.allowDroppedNullPlaceholders then r == Outcome(true, t.end - 1, NullValue, []) else !r.ok)
  {
    var t := P.ReadToken(doc, i);
    if t.kind != CommentToken {
      assert SkipCommentTokens(doc, i, e.features.allowComments) == t;
    }
  }

  lemma {:induction false} NumberOfToken(doc: string, e: Settings, i: nat, cur: Value)
    requires i <= |doc| && P.ReadToken(doc, i).kind == NumberToken
    ensures var t, r := P.ReadToken(doc, i), P.ReadValue(doc, e, i, cur);
            match NumberOf(e, doc[t.start..t.end])
            case Some(v) => r == Outcome(true, t.end, v, [])
            case None => !r.ok
  {
    hide P.TokenAt, P.SkipSpaces;
    assert SkipCommentTokens(doc, i, e.features.allowComments) == P.ReadToken(doc, i);
  }

  predicate CommaFirst(rest: seq<string>) { rest != [] && rest[0] == "," }

  /** A layout of a value's lexemes is read as that value, whatever follows it, and refused when the value cannot come
    * back. */
  lemma {:induction false} ReadsBack(doc: string, e: Settings, drop: bool, i: nat, cur: Value, v: Value, rest: seq<string>)
    requires WellFormed(v) && PrintsNumbers(e.printDouble) && Closing(rest)
    requires i <= |doc| && RendersAt(doc, i, Lexemes(v, e, drop) + rest)
    ensures Answers(doc, P.ReadValue(doc, e, i, cur), Back(v, e, drop, CommaFirst(rest)), rest)
    decreases Size(v), 0, 0
  {
    match v
    case ArrayValue(m) => ReadsBackArray(doc, e, drop, i, cur, m, rest);
    case ObjectValue(m) => ReadsBackObject(doc, e, drop, i, cur, m, rest);
    case _ => ReadsBackScalar(doc, e, drop, i, cur, v, rest);
  }

  lemma {:induction false} ReadsBackScalar(doc: string, e: Settings, drop: bool, i: nat, cur: Value, v: Value, rest: seq<string>)
    requires !v.ArrayValue? && !v.ObjectValue? && PrintsNumbers(e.printDouble) && Closing(rest)
    requires i <= |doc| && RendersAt(doc, i, Lexemes(v, e, drop) + rest)
    ensures Answers(doc, P.ReadValue(doc, e, i, cur), BackScalar(v, e, drop, CommaFirst(rest)), rest)
  {
    hide T.RendersAt, P.ReadToken, P.ReadValue, P.SkipSpaces, S.DecodeBody, S.Quoted, Closing, CommaFirst, NumberOf, N.NumberLexeme;
    ValueOfToken(doc, e, i, cur);
    if PrintsNothing(v, drop) {
      ReadsNothing(doc, e, i, cur, rest);
    } else {
      match v
      case NullValue => ReadWord(doc, i, "null", rest);
      case BooleanValue(b) => ReadWord(doc, i, if b then "true" else "false", rest);
      case StringValue(s) => ReadStringLexeme(doc, i, s.value, rest);
      case _ => ReadsBackNumber(doc, e, drop, i, cur, v, rest);
    }
  }

  /** Where nothing was printed the reader sees what follows. */
  lemma {:induction false} ReadsNothing(doc: string, e: Settings, i: nat, cur: Value, rest: seq<string>)
    requires Closing(rest) && i <= |doc| && RendersAt(doc, i, [""] + rest)
    ensures var back := if CommaFirst(rest) && e.features.allowDroppedNullPlaceholders then Some(NullValue) else None;
            Answers(doc, P.ReadValue(doc, e, i, cur), back, rest)
  {
    hide T.RendersAt, P.ReadToken, P.ReadValue, P.SkipSpaces, P.NextToken, P.TokenAt;
    Take(doc, i, "", rest);
    RendersAfterSkip(doc, i, rest);
    ValueOfToken(doc, e, i, cur);
    if rest == [] {
      RendersNothing(doc, i);
      EndToken(doc, i);
    } else {
      ClosingMark(doc, i, rest);
    }
  }

  lemma {:induction false} ClosingMark(doc: string, i: nat, rest: seq<string>)
    requires rest != [] && Closing(rest) && i <= |doc| && RendersAt(doc, i, rest)
    ensures var t := P.ReadToken(doc, i);
            t.start == SkipSpaces(doc, i) && t.end == t.start + 1 &&
            if CommaFirst(rest) then t.kind == ArraySeparator else t.kind in {ArrayEnd, ObjectEnd}
  {
    hide T.RendersAt, P.SkipSpaces, P.TokenAt, P.ReadToken, P.NextToken;
    var mark :| rest[0] == [mark] && mark in [',', ']', '}'];
    assert rest == [[mark]] + rest[1..];
    ReadMark(doc, i, mark, rest[1..]);
  }

  lemma {:induction false} EndToken(doc: string, i: nat)
    requires i <= |doc| && SkipSpaces(doc, i) == |doc|
    ensures P.ReadToken(doc, i) == Token(EndOfStream, |doc|, |doc|)
  {
  }

  lemma {:induction false} ReadsBackNumber(doc: string, e: Settings, drop: bool, i: nat, cur: Value, v: Value, rest: seq<string>)
    requires v.IntValue? || v.UIntValue? || v.RealValue?
    requires PrintsNumbers(e.printDouble) && Closing(rest)
    requires i <= |doc| && RendersAt(doc, i, Lexemes(v, e, drop) + rest)
    ensures Answers(doc, P.ReadValue(doc, e, i, cur), BackScalar(v, e, drop, CommaFirst(rest)), rest)
  {
    hide T.RendersAt, P.ReadToken, P.ReadValue, P.SkipSpaces, Closing, CommaFirst, N.NumberLexeme, N.Decode, N.IntText;
    var text := NumberText(v, e, drop);
    ReadNumberLexeme(doc, i, text, rest);
    NumberOfToken(doc, e, i, cur);
  }

  /** A number prints as one number token, and that token gives what comes back. */
  lemma NumberText(v: Value, e: Settings, drop: bool) returns (text: string)
    requires v.IntValue? || v.UIntValue? || v.RealValue?
    requires PrintsNumbers(e.printDouble)
    ensures Lexemes(v, e, drop) == [text] && N.NumberLexeme(text) && text != []
    ensures forall comma :: BackScalar(v, e, drop, comma) == NumberOf(e, text)
  {
    hide N.Decode, N.Decimal;
    text := Lexemes(v, e, drop)[0];
    match v
    case IntValue(n) => N.PrintThenDecode(n);
    case UIntValue(n) => N.PrintThenDecode(n);
    case RealValue(r) =>
  }

  lemma Regroup(open: string, inner: seq<string>, close: string, rest: seq<string>)
    ensures [open] + inner + [close] + rest == [open] + (inner + ([close] + rest))
    ensures inner == [] ==> inner + ([close] + rest) == [close] + rest
  {
  }

  lemma {:induction false} ReadsBackArray(
      doc: string, e: Settings, drop: bool, i: nat, cur: Value, m: ObjectValues, rest: seq<string>)
    requires Indexed(m) && MapWellFormed(m) && PrintsNumbers(e.printDouble) && Closing(rest)
    requires i <= |doc| && RendersAt(doc, i, Lexemes(ArrayValue(m), e, drop) + rest)
    ensures Answers(doc, P.ReadValue(doc, e, i, cur), Back(ArrayValue(m), e, drop, CommaFirst(rest)), rest)
    decreases SizeOfMap(m), 2, 0
  {
    hide T.RendersAt, P.ReadToken, P.SkipSpaces, P.ReadElements, P.ReadValue, P.ReadArray, T.MapWellFormed, T.Tokens,
         T.ElementTokens, BackElements, Closing, CommaFirst, Lexemes, Back, AllBelow, Append, Extend, Rounds, T.Extent,
         T.ArraySize, Slot, PrintsNumbers;
    ArrayLexemes(m, e, drop);
    ArrayBack(m, e, drop);
    var n := Rounds(ArraySize(m));
    var inner := ElementTokens(m, 0, n, StyleOf(e, drop));
    Regroup("[", inner, "]", rest);
    var j := BracketOpens(doc, e, i, cur, inner + (["]"] + rest));
    if n == 0 {
      ReadMark(doc, j, ']', rest);
    } else if n == 1 && PrintsNothing(Element(m, 0), drop) {
      NothingInside(doc, j, m, e, drop, rest);
      ReadMark(doc, j, ']', rest);
    } else {
      FirstLexemeOfElement(doc, j, m, n, e, drop, rest);
      ReadsBackElements(doc, e, drop, j, m, 0, n, Empty, rest);
      ExtendNothing(BackElements(m, 0, n, e, drop));
    }
  }

  /** The reader passes an opening bracket and the blanks behind it. */
  lemma BracketOpens(doc: string, e: Settings, i: nat, cur: Value, ts: seq<string>) returns (j: nat)
    requires i <= |doc| && RendersAt(doc, i, ["["] + ts)
    ensures j <= |doc| && SkipSpaces(doc, j) == j && RendersAt(doc, j, ts)
    ensures P.ReadValue(doc, e, i, cur) ==
            if At(doc, j) == ']' then Outcome(true, P.ReadToken(doc, j).end, ArrayValue(Empty), [])
            else ReadElements(doc, e, j, Empty, 0)
  {
    hide T.RendersAt, P.ReadToken, P.SkipSpaces, P.ReadElements, P.ReadValue, P.ReadArray;
    ReadMark(doc, i, '[', ts);
    ValueOfToken(doc, e, i, cur);
    var p := P.ReadToken(doc, i).end;
    j := SkipSpaces(doc, p);
    RendersAfterSkip(doc, p, ts);
    SkipIsStable(doc, p);
    ArrayEntered(doc, e, p);
  }

  lemma {:induction false} ArrayLexemes(m: ObjectValues, e: Settings, drop: bool)
    requires Indexed(m) && MapWellFormed(m)
    ensures var n, style := Rounds(ArraySize(m)), StyleOf(e, drop);
            Lexemes(ArrayValue(m), e, drop) == ["["] + ElementTokens(m, 0, n, style) + ["]"] && AllBelow(Empty, Index(0)) &&
            (n == 0 ==> ElementTokens(m, 0, n, style) == [] && BackElements(m, 0, n, e, drop) == Some(Empty))
  {
    hide Rounds, T.ArraySize;
  }

  lemma {:induction false} ArrayBack(m: ObjectValues, e: Settings, drop: bool)
    requires Indexed(m) && MapWellFormed(m)
    ensures var n := Rounds(ArraySize(m));
            forall comma :: Back(ArrayValue(m), e, drop, comma) ==
              if n == 1 && PrintsNothing(Element(m, 0), drop) then Some(ArrayValue(Empty))
              else AsArray(BackElements(m, 0, n, e, drop))
  {
    hide Rounds, T.ArraySize, BackElements;
  }

  lemma {:induction false} ArrayEntered(doc: string, e: Settings, p: nat)
    requires p <= |doc|
    ensures var j := SkipSpaces(doc, p);
            P.ReadArray(doc, e, p) ==
            if At(doc, j) == ']' then Outcome(true, P.ReadToken(doc, j).end, ArrayValue(Empty), [])
            else ReadElements(doc, e, j, Empty, 0)
  {
    hide P.ReadToken, P.ReadElements, P.SkipSpaces;
  }

  lemma {:induction false} FirstCharacter(doc: string, j: nat, ts: seq<string>)
    requires j <= |doc| && SkipSpaces(doc, j) == j && ts != [] && ts[0] != "" && RendersAt(doc, j, ts)
    ensures j < |doc| && doc[j] == ts[0][0]
  {
    assert doc[j] == doc[j..j + |ts[0]|][0];
  }

  lemma {:induction false} FirstLexeme(v: Value, e: Settings, drop: bool)
    requires WellFormed(v) && PrintsNumbers(e.printDouble)
    ensures var ts := Lexemes(v, e, drop);
            ts != [] && if PrintsNothing(v, drop) then ts == [""] else ts[0] != "" && ts[0][0] != ']'
  {
    if v.RealValue? { assert N.NumberLexeme(e.printDouble(v.real_)); }
  }

  /** An array with something inside does not look like an empty one. */
  lemma {:induction false} FirstLexemeOfElement(
      doc: string, j: nat, m: ObjectValues, n: nat, e: Settings, drop: bool, rest: seq<string>)
    requires 0 < n && MapWellFormed(m) && PrintsNumbers(e.printDouble) && !(n == 1 && PrintsNothing(Element(m, 0), drop))
    requires j <= |doc| && SkipSpaces(doc, j) == j
    requires RendersAt(doc, j, ElementTokens(m, 0, n, StyleOf(e, drop)) + (["]"] + rest))
    ensures At(doc, j) != ']'
  {
    hide T.RendersAt, P.SkipSpaces, T.Tokens, T.ElementTokens, T.MapWellFormed, Slot, Closing, Lexemes;
    var after := ElementSplit(m, 0, n, e, drop, rest);
    var ts := Lexemes(Element(m, 0), e, drop);
    FirstLexeme(Element(m, 0), e, drop);
    if PrintsNothing(Element(m, 0), drop) {
      Take(doc, j, "", after);
      FirstCharacter(doc, j, after);
    } else {
      FirstCharacter(doc, j, ts + after);
    }
  }

  /** An array whose one element prints nothing looks like an empty one. */
  lemma {:induction false} NothingInside(doc: string, j: nat, m: ObjectValues, e: Settings, drop: bool, rest: seq<string>)
    requires MapWellFormed(m) && PrintsNumbers(e.printDouble) && PrintsNothing(Element(m, 0), drop)
    requires j <= |doc| && SkipSpaces(doc, j) == j
    requires RendersAt(doc, j, ElementTokens(m, 0, 1, StyleOf(e, drop)) + (["]"] + rest))
    ensures RendersAt(doc, j, ["]"] + rest)
  {
    hide T.RendersAt, P.SkipSpaces, T.Tokens, T.ElementTokens, T.MapWellFormed, Slot, Closing, Lexemes;
    var after := ElementSplit(m, 0, 1, e, drop, rest);
    FirstLexeme(Element(m, 0), e, drop);
    Take(doc, j, "", after);
  }

  /** One round of the element loop. */
  lemma ElementRound(doc: string, e: Settings, i: nat, elements: ObjectValues, k: nat)
    requires i <= |doc|
    ensures var r := P.ReadValue(doc, e, i, Slot(elements, Index(k)));
            var t := NextToken(doc, r.pos);
            var extended := Put(elements, Index(k), r.value);
            if !r.ok then !ReadElements(doc, e, i, elements, k).ok
            else
              (t.kind == ArrayEnd ==> ReadElements(doc, e, i, elements, k) == Outcome(true, t.end, ArrayValue(extended), [])) &&
              (t.kind == ArraySeparator ==>
                 ReadElements(doc, e, i, elements, k) == ReadElements(doc, e, t.end, extended, k + 1))
  {
    hide P.ReadValue, P.NextToken, Put, Slot, Recover;
  }

  lemma ClosingAfter(more: seq<string>, close: string, rest: seq<string>)
    requires close in {"]", "}"} && (more == [] || more[0] == ",")
    ensures Closing(more + ([close] + rest))
  {
  }

  /** The lexemes from element `k` on, regrouped: those of the element and those after it. */
  lemma ElementSplit(m: ObjectValues, k: nat, n: nat, e: Settings, drop: bool, rest: seq<string>) returns (after: seq<string>)
    requires k < n && MapWellFormed(m)
    ensures ElementTokens(m, k, n, StyleOf(e, drop)) + (["]"] + rest) == Lexemes(Element(m, k), e, drop) + after
    ensures Closing(after) && (CommaFirst(after) <==> k + 1 < n)
    ensures after == if k + 1 < n then [","] + (ElementTokens(m, k + 1, n, StyleOf(e, drop)) + (["]"] + rest)) else ["]"] + rest
  {
    hide T.ElementTokens, T.Tokens, Closing, T.MapWellFormed, Slot;
    FirstElement(m, k, n, StyleOf(e, drop));
    var ts := Lexemes(Element(m, k), e, drop);
    var more := if k + 1 < n then [","] + ElementTokens(m, k + 1, n, StyleOf(e, drop)) else [];
    ClosingAfter(more, "]", rest);
    after := more + (["]"] + rest);
    assert ts + more + (["]"] + rest) == ts + after;
  }

  /** What comes back of the entries from one on, put behind the entries read before it. */
  function Extend(m: ObjectValues, back: Option<ObjectValues>): Option<ObjectValues> {
    if back.Some? then Some(Append(m, back.value)) else None
  }

  lemma {:induction false} ExtendStep(m: ObjectValues, key: CZString, first: Option<Value>, rest: Option<ObjectValues>)
    requires AllBelow(m, key)
    ensures first.None? ==> Extend(m, Joint(key, first, rest)) == None
    ensures first.Some? ==> Extend(m, Joint(key, first, rest)) == Extend(Put(m, key, first.value), rest)
    ensures first.Some? && rest == Some(Empty) ==> Extend(m, Joint(key, first, rest)) == Some(Put(m, key, first.value))
    ensures Slot(m, key) == NullValue
  {
    if first.Some? {
      PutAppends(m, key, first.value, if rest.Some? then rest.value else Empty);
      AppendEmpty(Put(m, key, first.value));
    } else {
      PutAppends(m, key, NullValue, Empty);
    }
  }

  lemma {:induction false} BackStep(m: ObjectValues, k: nat, n: nat, e: Settings, drop: bool) returns (first: Option<Value>)
    requires k < n && MapWellFormed(m)
    ensures first == if Find(m, Index(k)).Some? then Back(Element(m, k), e, drop, k + 1 < n)
                     else BackScalar(Element(m, k), e, drop, k + 1 < n)
    ensures Find(m, Index(k)).None? ==> Element(m, k) == NullValue
    ensures Find(m, Index(k)).Some? ==> Size(Element(m, k)) <= SizeOfMap(m)
    ensures BackElements(m, k, n, e, drop) == Joint(Index(k), first, BackElements(m, k + 1, n, e, drop))
    ensures k + 1 == n ==> BackElements(m, k + 1, n, e, drop) == Some(Empty)
  {
    hide Back, BackScalar, T.MapWellFormed, Joint;
    FindWellFormed(m, Index(k));
    var found := Find(m, Index(k));
    first := if found.Some? then Back(found.value, e, drop, k + 1 < n) else BackScalar(NullValue, e, drop, k + 1 < n);
  }

  lemma {:induction false} ReadsBackElements(
      doc: string, e: Settings, drop: bool, i: nat, m: ObjectValues, k: nat, n: nat, elements: ObjectValues, rest: seq<string>)
    requires k < n && MapWellFormed(m) && PrintsNumbers(e.printDouble) && Closing(rest) && AllBelow(elements, Index(k))
    requires i <= |doc| && RendersAt(doc, i, ElementTokens(m, k, n, StyleOf(e, drop)) + (["]"] + rest))
    ensures Answers(doc, ReadElements(doc, e, i, elements, k), AsArray(Extend(elements, BackElements(m, k, n, e, drop))), rest)
    decreases SizeOfMap(m), 1, n - k
  {
    hide T.RendersAt, P.ReadToken, P.NextToken, P.SkipSpaces, P.ReadValue, P.ReadElements, T.MapWellFormed, T.Tokens,
         Back, T.ElementTokens, BackElements, BackScalar, Closing, CommaFirst, AllBelow, Append, Lexemes, P.Put, P.Slot, Joint,
         Extend, P.Find, PrintsNumbers;
    var key := Index(k);
    var first := BackStep(m, k, n, e, drop);
    var after := ElementSplit(m, k, n, e, drop, rest);
    ExtendStep(elements, key, first, BackElements(m, k + 1, n, e, drop));
    if Find(m, key).Some? {
      ReadsBack(doc, e, drop, i, Slot(elements, key), Element(m, k), after);
    } else {
      ReadsBackScalar(doc, e, drop, i, Slot(elements, key), Element(m, k), after);
    }
    ElementRound(doc, e, i, elements, k);
    if first.Some? {
      var p := P.ReadValue(doc, e, i, Slot(elements, key)).pos;
      if k + 1 < n {
        ReadMark(doc, p, ',', ElementTokens(m, k + 1, n, StyleOf(e, drop)) + (["]"] + rest));
        StaysBelow(elements, key, first.value, Index(k + 1));
        ReadsBackElements(doc, e, drop, NextToken(doc, p).end, m, k + 1, n, Put(elements, key, first.value), rest);
      } else {
        ReadMark(doc, p, ']', rest);
      }
    }
  }

  lemma {:induction false} ObjectLexemes(m: ObjectValues, e: Settings, drop: bool)
    requires Named(m) && MapWellFormed(m)
    ensures Lexemes(ObjectValue(m), e, drop) == ["{"] + MemberTokens(m, StyleOf(e, drop)) + ["}"]
    ensures m.Empty? ==> MemberTokens(m, StyleOf(e, drop)) == []
    ensures forall comma :: Back(ObjectValue(m), e, drop, comma) == AsObject(BackMembers(m, e, drop))
    ensures m.Empty? ==> BackMembers(m, e, drop) == Some(Empty)
    ensures m.Entry? ==> AllBelow(Empty, m.key)
  {
  }

  /** A closing brace right after the opening one ends an empty object. */
  lemma {:induction false} NoMembers(doc: string, e: Settings, p: nat)
    requires p <= |doc| && P.ReadToken(doc, p).kind == ObjectEnd
    ensures ReadMembers(doc, e, p, Empty, "") == Outcome(true, P.ReadToken(doc, p).end, ObjectValue(Empty), [])
  {
    hide P.TokenAt, P.SkipSpaces;
  }

  lemma {:induction false} ReadsBackObject(
      doc: string, e: Settings, drop: bool, i: nat, cur: Value, m: ObjectValues, rest: seq<string>)
    requires Named(m) && MapWellFormed(m) && PrintsNumbers(e.printDouble) && Closing(rest)
    requires i <= |doc| && RendersAt(doc, i, Lexemes(ObjectValue(m), e, drop) + rest)
    ensures Answers(doc, P.ReadValue(doc, e, i, cur), Back(ObjectValue(m), e, drop, CommaFirst(rest)), rest)
    decreases SizeOfMap(m), 2, 0
  {
    hide T.RendersAt, P.ReadToken, P.SkipSpaces, P.ReadValue, P.ReadMembers, T.MemberTokens, T.MapWellFormed,
         BackMembers, Closing, CommaFirst, Lexemes, Back, AllBelow, Append, PrintsNumbers, Extend;
    ObjectLexemes(m, e, drop);
    var inner := MemberTokens(m, StyleOf(e, drop));
    Regroup("{", inner, "}", rest);
    var p := BraceOpens(doc, e, i, cur, inner + (["}"] + rest));
    if m.Empty? {
      ReadMark(doc, p, '}', rest);
      NoMembers(doc, e, p);
    } else {
      ReadsBackMembers(doc, e, drop, p, m, Empty, "", rest);
      ExtendNothing(BackMembers(m, e, drop));
    }
  }

  lemma ExtendNothing(back: Option<ObjectValues>)
    ensures Extend(Empty, back) == back
  {
  }

  lemma BraceOpens(doc: string, e: Settings, i: nat, cur: Value, ts: seq<string>) returns (p: nat)
    requires i <= |doc| && RendersAt(doc, i, ["{"] + ts)
    ensures p <= |doc| && RendersAt(doc, p, ts)
    ensures P.ReadValue(doc, e, i, cur) == ReadMembers(doc, e, p, Empty, "")
  {
    hide T.RendersAt, P.ReadToken, P.SkipSpaces, P.NextToken, P.ReadValue, P.ReadMembers;
    ReadMark(doc, i, '{', ts);
    ValueOfToken(doc, e, i, cur);
    p := P.ReadToken(doc, i).end;
  }

  /** One round of the member loop, after its name and colon. */
  lemma {:induction false} MemberRound(
      doc: string, e: Settings, i: nat, members: ObjectValues, previous: string, name: CString, ts: seq<string>)
    returns (q: nat)
    requires i <= |doc| && RendersAt(doc, i, [S.Quoted(name)] + ([":"] + ts))
    ensures q <= |doc| && RendersAt(doc, q, ts)
    ensures var r := P.ReadValue(doc, e, q, Slot(members, Name(name)));
            var t := P.ReadToken(doc, r.pos);
            var extended := Put(members, Name(name), r.value);
            if !r.ok then !ReadMembers(doc, e, i, members, previous).ok
            else
              (t.kind == ObjectEnd ==>
                 ReadMembers(doc, e, i, members, previous) == Outcome(true, t.end, ObjectValue(extended), [])) &&
              (t.kind == ArraySeparator ==>
                 ReadMembers(doc, e, i, members, previous) == ReadMembers(doc, e, t.end, extended, name))
  {
    hide T.RendersAt, P.ReadToken, P.SkipSpaces, P.NextToken, S.DecodeBody, S.Quoted, P.Contents, P.ReadValue, P.ReadMembers,
         Put, Slot, P.Truncate;
    ReadStringLexeme(doc, i, name, [":"] + ts);
    ReadMark(doc, P.ReadToken(doc, i).end, ':', ts);
    q := P.ReadToken(doc, P.ReadToken(doc, i).end).end;
    NamedRound(doc, e, i, members, previous, name);
  }

  lemma {:induction false} NamedRound(doc: string, e: Settings, i: nat, members: ObjectValues, previous: string, name: CString)
    requires i <= |doc| && Truncate(name) == name
    requires var t := P.ReadToken(doc, i);
             t.kind == StringToken && S.DecodeBody(Contents(doc, t), 0, "") == S.Text(name) &&
             P.ReadToken(doc, t.end).kind == MemberSeparator
    ensures var r := P.ReadValue(doc, e, P.ReadToken(doc, P.ReadToken(doc, i).end).end, Slot(members, Name(name)));
            var t := P.ReadToken(doc, r.pos);
            var extended := Put(members, Name(name), r.value);
            if !r.ok then !ReadMembers(doc, e, i, members, previous).ok
            else
              (t.kind == ObjectEnd ==>
                 ReadMembers(doc, e, i, members, previous) == Outcome(true, t.end, ObjectValue(extended), [])) &&
              (t.kind == ArraySeparator ==>
                 ReadMembers(doc, e, i, members, previous) == ReadMembers(doc, e, t.end, extended, name))
  {
    hide P.TokenAt, P.SkipSpaces, S.DecodeBody, P.ReadValue, Put, Slot, P.Truncate, Recover;
    var t := P.ReadToken(doc, i);
    assert NextToken(doc, i) == t;
    assert ReadMembers(doc, e, i, members, previous) == ReadMemberValue(doc, e, t.end, members, name);
  }

  lemma MemberRegroup(name: string, value: seq<string>, more: seq<string>, rest: seq<string>)
    ensures [name, ":"] + value + more + rest == [name] + ([":"] + (value + (more + rest)))
  {
  }

  /** The lexemes of the members, regrouped: name, colon, value and those after it. */
  lemma MemberSplit(m: ObjectValues, e: Settings, drop: bool, rest: seq<string>) returns (after: seq<string>)
    requires m.Entry? && Named(m) && MapWellFormed(m)
    ensures Named(m.rest) && MapWellFormed(m.rest) && WellFormed(m.value) && m.key.Name?
    ensures Closing(after) && (CommaFirst(after) <==> m.rest.Entry?)
    ensures MemberTokens(m, StyleOf(e, drop)) + (["}"] + rest) ==
            [S.Quoted(m.key.cstr)] + ([":"] + (Lexemes(m.value, e, drop) + after))
    ensures after == if m.rest.Entry? then [","] + (MemberTokens(m.rest, StyleOf(e, drop)) + (["}"] + rest)) else ["}"] + rest
  {
    FirstMember(m, StyleOf(e, drop));
    hide S.Quoted, T.Tokens, Closing, T.MemberTokens, T.MapWellFormed, T.WellFormed, T.Named;
    var more := if m.rest.Entry? then [","] + MemberTokens(m.rest, StyleOf(e, drop)) else [];
    ClosingAfter(more, "}", rest);
    after := more + (["}"] + rest);
    MemberRegroup(S.Quoted(m.key.cstr), Lexemes(m.value, e, drop), more, ["}"] + rest);
  }

  lemma {:induction false} MembersStep(m: ObjectValues, e: Settings, drop: bool)
    requires m.Entry? && MapWellFormed(m)
    ensures BackMembers(m, e, drop) == Joint(m.key, Back(m.value, e, drop, m.rest.Entry?), BackMembers(m.rest, e, drop))
    ensures m.rest.Entry? ==> KeyLess(m.key, m.rest.key)
    ensures m.rest.Empty? ==> BackMembers(m.rest, e, drop) == Some(Empty)
  {
  }

  lemma {:induction false} ReadsBackMembers(
      doc: string, e: Settings, drop: bool, i: nat, m: ObjectValues, members: ObjectValues, previous: string, rest: seq<string>)
    requires m.Entry? && Named(m) && MapWellFormed(m) && AllBelow(members, m.key)
    requires PrintsNumbers(e.printDouble) && Closing(rest)
    requires i <= |doc| && RendersAt(doc, i, MemberTokens(m, StyleOf(e, drop)) + (["}"] + rest))
    ensures Answers(doc, ReadMembers(doc, e, i, members, previous), AsObject(Extend(members, BackMembers(m, e, drop))), rest)
    decreases SizeOfMap(m), 1, 0
  {
    hide T.RendersAt, P.ReadToken, P.NextToken, P.SkipSpaces, P.ReadValue, P.ReadMembers, T.Tokens, Back, BackScalar, S.DecodeBody,
         S.Quoted, Closing, CommaFirst, T.MapWellFormed, T.MemberTokens, BackMembers, AllBelow, Append, Joint, Extend,
         Lexemes, P.Put, P.Slot, P.Contents, P.Truncate, KeyLess, PrintsNumbers;
    var after := MemberSplit(m, e, drop, rest);
    MembersStep(m, e, drop);
    var first := Back(m.value, e, drop, m.rest.Entry?);
    ExtendStep(members, m.key, first, BackMembers(m.rest, e, drop));
    var q := MemberRound(doc, e, i, members, previous, m.key.cstr, Lexemes(m.value, e, drop) + after);
    ReadsBack(doc, e, drop, q, Slot(members, m.key), m.value, after);
    if first.Some? {
      var p := P.ReadValue(doc, e, q, Slot(members, m.key)).pos;
      if m.rest.Entry? {
        ReadMark(doc, p, ',', MemberTokens(m.rest, StyleOf(e, drop)) + (["}"] + rest));
        StaysBelow(members, m.key, first.value, m.rest.key);
        ReadsBackMembers(doc, e, drop, NextToken(doc, p).end, m.rest, Put(members, m.key, first.value), m.key.cstr, rest);
      } else {
        ReadMark(doc, p, '}', rest);
      }
    }
  }

  // ------------------------------------------------------------------ whole documents

  /** Any text that lays out the lexemes of a value parses to what comes back of it, or is refused when nothing does,
    * under every combination of features and over every previous root. */
  lemma {:induction false} LayoutParses(text: string, e: Settings, drop: bool, root: Value, v: Value)
    requires WellFormed(v) && PrintsNumbers(e.printDouble) && LaysOut(text, Lexemes(v, e, drop))
    ensures var r, back := Parse(text, e, root), Back(v, e, drop, false);
            if back.Some? && (e.features.strictRoot ==> IsContainer(v)) then r == Outcome(true, |text|, back.value, [])
            else !r.ok
  {
    hide P.ReadValue, Back, PrintsNumbers, Lexemes, T.RendersAt;
    assert Lexemes(v, e, drop) + [] == Lexemes(v, e, drop);
    ReadsBack(text, e, drop, 0, root, v, []);
    BackKeepsKind(v, e, drop);
    var r := P.ReadValue(text, e, 0, root);
    if r.ok {
      RendersNothing(text, r.pos);
      EndToken(text, r.pos);
      assert SkipCommentTokens(text, r.pos, e.features.allowComments) == P.ReadToken(text, r.pos);
    }
  }

  lemma {:induction false} BackKeepsKind(v: Value, e: Settings, drop: bool)
    requires WellFormed(v)
    ensures var back := Back(v, e, drop, false); back.Some? ==> (IsContainer(back.value) <==> IsContainer(v))
  {
    hide BackElements, BackMembers, Rounds, T.ArraySize, T.MapWellFormed;
    if v.RealValue? {
      var text := e.printDouble(v.real_);
      if text != [] { N.DecodedIsInteger(text, if text[0] == '-' then 1 else 0, 0, text[0] == '-'); }
    }
  }

  // ------------------------------------------------------------------ the exact round trip

  predicate RealFree(v: Value) {
    match v
    case RealValue(_) => false
    case ArrayValue(m) => RealFreeIn(m)
    case ObjectValue(m) => RealFreeIn(m)
    case _ => true
  }

  predicate RealFreeIn(m: ObjectValues) {
    m.Entry? ==> RealFree(m.value) && RealFreeIn(m.rest)
  }

  /** The size of every array in the value fits the signed counter the printer assigns it to. */
  predicate Fits(v: Value)
    requires WellFormed(v)
  {
    match v
    case ArrayValue(m) => Extent(m) <= MAX_INT && FitsIn(m)
    case ObjectValue(m) => FitsIn(m)
    case _ => true
  }

  predicate FitsIn(m: ObjectValues)
    requires MapWellFormed(m)
  {
    m.Entry? ==> Fits(m.value) && FitsIn(m.rest)
  }

  /** The normal form: integer tags by magnitude, gaps in arrays filled with null. */
  function Normal(v: Value): Value
    requires WellFormed(v)
    decreases Size(v), 0, 0
  {
    match v
    case IntValue(i) => N.IntegerValue(i)
    case UIntValue(u) => N.IntegerValue(u)
    case ArrayValue(m) => ArrayValue(NormalElements(m, 0, Extent(m)))
    case ObjectValue(m) => ObjectValue(NormalMembers(m))
    case _ => v
  }

  function NormalElements(m: ObjectValues, k: nat, n: nat): ObjectValues
    requires MapWellFormed(m)
    decreases SizeOfMap(m), 1, n - k
  {
    if k >= n then Empty
    else
      FindWellFormed(m, Index(k));
      var found := Find(m, Index(k));
      Entry(Index(k), if found.Some? then Normal(found.value) else NullValue, NormalElements(m, k + 1, n))
  }

  function NormalMembers(m: ObjectValues): ObjectValues
    requires MapWellFormed(m)
    decreases SizeOfMap(m), 1, 0
  {
    if m.Empty? then Empty else Entry(m.key, Normal(m.value), NormalMembers(m.rest))
  }

  /** No null is the root, the last element of an array or the last member of an object; without `allowed` there is
    * no null, and no gap in an array, at all. `comma` tells whether something follows the value itself. */
  predicate NullsAreSeen(v: Value, allowed: bool, comma: bool)
    requires WellFormed(v)
    decreases Size(v), 0, 0
  {
    match v
    case NullValue => allowed && comma
    case ArrayValue(m) => NullsAreSeenFrom(m, 0, Extent(m), allowed)
    case ObjectValue(m) => NullsAreSeenIn(m, allowed)
    case _ => true
  }

  /** The same of the elements from index `k` up to `n`. */
  predicate NullsAreSeenFrom(m: ObjectValues, k: nat, n: nat, allowed: bool)
    requires MapWellFormed(m)
    decreases SizeOfMap(m), 1, n - k
  {
    k < n ==>
      (match Find(m, Index(k))
       case Some(v) => FindWellFormed(m, Index(k)); NullsAreSeen(v, allowed, k + 1 < n)
       case None => allowed && k + 1 < n) &&
      NullsAreSeenFrom(m, k + 1, n, allowed)
  }

  predicate NullsAreSeenIn(m: ObjectValues, allowed: bool)
    requires MapWellFormed(m)
    decreases SizeOfMap(m), 1, 0
  {
    m.Entry? ==> NullsAreSeen(m.value, allowed, m.rest.Entry?) && NullsAreSeenIn(m.rest, allowed)
  }

  /** Keys ascend, so a key is found once and everything after it is larger. */
  lemma {:induction false} SmallerIsAbsent(m: ObjectValues, key: CZString)
    requires MapWellFormed(m) && (m.Entry? ==> KeyLess(key, m.key))
    ensures Find(m, key) == None
  {
    if m.Entry? {
      KeyTotal(key, m.key);
      if m.rest.Entry? { KeyTransitive(key, m.key, m.rest.key); }
      SmallerIsAbsent(m.rest, key);
    }
  }

  /** The element at an index is the one at the head or one further on. */
  lemma {:induction false} SlotOfEntry(m: ObjectValues, k: nat)
    requires m.Entry? && MapWellFormed(m) && Indexed(m)
    ensures m.key == Index(k) ==> Slot(m, Index(k)) == m.value && Slot(m.rest, Index(k)) == NullValue
    ensures m.key != Index(k) ==> Slot(m, Index(k)) == Slot(m.rest, Index(k))
  {
    if m.key == Index(k) { SmallerIsAbsent(m.rest, m.key); }
  }

  lemma {:induction false} BeyondExtent(m: ObjectValues, k: nat)
    requires Indexed(m) && MapWellFormed(m) && k >= Extent(m)
    ensures Slot(m, Index(k)) == NullValue
  {
    if m.Entry? {
      ExtentOfRest(m);
      BeyondExtent(m.rest, k);
    }
  }

  lemma {:induction false} ExtentOfRest(m: ObjectValues)
    requires m.Entry? && Indexed(m) && MapWellFormed(m)
    ensures m.key.index < Extent(m) && Extent(m.rest) <= Extent(m) <= TWO_32
  {
    if m.rest.Entry? { ExtentOfRest(m.rest); }
  }

  /** All values of an array fit iff those at each index do. */
  lemma {:induction false} FitsBySlot(m: ObjectValues)
    requires Indexed(m) && MapWellFormed(m)
    ensures FitsIn(m) <==> forall k: nat :: Fits(Element(m, k))
  {
    if m.Entry? {
      FitsBySlot(m.rest);
      forall k: nat
        ensures Element(m, k) == (if m.key == Index(k) then m.value else Element(m.rest, k))
        ensures m.key == Index(k) ==> Element(m.rest, k) == NullValue
      {
        SlotOfEntry(m, k);
      }
      assert Element(m, m.key.index) == m.value;
      if forall k: nat :: Fits(Element(m, k)) {
        forall k: nat
          ensures Fits(Element(m.rest, k))
        {
          assert Fits(Element(m, k));
        }
      }
    }
  }

  lemma {:induction false} NoNullBySlot(m: ObjectValues)
    requires Indexed(m) && MapWellFormed(m)
    requires forall k: nat :: NoNullString(Element(m, k))
    ensures NoNullStringIn(m)
  {
    if m.Entry? {
      forall k: nat
        ensures NoNullString(Element(m.rest, k))
      {
        SlotOfEntry(m, k);
        assert NoNullString(Element(m, k));
      }
      NoNullBySlot(m.rest);
      SlotOfEntry(m, m.key.index);
      assert NoNullString(Element(m, m.key.index));
    }
  }

  lemma {:induction false} SlotIsRealFree(m: ObjectValues, key: CZString)
    requires RealFreeIn(m)
    ensures RealFree(Slot(m, key))
  {
    if m.Entry? && m.key != key { SlotIsRealFree(m.rest, key); }
  }

  /** What comes back is the normal form exactly for the values whose arrays fit and whose nulls can be told. */
  lemma {:induction false} BackIsNormal(v: Value, e: Settings, drop: bool, comma: bool)
    requires WellFormed(v) && RealFree(v) && NoNullString(v)
    ensures Back(v, e, drop, comma) == Some(Normal(v)) <==>
            Fits(v) && (drop ==> NullsAreSeen(v, e.features.allowDroppedNullPlaceholders, comma))
    decreases Size(v), 0, 0
  {
    match v
    case ArrayValue(m) => BackArrayIsNormal(m, e, drop, comma);
    case ObjectValue(m) => BackMembersAreNormal(m, e, drop);
    case _ =>
  }

  lemma {:induction false} BackArrayIsNormal(m: ObjectValues, e: Settings, drop: bool, comma: bool)
    requires Indexed(m) && MapWellFormed(m) && RealFreeIn(m) && NoNullStringIn(m)
    ensures Back(ArrayValue(m), e, drop, comma) == Some(Normal(ArrayValue(m))) <==>
            Fits(ArrayValue(m)) && (drop ==> NullsAreSeen(ArrayValue(m), e.features.allowDroppedNullPlaceholders, comma))
    decreases SizeOfMap(m), 2, 0
  {
    hide T.MapWellFormed, T.Indexed, RealFreeIn, NoNullStringIn, BackElements, NormalElements, NullsAreSeenFrom, FitsIn,
         T.Extent, T.ArraySize, Rounds, Slot;
    var n := Extent(m);
    ExtentIsRounds(m);
    ArrayBack(m, e, drop);
    if n > MAX_INT {
      NothingPrinted(m, n, e, drop);
    } else {
      BackElementsAreNormal(m, 0, n, e, drop);
      ArrayFits(m);
      if n == 1 && PrintsNothing(Element(m, 0), drop) { NothingAlone(m, e, drop); }
    }
  }

  lemma {:induction false} ExtentIsRounds(m: ObjectValues)
    requires Indexed(m) && MapWellFormed(m)
    ensures Rounds(ArraySize(m)) == if Extent(m) <= MAX_INT then Extent(m) else 0
  {
    if m.Entry? { ExtentOfRest(m); }
  }

  lemma {:induction false} NothingPrinted(m: ObjectValues, n: nat, e: Settings, drop: bool)
    requires n > 0 && MapWellFormed(m)
    ensures BackElements(m, 0, 0, e, drop) == Some(Empty) && NormalElements(m, 0, n) != Empty
  {
  }

  lemma {:induction false} ArrayFits(m: ObjectValues)
    requires Indexed(m) && MapWellFormed(m)
    ensures FitsIn(m) <==> forall k: nat :: 0 <= k < Extent(m) ==> Fits(Element(m, k))
  {
    FitsBySlot(m);
    forall k: nat | k >= Extent(m)
      ensures Fits(Element(m, k))
    {
      BeyondExtent(m, k);
    }
  }

  /** A null by itself is lost with the array around it. */
  lemma {:induction false} NothingAlone(m: ObjectValues, e: Settings, drop: bool)
    requires MapWellFormed(m) && NoNullStringIn(m) && PrintsNothing(Element(m, 0), drop)
    ensures drop && !NullsAreSeenFrom(m, 0, 1, e.features.allowDroppedNullPlaceholders)
    ensures NormalElements(m, 0, 1).Entry?
  {
    SlotHasNoNullString(m, Index(0));
  }

  lemma {:induction false} BackElementsAreNormal(m: ObjectValues, k: nat, n: nat, e: Settings, drop: bool)
    requires MapWellFormed(m) && RealFreeIn(m) && NoNullStringIn(m)
    ensures BackElements(m, k, n, e, drop) == Some(NormalElements(m, k, n)) <==>
            (forall j: nat :: k <= j < n ==> Fits(Element(m, j))) &&
            (drop ==> NullsAreSeenFrom(m, k, n, e.features.allowDroppedNullPlaceholders))
    decreases SizeOfMap(m), 1, n - k
  {
    if k < n {
      FindWellFormed(m, Index(k));
      SlotIsRealFree(m, Index(k));
      SlotHasNoNullString(m, Index(k));
      var found := Find(m, Index(k));
      if found.Some? { BackIsNormal(found.value, e, drop, k + 1 < n); }
      BackElementsAreNormal(m, k + 1, n, e, drop);
      assert Element(m, k) == Slot(m, Index(k));
    }
  }

  lemma {:induction false} BackMembersAreNormal(m: ObjectValues, e: Settings, drop: bool)
    requires MapWellFormed(m) && RealFreeIn(m) && NoNullStringIn(m)
    ensures BackMembers(m, e, drop) == Some(NormalMembers(m)) <==>
            FitsIn(m) && (drop ==> NullsAreSeenIn(m, e.features.allowDroppedNullPlaceholders))
    decreases SizeOfMap(m), 1, 0
  {
    if m.Entry? {
      BackIsNormal(m.value, e, drop, m.rest.Entry?);
      BackMembersAreNormal(m.rest, e, drop);
    }
  }

  /** Normalising neither adds nor removes null strings. */
  lemma {:induction false} NormalKeepsNullStrings(v: Value)
    requires WellFormed(v) && NoNullString(Normal(v))
    ensures NoNullString(v)
    decreases Size(v), 0, 0
  {
    match v
    case ArrayValue(m) =>
      forall k: nat
        ensures NoNullString(Element(m, k))
      {
        if k < Extent(m) { NormalElementsKeepNullStrings(m, 0, k, Extent(m)); } else { BeyondExtent(m, k); }
      }
      NoNullBySlot(m);
    case ObjectValue(m) => NormalMembersKeepNullStrings(m);
    case _ =>
  }

  lemma {:induction false} NormalElementsKeepNullStrings(m: ObjectValues, k: nat, j: nat, n: nat)
    requires MapWellFormed(m) && k <= j < n && NoNullStringIn(NormalElements(m, k, n))
    ensures NoNullString(Element(m, j))
    decreases SizeOfMap(m), 1, n - k
  {
    FindWellFormed(m, Index(k));
    var found := Find(m, Index(k));
    if k < j {
      NormalElementsKeepNullStrings(m, k + 1, j, n);
    } else if found.Some? {
      NormalKeepsNullStrings(found.value);
    }
  }

  lemma {:induction false} NormalMembersKeepNullStrings(m: ObjectValues)
    requires MapWellFormed(m) && NoNullStringIn(NormalMembers(m))
    ensures NoNullStringIn(m)
    decreases SizeOfMap(m), 1, 0
  {
    if m.Entry? {
      NormalKeepsNullStrings(m.value);
      NormalMembersKeepNullStrings(m.rest);
    }
  }

  /** The text of `FastWriter::write`. */
  function FastText(v: Value, drop: bool, colon: string, omitEndingLineFeed: bool, e: Settings): string
    requires WellFormed(v)
  {
    Joined(Lexemes(v, e, drop), colon) + if omitEndingLineFeed then "" else "\n"
  }

  lemma {:induction false} FastTextLaysOut(v: Value, drop: bool, colon: string, omitEndingLineFeed: bool, e: Settings)
    requires WellFormed(v) && PrintsNumbers(e.printDouble) && colon in [":", ": "]
    ensures LaysOut(FastText(v, drop, colon, omitEndingLineFeed, e), Lexemes(v, e, drop))
  {
    hide T.LaysOut, T.Joined, T.Tokens, T.WellFormed;
    TokensSolid(v, StyleOf(e, drop));
    JoinedLaysOut(Lexemes(v, e, drop), colon);
    var ending := if omitEndingLineFeed then "" else "\n";
    PadLayout("", Joined(Lexemes(v, e, drop), colon), Lexemes(v, e, drop), ending);
    assert "" + Joined(Lexemes(v, e, drop), colon) + ending == FastText(v, drop, colon, omitEndingLineFeed, e);
  }

  /** Parsing undoes printing, at any nesting, under every combination of reader features and of the printer's options:
    * the result is the normal form exactly when the value holds no null string and no array too large for the
    * printer's counter, every null can be told where nulls are dropped, and the reader takes such a root. */
  lemma {:induction false} RoundTripExactly(v: Value, drop: bool, colon: string, omitEndingLineFeed: bool, e: Settings)
    requires WellFormed(v) && RealFree(v) && PrintsNumbers(e.printDouble) && colon in [":", ": "]
    ensures var r := Parse(FastText(v, drop, colon, omitEndingLineFeed, e), e, NullValue);
            r.ok && r.errors == [] && r.value == Normal(v) <==>
            NoNullString(v) && Fits(v) && (drop ==> NullsAreSeen(v, e.features.allowDroppedNullPlaceholders, false)) &&
            (e.features.strictRoot ==> IsContainer(v))
  {
    hide P.Parse, P.ReadValue, Back, Normal, T.LaysOut;
    var text := FastText(v, drop, colon, omitEndingLineFeed, e);
    FastTextLaysOut(v, drop, colon, omitEndingLineFeed, e);
    if NoNullString(v) {
      LayoutParses(text, e, drop, NullValue, v);
      BackIsNormal(v, e, drop, false);
    } else {
      ParseHasNoNullString(text, e);
      if Parse(text, e, NullValue).value == Normal(v) { NormalKeepsNullStrings(v); }
    }
  }

  lemma ParseHasNoNullString(text: string, e: Settings)
    ensures NoNullString(Parse(text, e, NullValue).value)
  {
    ReadHasNoNullString(text, e, 0, NullValue);
  }

  /** A sparse array with one element at index 2^31 - 1 comes back as an empty one. */
  lemma {:induction false} OversizedArrayIsLost(drop: bool, colon: string, omitEndingLineFeed: bool, e: Settings)
    requires PrintsNumbers(e.printDouble) && colon in [":", ": "]
    ensures var v := ArrayValue(Entry(Index(MAX_INT), BooleanValue(true), Empty));
            WellFormed(v) && Normal(v) != ArrayValue(Empty) &&
            var text := FastText(v, drop, colon, omitEndingLineFeed, e);
            Parse(text, e, NullValue) == Outcome(true, |text|, ArrayValue(Empty), [])
  {
    var m := Entry(Index(MAX_INT), BooleanValue(true), Empty);
    assert Extent(m) == MAX_INT + 1 && Rounds(ArraySize(m)) == 0;
    assert BackElements(m, 0, 0, e, drop) == Some(Empty);
    assert NormalElements(m, 0, Extent(m)).Entry?;
    FastTextLaysOut(ArrayValue(m), drop, colon, omitEndingLineFeed, e);
    LayoutParses(FastText(ArrayValue(m), drop, colon, omitEndingLineFeed, e), e, drop, NullValue, ArrayValue(m));
  }

  /** Whatever prints nothing is refused by itself and lost with the array around it. */
  lemma {:induction false} NothingIsLost(v: Value, drop: bool, colon: string, omitEndingLineFeed: bool, e: Settings)
    requires PrintsNothing(v, drop) && PrintsNumbers(e.printDouble) && colon in [":", ": "]
    ensures var alone := ArrayValue(Entry(Index(0), v, Empty));
            WellFormed(alone) && !Parse(FastText(v, drop, colon, omitEndingLineFeed, e), e, NullValue).ok &&
            var text := FastText(alone, drop, colon, omitEndingLineFeed, e);
            Parse(text, e, NullValue) == Outcome(true, |text|, ArrayValue(Empty), [])
  {
    hide P.Parse, FastText;
    var m := Entry(Index(0), v, Empty);
    assert Extent(m) == 1 && Rounds(ArraySize(m)) == 1 && Element(m, 0) == v;
    FastTextLaysOut(v, drop, colon, omitEndingLineFeed, e);
    LayoutParses(FastText(v, drop, colon, omitEndingLineFeed, e), e, drop, NullValue, v);
    FastTextLaysOut(ArrayValue(m), drop, colon, omitEndingLineFeed, e);
    LayoutParses(FastText(ArrayValue(m), drop, colon, omitEndingLineFeed, e), e, drop, NullValue, ArrayValue(m));
  }

  /** In the last place of an array it has the text refused, whatever comes before. */
  lemma {:induction false} LastNothingIsRefused(v: Value, drop: bool, colon: string, omitEndingLineFeed: bool, e: Settings)
    requires PrintsNothing(v, drop) && PrintsNumbers(e.printDouble) && colon in [":", ": "]
    ensures var pair := ArrayValue(Entry(Index(0), BooleanValue(true), Entry(Index(1), v, Empty)));
            WellFormed(pair) && !Parse(FastText(pair, drop, colon, omitEndingLineFeed, e), e, NullValue).ok
  {
    hide P.Parse, FastText, T.LaysOut;
    var m := Entry(Index(0), BooleanValue(true), Entry(Index(1), v, Empty));
    assert Extent(m) == 2 && Rounds(ArraySize(m)) == 2;
    assert Find(m, Index(1)) == Some(v);
    assert BackElements(m, 1, 2, e, drop) == None;
    FastTextLaysOut(ArrayValue(m), drop, colon, omitEndingLineFeed, e);
    LayoutParses(FastText(ArrayValue(m), drop, colon, omitEndingLineFeed, e), e, drop, NullValue, ArrayValue(m));
  }
}
