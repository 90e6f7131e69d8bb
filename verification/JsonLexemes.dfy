/** The reader depends on the lexemes of a text only: two texts with the same lexemes and different blanks between
  * them are read alike, whether they are read or refused.
  */
module JsonLexemes {
  import opened Wrappers
  import opened JsonValue
  import N = JsonNumber
  import S = JsonString
  import opened P = JsonParsing
  import opened T = JsonTokens
  import R = JsonRoundTrip

  /** A string literal, however it is spelled and whether or not its escapes make sense. */
  predicate IsString(t: string) { |t| >= 2 && t == "\"" + t[1..|t| - 1] + "\"" && R.Passed(t[1..|t| - 1]) }

  predicate IsMark(t: string) { t in ["{", "}", "[", "]", ",", ":"] }

  predicate IsWord(t: string) { t in ["null", "true", "false"] }

  predicate Lexeme(t: string) { IsMark(t) || IsWord(t) || N.NumberLexeme(t) || IsString(t) }

  /** Lexemes in any order, with empty texts between them, and no two numbers in a row, which nothing would keep apart. */
  predicate WellLexed(ts: seq<string>) {
    ts != [] ==>
      (ts[0] == "" || Lexeme(ts[0])) && (N.NumberLexeme(ts[0]) ==> !N.NumberLexeme(Head(ts[1..]))) && WellLexed(ts[1..])
  }

  /** The first lexeme that is not empty, and those after it. */
  function Head(ts: seq<string>): string {
    if ts == [] then "" else if ts[0] == "" then Head(ts[1..]) else ts[0]
  }

  function Tail(ts: seq<string>): seq<string> {
    if ts == [] then [] else if ts[0] == "" then Tail(ts[1..]) else ts[1..]
  }

  lemma {:induction false} TailIsShorter(ts: seq<string>)
    ensures |Tail(ts)| <= |ts| && (Head(ts) != "" ==> |Tail(ts)| < |ts|)
  {
    if ts != [] && ts[0] == "" { TailIsShorter(ts[1..]); }
  }

  function KindOf(t: string): TokenType {
    if t == "" then EndOfStream
    else if IsMark(t) then R.MarkKind(t[0])
    else if t == "null" then NullToken
    else if t == "true" then TrueToken
    else if t == "false" then FalseToken
    else if t[0] == '"' then StringToken
    else NumberToken
  }

  lemma LexemeTokenAt(doc: string, j: nat, t: string)
    requires Lexeme(t) && j + |t| <= |doc| && doc[j..j + |t|] == t
    requires N.NumberLexeme(t) && j + |t| < |doc| ==> !N.IsNumberChar(doc[j + |t|])
    ensures t != "" && TokenAt(doc, j) == Token(KindOf(t), j, j + |t|)
  {
    if IsMark(t) {
      assert doc[j] == doc[j..j + |t|][0];
    } else if IsWord(t) {
      R.WordToken(doc, j, t);
    } else if N.NumberLexeme(t) {
      hide P.TokenAt;
      R.NumberTokenAt(doc, j, t);
    } else {
      hide P.TokenAt, R.Passed;
      R.StringTokenAt(doc, j, t[1..|t| - 1]);
    }
  }

  lemma {:induction false} TokenOf(doc: string, i: nat, ts: seq<string>)
    requires i <= |doc| && RendersAt(doc, i, ts) && WellLexed(ts)
    ensures var t := P.ReadToken(doc, i);
            t.kind == KindOf(Head(ts)) && doc[t.start..t.end] == Head(ts) && t.start == SkipSpaces(doc, i) &&
            RendersAt(doc, t.end, Tail(ts)) && WellLexed(Tail(ts))
    decreases |ts|
  {
    hide P.TokenAt, P.SkipSpaces, Lexeme, KindOf;
    var j := SkipSpaces(doc, i);
    if ts == [] {
      assert j == |doc|;
      EndToken(doc);
    } else if ts[0] == "" {
      assert doc[j..j] == "";
      TokenOf(doc, j, ts[1..]);
      SkipIsStable(doc, i);
    } else {
      if N.NumberLexeme(ts[0]) { NoNumberAhead(doc, j + |ts[0]|, ts[1..]); }
      LexemeTokenAt(doc, j, ts[0]);
    }
  }

  /** The character after a number belongs to it unless something else follows. */
  lemma {:induction false} NoNumberAhead(doc: string, i: nat, ts: seq<string>)
    requires i <= |doc| && RendersAt(doc, i, ts) && WellLexed(ts) && !N.NumberLexeme(Head(ts))
    ensures i < |doc| ==> !N.IsNumberChar(doc[i])
    decreases |ts|
  {
    var j := SkipSpaces(doc, i);
    if ts != [] && ts[0] == "" {
      if i == j { NoNumberAhead(doc, j, ts[1..]); }
    } else if ts != [] && i == j {
      assert doc[i] == doc[i..i + |ts[0]|][0] == ts[0][0];
    }
  }

  lemma {:induction false} EndToken(doc: string)
    ensures TokenAt(doc, |doc|) == Token(EndOfStream, |doc|, |doc|) && KindOf("") == EndOfStream
    ensures RendersAt(doc, |doc|, [])
  {
  }

  // ------------------------------------------------------------------ two texts side by side

  predicate Alike(doc: string, i: nat, doc': string, i': nat, ts: seq<string>) {
    i <= |doc| && i' <= |doc'| && RendersAt(doc, i, ts) && RendersAt(doc', i', ts) && WellLexed(ts)
  }

  function Messages(errors: seq<ErrorInfo>): seq<Message> {
    seq(|errors|, k requires 0 <= k < |errors| => errors[k].message)
  }

  /** Two reads ended alike, with the same lexemes still to come. */
  predicate SameOutcome(doc: string, r: Outcome, doc': string, r': Outcome, rest: seq<string>) {
    r.ok == r'.ok && r.value == r'.value && Messages(r.errors) == Messages(r'.errors) && Alike(doc, r.pos, doc', r'.pos, rest)
  }

  predicate SameToken(doc: string, t: Token, doc': string, t': Token, text: string) {
    t.kind == t'.kind == KindOf(text) && t.end <= |doc| && t'.end <= |doc'| && t.start <= t.end && t'.start <= t'.end &&
    doc[t.start..t.end] == text == doc'[t'.start..t'.end]
  }

  lemma {:induction false} BothRead(doc: string, i: nat, doc': string, i': nat, ts: seq<string>)
    requires Alike(doc, i, doc', i', ts)
    ensures var t, t' := P.ReadToken(doc, i), P.ReadToken(doc', i');
            SameToken(doc, t, doc', t', Head(ts)) && Alike(doc, t.end, doc', t'.end, Tail(ts)) &&
            t.kind == t'.kind != CommentToken && |Tail(ts)| <= |ts| && (t.kind != EndOfStream ==> |Tail(ts)| < |ts|)
    ensures P.NextToken(doc, i) == P.ReadToken(doc, i) && P.NextToken(doc', i') == P.ReadToken(doc', i')
    ensures forall b :: SkipCommentTokens(doc, i, b) == P.ReadToken(doc, i) && SkipCommentTokens(doc', i', b) == P.ReadToken(doc', i')
  {
    hide P.ReadToken, WellLexed, Head, Tail, T.RendersAt;
    TokenOf(doc, i, ts);
    TokenOf(doc', i', ts);
    TailIsShorter(ts);
    assert P.ReadToken(doc, i).kind != CommentToken;
  }

  lemma {:induction false} SameRecover(doc: string, i: nat, doc': string, i': nat, until: TokenType, ts: seq<string>)
    returns (rest: seq<string>)
    requires Alike(doc, i, doc', i', ts)
    ensures Alike(doc, Recover(doc, i, until), doc', Recover(doc', i', until), rest) && |rest| <= |ts|
    decreases |ts|
  {
    hide P.ReadToken, P.NextToken, SkipCommentTokens, Alike, Head, Tail;
    BothRead(doc, i, doc', i', ts);
    rest := Tail(ts);
    var t, t' := P.ReadToken(doc, i), P.ReadToken(doc', i');
    if t.kind != until && t.kind != EndOfStream {
      rest := SameRecover(doc, t.end, doc', t'.end, until, rest);
    }
  }

  lemma OneMessage(x: ErrorInfo, y: ErrorInfo)
    requires x.message == y.message
    ensures Messages([x]) == Messages([y])
  {
  }

  lemma SameFail(doc: string, doc': string, message: Message, t: Token, t': Token, until: TokenType, value: Value, ts: seq<string>)
    returns (rest: seq<string>)
    requires Alike(doc, t.end, doc', t'.end, ts)
    ensures SameOutcome(doc, Fail(doc, message, t, until, value), doc', Fail(doc', message, t', until, value), rest) && |rest| <= |ts|
  {
    hide Alike, Recover, Messages;
    assert t.end <= |doc| && t'.end <= |doc'| by { AlikeInside(doc, t.end, doc', t'.end, ts); }
    rest := SameRecover(doc, t.end, doc', t'.end, until, ts);
    OneMessage(ErrorInfo(message, t, None), ErrorInfo(message, t', None));
  }

  lemma AlikeInside(doc: string, i: nat, doc': string, i': nat, ts: seq<string>)
    requires Alike(doc, i, doc', i', ts)
    ensures i <= |doc| && i' <= |doc'|
  {
  }

  lemma SliceContents(doc: string, t: Token, text: string)
    requires t.start + 2 <= t.end <= |doc| && doc[t.start..t.end] == text
    ensures |text| >= 2 && Contents(doc, t) == text[1..|text| - 1]
  {
    assert doc[t.start..t.end][1..t.end - t.start - 1] == doc[t.start + 1..t.end - 1];
  }

  /** The same name, or errors with the same message. */
  lemma SameName(doc: string, doc': string, e: Settings, t: Token, t': Token, text: string)
    requires SameToken(doc, t, doc', t', text)
    requires t.kind == StringToken ==> t.start + 2 <= t.end && t'.start + 2 <= t'.end
    requires t.kind == NumberToken ==> t.start < t.end && t'.start < t'.end
    ensures match (NameOf(doc, e, t), NameOf(doc', e, t'))
            case (NoName, NoName) => true
            case (MemberName(n), MemberName(n')) => n == n'
            case (BadName(x), BadName(x')) => x.message == x'.message
            case _ => false
    ensures t.kind == StringToken ==> Contents(doc, t) == Contents(doc', t')
  {
    hide S.DecodeBody, NumberOf, NumberName, KindOf;
    if t.kind == StringToken {
      SliceContents(doc, t, text);
      SliceContents(doc', t', text);
    }
  }

  // ------------------------------------------------------------------ values

  /** A comma that was not a value is read again by the caller. */
  lemma {:induction false} CommaAgain(doc: string, t: Token, ts: seq<string>)
    requires t.end <= |doc| && t.start + 1 == t.end && doc[t.start..t.end] == "," && RendersAt(doc, t.end, ts) && WellLexed(ts)
    ensures RendersAt(doc, t.start, [","] + ts) && WellLexed([","] + ts)
  {
  }

  lemma {:induction false} SameValue(doc: string, i: nat, doc': string, i': nat, e: Settings, cur: Value, ts: seq<string>)
    returns (rest: seq<string>)
    requires Alike(doc, i, doc', i', ts)
    ensures SameOutcome(doc, P.ReadValue(doc, e, i, cur), doc', P.ReadValue(doc', e, i', cur), rest) && |rest| <= |ts|
    decreases |ts|, 1
  {
    hide P.ReadToken, P.NextToken, SkipCommentTokens, Alike, Tail, P.ReadMembers, P.ReadArray, S.DecodeBody, NumberOf, Messages,
         P.Truncate;
    BothRead(doc, i, doc', i', ts);
    var t, t' := P.ReadToken(doc, i), P.ReadToken(doc', i');
    rest := Tail(ts);
    if t.kind == ObjectBegin {
      rest := SameMembers(doc, t.end, doc', t'.end, e, Empty, "", rest);
    } else if t.kind == ArrayBegin {
      rest := SameArray(doc, t.end, doc', t'.end, e, rest);
    } else if t.kind == ArraySeparator && e.features.allowDroppedNullPlaceholders {
      NoMessages();
      rest := SameComma(doc, t, doc', t', rest, Head(ts));
    } else {
      SameScalar(doc, doc', e, t, t', cur, Head(ts));
      assert SameOutcome(doc, Scalar(doc, e, t, cur), doc', Scalar(doc', e, t', cur), rest) by {
        AlikeInside(doc, t.end, doc', t'.end, rest);
      }
    }
  }

  /** What `readValue` makes of a token that is no container and no dropped null. */
  function Scalar(doc: string, e: Settings, t: Token, cur: Value): Outcome
    requires t.start <= t.end <= |doc|
    requires t.kind == StringToken ==> t.start + 2 <= t.end
    requires t.kind == NumberToken ==> t.start < t.end
  {
    match t.kind
    case NumberToken =>
      (match NumberOf(e, doc[t.start..t.end])
       case Some(v) => Outcome(true, t.end, v, [])
       case None => Outcome(false, t.end, cur, [ErrorInfo(NotANumber, t, None)]))
    case StringToken =>
      var text := S.DecodeBody(Contents(doc, t), 0, "");
      if text.Text? then Outcome(true, t.end, StringValue(Some(Truncate(text.text))), [])
      else Outcome(false, t.end, cur, [StringErrorInfo(t, text)])
    case TrueToken => Outcome(true, t.end, BooleanValue(true), [])
    case FalseToken => Outcome(true, t.end, BooleanValue(false), [])
    case NullToken => Outcome(true, t.end, NullValue, [])
    case _ => Outcome(false, t.end, cur, [ErrorInfo(ValueExpected, t, None)])
  }

  lemma SameScalar(doc: string, doc': string, e: Settings, t: Token, t': Token, cur: Value, text: string)
    requires SameToken(doc, t, doc', t', text)
    requires t.kind == StringToken ==> t.start + 2 <= t.end && t'.start + 2 <= t'.end
    requires t.kind == NumberToken ==> t.start < t.end && t'.start < t'.end
    ensures var r, r' := Scalar(doc, e, t, cur), Scalar(doc', e, t', cur);
            r.ok == r'.ok && r.value == r'.value && r.pos == t.end && r'.pos == t'.end &&
            Messages(r.errors) == Messages(r'.errors)
  {
    hide S.DecodeBody, NumberOf, P.Truncate, KindOf, NameOf, Contents;
    SameName(doc, doc', e, t, t', text);
    var r, r' := Scalar(doc, e, t, cur), Scalar(doc', e, t', cur);
    if r.errors != [] { OneMessage(r.errors[0], r'.errors[0]); }
  }

  lemma SameComma(doc: string, t: Token, doc': string, t': Token, ts: seq<string>, text: string) returns (rest: seq<string>)
    requires SameToken(doc, t, doc', t', text) && t.kind == ArraySeparator && Alike(doc, t.end, doc', t'.end, ts)
    ensures t.end > 0 && t'.end > 0 && Alike(doc, t.end - 1, doc', t'.end - 1, rest) && |rest| == |ts| + 1
  {
    assert text == ",";
    CommaAgain(doc, t, ts);
    CommaAgain(doc', t', ts);
    rest := [","] + ts;
  }

  lemma {:induction false} SameMembers(
      doc: string, i: nat, doc': string, i': nat, e: Settings, members: ObjectValues, name: string, ts: seq<string>)
    returns (rest: seq<string>)
    requires Alike(doc, i, doc', i', ts)
    ensures SameOutcome(doc, P.ReadMembers(doc, e, i, members, name), doc', P.ReadMembers(doc', e, i', members, name), rest)
    ensures |rest| <= |ts|
    decreases |ts|, 2
  {
    hide P.ReadToken, P.NextToken, Alike, Tail, NameOf, Recover, Messages, P.ReadMemberValue, SameToken;
    BothRead(doc, i, doc', i', ts);
    var t, t' := P.ReadToken(doc, i), P.ReadToken(doc', i');
    rest := Tail(ts);
    if t.kind == ObjectEnd && name == "" {
      NoMessages();
    } else {
      SameName(doc, doc', e, t, t', Head(ts));
      match (NameOf(doc, e, t), NameOf(doc', e, t')) {
        case (NoName, NoName) =>
          rest := SameFail(doc, doc', MissingBraceOrName, t, t', ObjectEnd, ObjectValue(members), rest);
        case (BadName(x), BadName(x')) =>
          OneMessage(x, x');
          rest := SameRecover(doc, t.end, doc', t'.end, ObjectEnd, rest);
        case (MemberName(n), MemberName(_)) =>
          rest := SameMemberValue(doc, t.end, doc', t'.end, e, members, n, rest);
        case _ =>
      }
    }
  }

  lemma NoMessages()
    ensures Messages([]) == []
  {
  }

  lemma {:induction false} SameMemberValue(
      doc: string, i: nat, doc': string, i': nat, e: Settings, members: ObjectValues, name: string, ts: seq<string>)
    returns (rest: seq<string>)
    requires Alike(doc, i, doc', i', ts)
    ensures SameOutcome(doc, P.ReadMemberValue(doc, e, i, members, name), doc', P.ReadMemberValue(doc', e, i', members, name), rest)
    ensures |rest| <= |ts|
    decreases |ts|, 1
  {
    hide P.ReadToken, P.NextToken, Alike, Tail, Recover, Messages, P.ReadMembers, P.ReadValue, P.Truncate, Put, Slot, SameToken, Fail;
    BothRead(doc, i, doc', i', ts);
    var t, t' := P.ReadToken(doc, i), P.ReadToken(doc', i');
    rest := Tail(ts);
    if t.kind != MemberSeparator {
      rest := SameFail(doc, doc', MissingColon, t, t', ObjectEnd, ObjectValue(members), rest);
    } else {
      var key := Name(Truncate(name));
      rest := SameValue(doc, t.end, doc', t'.end, e, Slot(members, key), rest);
      var r, r' := P.ReadValue(doc, e, t.end, Slot(members, key)), P.ReadValue(doc', e, t'.end, Slot(members, key));
      var extended := Put(members, key, r.value);
      if !r.ok {
        rest := SameRecover(doc, r.pos, doc', r'.pos, ObjectEnd, rest);
      } else {
        BothRead(doc, r.pos, doc', r'.pos, rest);
        var u, u' := P.ReadToken(doc, r.pos), P.ReadToken(doc', r'.pos);
        rest := Tail(rest);
        if u.kind != ObjectEnd && u.kind != ArraySeparator {
          rest := SameFail(doc, doc', MissingCommaInObject, u, u', ObjectEnd, ObjectValue(extended), rest);
        } else if u.kind == ObjectEnd {
          NoMessages();
        } else {
          rest := SameMembers(doc, u.end, doc', u'.end, e, extended, name, rest);
        }
      }
    }
  }

  lemma {:induction false} SameArray(doc: string, i: nat, doc': string, i': nat, e: Settings, ts: seq<string>)
    returns (rest: seq<string>)
    requires Alike(doc, i, doc', i', ts)
    ensures SameOutcome(doc, P.ReadArray(doc, e, i), doc', P.ReadArray(doc', e, i'), rest) && |rest| <= |ts|
    decreases |ts|, 3
  {
    hide P.ReadToken, Alike, Tail, ReadElements, SameToken;
    var j, j' := SkipInto(doc, i, doc', i', ts);
    if At(doc, j) == ']' {
      BothRead(doc, j, doc', j', ts);
      NoMessages();
      rest := Tail(ts);
    } else {
      rest := SameElements(doc, j, doc', j', e, Empty, 0, ts);
    }
  }

  /** Past the blanks both texts show the same character, or both end. */
  lemma SkipInto(doc: string, i: nat, doc': string, i': nat, ts: seq<string>) returns (j: nat, j': nat)
    requires Alike(doc, i, doc', i', ts)
    ensures j == SkipSpaces(doc, i) && j' == SkipSpaces(doc', i') && Alike(doc, j, doc', j', ts) && At(doc, j) == At(doc', j')
  {
    hide P.SkipSpaces, P.TokenAt, Head, Tail, WellLexed, T.RendersAt, KindOf;
    j, j' := SkipSpaces(doc, i), SkipSpaces(doc', i');
    RendersAfterSkip(doc, i, ts);
    RendersAfterSkip(doc', i', ts);
    TokenOf(doc, i, ts);
    TokenOf(doc', i', ts);
    FirstOf(doc, j, Head(ts));
    FirstOf(doc', j', Head(ts));
  }

  lemma FirstOf(doc: string, j: nat, text: string)
    requires j <= |doc| && var t := TokenAt(doc, j); doc[t.start..t.end] == text
    ensures At(doc, j) == if text == "" then '\0' else text[0]
  {
  }

  lemma {:induction false} SameElements(
      doc: string, i: nat, doc': string, i': nat, e: Settings, elements: ObjectValues, index: nat, ts: seq<string>)
    returns (rest: seq<string>)
    requires Alike(doc, i, doc', i', ts)
    ensures SameOutcome(doc, ReadElements(doc, e, i, elements, index), doc', ReadElements(doc', e, i', elements, index), rest)
    ensures |rest| <= |ts|
    decreases |ts|, 2
  {
    hide P.ReadToken, P.NextToken, Alike, Tail, Recover, Messages, P.ReadValue, Put, Slot, SameToken, Fail;
    var key := Index(index);
    rest := SameValue(doc, i, doc', i', e, Slot(elements, key), ts);
    var r, r' := P.ReadValue(doc, e, i, Slot(elements, key)), P.ReadValue(doc', e, i', Slot(elements, key));
    var extended := Put(elements, key, r.value);
    if !r.ok {
      rest := SameRecover(doc, r.pos, doc', r'.pos, ArrayEnd, rest);
    } else {
      BothRead(doc, r.pos, doc', r'.pos, rest);
      var t, t' := P.ReadToken(doc, r.pos), P.ReadToken(doc', r'.pos);
      var had := rest;
      rest := Tail(rest);
      if t.kind != ArraySeparator && t.kind != ArrayEnd {
        rest := SameFail(doc, doc', MissingCommaInArray, t, t', ArrayEnd, ArrayValue(extended), rest);
      } else if t.kind == ArrayEnd {
        NoMessages();
      } else {
        rest := SameElements(doc, t.end, doc', t'.end, e, extended, index + 1, rest);
      }
    }
  }

  // ------------------------------------------------------------------ whole documents

  /** Reading depends on the lexemes only: texts that lay out the same ones give the same answer, the same root and
    * the same error messages, under every setting and over every previous root. */
  lemma {:induction false} SameLexemesSameParse(text: string, text': string, e: Settings, root: Value, ts: seq<string>)
    requires LaysOut(text, ts) && LaysOut(text', ts) && WellLexed(ts)
    ensures var r, r' := Parse(text, e, root), Parse(text', e, root);
            r.ok == r'.ok && r.value == r'.value && Messages(r.errors) == Messages(r'.errors)
  {
    hide P.ReadValue, P.SkipCommentTokens, WellLexed, T.RendersAt, Messages;
    var rest := SameValue(text, 0, text', 0, e, root, ts);
    var r, r' := P.ReadValue(text, e, 0, root), P.ReadValue(text', e, 0, root);
    var whole, whole' := Token(ErrorToken, 0, |text|), Token(ErrorToken, 0, |text'|);
    MessagesAppend(r.errors, ErrorInfo(ContainerExpected, whole, None));
    MessagesAppend(r'.errors, ErrorInfo(ContainerExpected, whole', None));
  }

  lemma MessagesAppend(errors: seq<ErrorInfo>, x: ErrorInfo)
    ensures Messages(errors + [x]) == Messages(errors) + [x.message]
  {
  }

  // ------------------------------------------------------------------ what printers emit

  lemma {:induction false} TokensWellLexed(v: Value, style: Style, rest: seq<string>)
    requires WellFormed(v) && style.nullText in ["null", ""] && PrintsNumbers(style.printDouble)
    requires WellLexed(rest) && R.Closing(rest)
    ensures WellLexed(Tokens(v, style) + rest)
    decreases Size(v), 0, 0
  {
    hide WellLexed, R.Closing, T.ElementTokens, T.MemberTokens, T.MapWellFormed, Rounds;
    match v
    case ArrayValue(m) =>
      var inner := ElementTokens(m, 0, Rounds(ArraySize(m)), style);
      MarkFirst("]", rest);
      ElementsWellLexed(m, 0, Rounds(ArraySize(m)), style, ["]"] + rest);
      MarkFirst("[", inner + (["]"] + rest));
      R.Regroup("[", inner, "]", rest);
    case ObjectValue(m) =>
      var inner := MemberTokens(m, style);
      MarkFirst("}", rest);
      MembersWellLexed(m, style, ["}"] + rest);
      MarkFirst("{", inner + (["}"] + rest));
      R.Regroup("{", inner, "}", rest);
    case _ => ScalarWellLexed(v, style, rest);
  }

  lemma {:induction false} MarkFirst(mark: string, rest: seq<string>)
    requires IsMark(mark) && WellLexed(rest)
    ensures WellLexed([mark] + rest)
    ensures mark in [",", "]", "}"] ==> R.Closing([mark] + rest)
  {
    assert ([mark] + rest)[1..] == rest;
  }

  lemma {:induction false} ScalarWellLexed(v: Value, style: Style, rest: seq<string>)
    requires !v.ArrayValue? && !v.ObjectValue? && style.nullText in ["null", ""] && PrintsNumbers(style.printDouble)
    requires WellLexed(rest) && R.Closing(rest)
    ensures WellLexed(Tokens(v, style) + rest)
  {
    hide N.NumberLexeme, IsString;
    var t := ScalarLexeme(v, style);
    assert ([t] + rest)[1..] == rest;
    ClosingIsNoNumber(rest);
  }

  lemma ScalarLexeme(v: Value, style: Style) returns (t: string)
    requires !v.ArrayValue? && !v.ObjectValue? && style.nullText in ["null", ""] && PrintsNumbers(style.printDouble)
    ensures Tokens(v, style) == [t] && (t == "" || Lexeme(t))
  {
    hide S.Quoted, N.NumberLexeme, IsString, IsMark;
    t := Tokens(v, style)[0];
    match v
    case IntValue(i) => N.PrintThenDecode(i);
    case UIntValue(u) => N.PrintThenDecode(u);
    case StringValue(s) => if s.Some? { QuotedIsString(s.value); }
    case _ =>
  }

  lemma {:induction false} ClosingIsNoNumber(rest: seq<string>)
    requires R.Closing(rest)
    ensures !N.NumberLexeme(Head(rest))
  {
    if rest != [] {
      assert rest[0] != "";
    }
  }

  lemma QuotedIsString(s: string)
    ensures IsString(S.Quoted(s))
  {
    hide S.QuoteBody, R.Passed;
    R.QuotePasses(s);
    var t := S.Quoted(s);
    assert t[1..|t| - 1] == S.QuoteBody(s);
  }

  lemma {:induction false} ElementsWellLexed(m: ObjectValues, k: nat, n: nat, style: Style, rest: seq<string>)
    requires MapWellFormed(m) && style.nullText in ["null", ""] && PrintsNumbers(style.printDouble)
    requires WellLexed(rest) && R.Closing(rest)
    ensures WellLexed(ElementTokens(m, k, n, style) + rest)
    decreases SizeOfMap(m), 1, n - k
  {
    hide WellLexed, R.Closing, T.Tokens, T.MapWellFormed;
    if k >= n {
      assert ElementTokens(m, k, n, style) + rest == rest;
    } else {
      var more := ElementParts(m, k, n, style, rest);
      if k + 1 < n {
        ElementsWellLexed(m, k + 1, n, style, rest);
        MarkFirst(",", ElementTokens(m, k + 1, n, style) + rest);
      }
      var found := Find(m, Index(k));
      if found.Some? {
        TokensWellLexed(found.value, style, more);
      } else {
        ScalarWellLexed(NullValue, style, more);
      }
    }
  }

  lemma ElementParts(m: ObjectValues, k: nat, n: nat, style: Style, rest: seq<string>) returns (more: seq<string>)
    requires k < n && MapWellFormed(m)
    ensures more == if k + 1 < n then [","] + (ElementTokens(m, k + 1, n, style) + rest) else rest
    ensures var v := Slot(m, Index(k));
            WellFormed(v) && ElementTokens(m, k, n, style) + rest == Tokens(v, style) + more
  {
    FindWellFormed(m, Index(k));
    hide T.MapWellFormed, T.ElementTokens, T.Tokens, Slot;
    FirstElement(m, k, n, style);
    var after := if k + 1 < n then [","] + ElementTokens(m, k + 1, n, style) else [];
    more := after + rest;
    assert Tokens(Slot(m, Index(k)), style) + after + rest == Tokens(Slot(m, Index(k)), style) + more;
  }

  lemma {:induction false} MembersWellLexed(m: ObjectValues, style: Style, rest: seq<string>)
    requires MapWellFormed(m) && Named(m) && style.nullText in ["null", ""] && PrintsNumbers(style.printDouble)
    requires WellLexed(rest) && R.Closing(rest)
    ensures WellLexed(MemberTokens(m, style) + rest)
    decreases SizeOfMap(m), 1, 0
  {
    hide WellLexed, S.Quoted, R.Closing, T.Tokens, T.MapWellFormed, T.Named;
    if m.Empty? {
      assert MemberTokens(m, style) + rest == rest;
    } else {
      var more := MemberParts(m, style, rest);
      if m.rest.Entry? {
        MembersWellLexed(m.rest, style, rest);
        MarkFirst(",", MemberTokens(m.rest, style) + rest);
      }
      TokensWellLexed(m.value, style, more);
      MarkFirst(":", Tokens(m.value, style) + more);
      NameFirst(m.key.cstr, [":"] + (Tokens(m.value, style) + more));
    }
  }

  lemma MemberParts(m: ObjectValues, style: Style, rest: seq<string>) returns (more: seq<string>)
    requires m.Entry? && MapWellFormed(m) && Named(m)
    ensures m.key.Name? && WellFormed(m.value) && MapWellFormed(m.rest) && Named(m.rest)
    ensures more == if m.rest.Entry? then [","] + (MemberTokens(m.rest, style) + rest) else rest
    ensures MemberTokens(m, style) + rest == [S.Quoted(m.key.cstr)] + ([":"] + (Tokens(m.value, style) + more))
  {
    FirstMember(m, style);
    hide S.Quoted, T.Tokens, T.MemberTokens;
    var after := if m.rest.Entry? then [","] + MemberTokens(m.rest, style) else [];
    more := after + rest;
    Regroup(S.Quoted(m.key.cstr), ":", Tokens(m.value, style), after, rest);
    Prepend(",", MemberTokens(m.rest, style), rest);
  }

  lemma Regroup(a: string, b: string, value: seq<string>, after: seq<string>, rest: seq<string>)
    ensures [a, b] + value + after + rest == [a] + ([b] + (value + (after + rest)))
    ensures after == [] ==> after + rest == rest
  {
  }

  lemma Prepend(a: string, ts: seq<string>, rest: seq<string>)
    ensures [a] + ts + rest == [a] + (ts + rest)
  {
  }

  lemma {:induction false} NameFirst(name: string, rest: seq<string>)
    requires WellLexed(rest)
    ensures WellLexed([S.Quoted(name)] + rest)
  {
    hide S.QuoteBody, IsString;
    QuotedIsString(name);
    var ts := [S.Quoted(name)] + rest;
    assert ts[1..] == rest && ts[0][0] == '"';
  }

  /** For every value, even one that cannot be read back, the styled text and the running text are read alike. */
  lemma {:induction false} PrintersReadAlike(
      styled: string, v: Value, drop: bool, colon: string, omitEndingLineFeed: bool, e: Settings, root: Value)
    requires WellFormed(v) && PrintsNumbers(e.printDouble) && colon in [":", ": "]
    requires LaysOut(styled, R.Lexemes(v, e, drop))
    ensures var r, r' := Parse(styled, e, root), Parse(R.FastText(v, drop, colon, omitEndingLineFeed, e), e, root);
            r.ok == r'.ok && r.value == r'.value && Messages(r.errors) == Messages(r'.errors)
  {
    hide P.Parse, WellLexed, T.LaysOut, Messages, R.FastText, T.Tokens;
    var ts := R.Lexemes(v, e, drop);
    R.FastTextLaysOut(v, drop, colon, omitEndingLineFeed, e);
    NothingLeft();
    TokensWellLexed(v, R.StyleOf(e, drop), []);
    assert ts + [] == ts;
    SameLexemesSameParse(styled, R.FastText(v, drop, colon, omitEndingLineFeed, e), e, root, ts);
  }

  lemma NothingLeft()
    ensures WellLexed([])
  {
  }
}
