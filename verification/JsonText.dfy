/** What the tokenizer makes of blanks, comments, numbers and NUL, in the characters themselves, and what the reader says
  * of texts it refuses.
  */
module JsonText {
  import opened Wrappers
  import opened JsonValue
  import N = JsonNumber
  import S = JsonString
  import opened P = JsonParsing

  /** Blanks are the four of section 2 of RFC 8259, and all of them are skipped. */
  lemma {:induction false} BlanksAreSkipped(doc: string, i: nat)
    requires i <= |doc|
    ensures var j := SkipSpaces(doc, i);
            (forall k :: i <= k < j ==> doc[k] in " \t\n\r") && (j < |doc| ==> doc[j] !in " \t\n\r") &&
            ReadToken(doc, i) == ReadToken(doc, j) && ReadToken(doc, i).start == j
    decreases |doc| - i
  {
    var j := SkipSpaces(doc, i);
    assert SkipSpaces(doc, j) == j by { if j < |doc| { assert !IsSpace(doc[j]); } }
    if i < |doc| && IsSpace(doc[i]) { BlanksAreSkipped(doc, i + 1); }
  }

  /** The text ends at a NUL or at its end, nowhere else. */
  lemma EndOfText(doc: string, i: nat)
    requires i <= |doc|
    ensures TokenAt(doc, i).kind == EndOfStream <==> i == |doc| || doc[i] == '\0'
  {
  }

  /** A token starts with one of these characters; anything else is an error of one character. */
  lemma OtherCharacters(doc: string, i: nat)
    requires i < |doc| && doc[i] !in "{}[],:\"-0123456789tfn/\0"
    ensures TokenAt(doc, i) == Token(ErrorToken, i, i + 1)
  {
  }

  /** A number is the longest run of these characters behind a digit or a minus. */
  lemma {:induction false} NumberRuns(doc: string, i: nat)
    requires i < |doc| && doc[i] in "-0123456789"
    ensures var t := TokenAt(doc, i);
            t.kind == NumberToken && (forall k :: i < k < t.end ==> doc[k] in "0123456789.eE+-") &&
            (t.end < |doc| ==> doc[t.end] !in "0123456789.eE+-")
  {
    NumberEnds(doc, i + 1);
  }

  lemma {:induction false} NumberEnds(doc: string, i: nat)
    requires i <= |doc|
    ensures var j := NumberEnd(doc, i);
            (forall k :: i <= k < j ==> doc[k] in "0123456789.eE+-") && (j < |doc| ==> doc[j] !in "0123456789.eE+-")
    decreases |doc| - i
  {
    if i < |doc| && N.IsNumberChar(doc[i]) {
      assert N.IsDigit(doc[i]) ==> doc[i] in "0123456789";
      NumberEnds(doc, i + 1);
    }
  }

  // ------------------------------------------------------------------ comments

  /** No place of the text shows the two characters that close a comment. */
  predicate NeverCloses(doc: string, from: nat, to: nat) {
    forall k :: from <= k < to && k + 1 < |doc| ==> !(doc[k] == '*' && doc[k + 1] == '/')
  }

  lemma {:induction false} BodyEnds(doc: string, i: nat, j: nat)
    requires i <= j && j + 1 < |doc| && doc[j] == '*' && doc[j + 1] == '/' && NeverCloses(doc, i, j)
    ensures CommentBodyEnd(doc, i) == j + 1
    decreases j - i
  {
    if i < j { BodyEnds(doc, i + 1, j); }
  }

  lemma {:induction false} BodyNeverEnds(doc: string, i: nat)
    requires i <= |doc| && NeverCloses(doc, i, |doc|)
    ensures CommentBodyEnd(doc, i) == |doc|
    decreases |doc| - i
  {
    if i < |doc| { BodyNeverEnds(doc, i + 1); }
  }

  lemma {:induction false} BlockCommentToken(doc: string, i: nat, j: nat)
    requires i + 2 <= j && j + 1 < |doc| && doc[i] == '/' && doc[i + 1] == '*'
    requires doc[j] == '*' && doc[j + 1] == '/' && NeverCloses(doc, i + 2, j)
    ensures TokenAt(doc, i) == Token(CommentToken, i, j + 2)
  {
    BodyEnds(doc, i + 2, j);
    hide CommentBodyEnd;
    assert CStyleComment(doc, i + 2) == Scan(true, j + 2);
  }

  /** The reader goes on behind a comment. */
  lemma {:induction false} CommentPassed(doc: string, i: nat, end: nat)
    requires i < |doc| && doc[i] == '/' && end <= |doc| && TokenAt(doc, i) == Token(CommentToken, i, end)
    ensures NextToken(doc, i) == NextToken(doc, end) && SkipCommentTokens(doc, i, true) == SkipCommentTokens(doc, end, true)
  {
    hide TokenAt;
    assert SkipSpaces(doc, i) == i;
  }

  /** A block comment ends at the first closing mark behind its opening one; the reader goes on as if it began there. */
  lemma {:induction false} BlockComment(doc: string, i: nat, j: nat)
    requires i + 2 <= j && j + 1 < |doc| && doc[i] == '/' && doc[i + 1] == '*'
    requires doc[j] == '*' && doc[j + 1] == '/' && NeverCloses(doc, i + 2, j)
    ensures TokenAt(doc, i) == Token(CommentToken, i, j + 2) && NextToken(doc, i) == NextToken(doc, j + 2)
    ensures SkipCommentTokens(doc, i, true) == SkipCommentTokens(doc, j + 2, true)
  {
    hide TokenAt, NextToken, SkipCommentTokens;
    BlockCommentToken(doc, i, j);
    CommentPassed(doc, i, j + 2);
  }

  /** One that is never closed is no token. */
  lemma OpenComment(doc: string, i: nat)
    requires i + 1 < |doc| && doc[i] == '/' && doc[i + 1] == '*' && NeverCloses(doc, i + 2, |doc|)
    ensures TokenAt(doc, i) == Token(ErrorToken, i, |doc|)
  {
    BodyNeverEnds(doc, i + 2);
  }

  lemma {:induction false} LineEnds(doc: string, i: nat, j: nat)
    requires i <= j <= |doc| && (forall k :: i <= k < j ==> doc[k] != '\r' && doc[k] != '\n')
    requires j < |doc| ==> doc[j] == '\r' || doc[j] == '\n'
    ensures LineEnd(doc, i) == if j < |doc| then j + 1 else j
    decreases j - i
  {
    if i < j { LineEnds(doc, i + 1, j); }
  }

  /** A line comment ends with its line. */
  lemma LineComment(doc: string, i: nat, j: nat)
    requires i + 2 <= j <= |doc| && doc[i] == '/' && doc[i + 1] == '/'
    requires (forall k :: i + 2 <= k < j ==> doc[k] != '\r' && doc[k] != '\n') && (j < |doc| ==> doc[j] == '\r' || doc[j] == '\n')
    ensures var end := if j < |doc| then j + 1 else j;
            TokenAt(doc, i) == Token(CommentToken, i, end) && NextToken(doc, i) == NextToken(doc, end) &&
            SkipCommentTokens(doc, i, true) == SkipCommentTokens(doc, end, true)
  {
    LineEnds(doc, i + 2, j);
    assert SkipSpaces(doc, i) == i;
  }

  /** A slash in front of anything else is an error. */
  lemma LoneSlash(doc: string, i: nat)
    requires i < |doc| && doc[i] == '/' && (i + 1 < |doc| ==> doc[i + 1] != '/' && doc[i + 1] != '*')
    ensures TokenAt(doc, i).kind == ErrorToken
  {
  }

  /** Where comments are not allowed a value cannot start with one. */
  lemma {:induction false} CommentsForbidden(doc: string, e: Settings, i: nat, cur: Value)
    requires i <= |doc| && !e.features.allowComments && ReadToken(doc, i).kind == CommentToken
    ensures ReadValue(doc, e, i, cur) == Outcome(false, ReadToken(doc, i).end, cur, [ErrorInfo(ValueExpected, ReadToken(doc, i), None)])
  {
  }

  /** A name that holds a NUL ends there. */
  lemma {:induction false} NamesEndAtNul(s: string, t: string)
    requires '\0' !in s
    ensures Truncate(s) == s && Truncate(s + "\0" + t) == s
  {
    if s == "" {
      assert (s + "\0" + t)[0] == '\0';
    } else {
      assert s[0] in s && (s + "\0" + t)[0] == s[0] && (s + "\0" + t)[1..] == s[1..] + "\0" + t;
      NamesEndAtNul(s[1..], t);
      assert s == [s[0]] + s[1..];
    }
  }

  // ------------------------------------------------------------------ refusals

  predicate Plain(e: Settings) { e.features == Features(true, false, false, false) }

  /** A message, its token and the place it points at; what had been read by then stays in the root. */
  predicate Says(doc: string, e: Settings, message: Message, token: Token, extra: Option<nat>, root: Value) {
    var r := Parse(doc, e, NullValue);
    !r.ok && r.errors == [ErrorInfo(message, token, extra)] && r.value == root
  }

  /** The token at a place that is no blank and starts no comment. */
  lemma {:induction false} TokenHere(doc: string, i: nat)
    requires i < |doc| && doc[i] !in " \t\n\r/"
    ensures ReadToken(doc, i) == TokenAt(doc, i) == NextToken(doc, i)
    ensures forall b :: SkipCommentTokens(doc, i, b) == TokenAt(doc, i)
  {
    assert SkipSpaces(doc, i) == i;
    assert TokenAt(doc, i).kind != CommentToken;
  }

  lemma TrueAt(doc: string, i: nat)
    requires i + 4 <= |doc| && doc[i..i + 4] == "true"
    ensures doc[i] == 't' && TokenAt(doc, i) == Token(TrueToken, i, i + 4)
  {
    assert doc[i] == doc[i..i + 4][0] && doc[i + 1..i + 4] == doc[i..i + 4][1..];
  }

  lemma BracketThenBrace(e: Settings)
    requires Plain(e)
    ensures Says("[true}", e, MissingCommaInArray, Token(ObjectEnd, 5, 6), None, ArrayValue(Entry(Index(0), BooleanValue(true), Empty)))
  {
    var doc := "[true}";
    TrueAt(doc, 1);
    TokenHere(doc, 0);
    TokenHere(doc, 1);
    TokenHere(doc, 5);
    assert TokenAt(doc, 0) == Token(ArrayBegin, 0, 1) && TokenAt(doc, 5) == Token(ObjectEnd, 5, 6);
    assert SkipSpaces(doc, 1) == 1;
    hide Recover, TokenAt, SkipSpaces, NextToken;
    assert ReadArray(doc, e, 1) == ReadElements(doc, e, 1, Empty, 0);
  }

  /** The reader after the name of a first member. */
  lemma {:induction false} FirstMember(doc: string, e: Settings)
    requires |doc| >= 5 && doc[..4] == "{\"a\"" && doc[4] !in " \t\n\r/"
    ensures ReadValue(doc, e, 0, NullValue) == ReadMemberValue(doc, e, 4, Empty, "a")
    ensures ReadToken(doc, 4) == TokenAt(doc, 4)
  {
    assert doc[0] == doc[..4][0] && doc[1] == doc[..4][1] && doc[2] == doc[..4][2] && doc[3] == doc[..4][3];
    TokenHere(doc, 0);
    TokenHere(doc, 1);
    TokenHere(doc, 4);
    assert StringEnd(doc, 2) == StringEnd(doc, 3) == Scan(true, 4);
    assert TokenAt(doc, 0) == Token(ObjectBegin, 0, 1) && TokenAt(doc, 1) == Token(StringToken, 1, 4);
    assert Contents(doc, TokenAt(doc, 1)) == "a";
    OneLetter("a");
    hide Recover, TokenAt, SkipSpaces, NextToken, ReadMemberValue, S.DecodeBody;
    assert NameOf(doc, e, NextToken(doc, 1)) == MemberName("a");
  }

  lemma {:induction false} OneLetter(s: string)
    requires |s| == 1 && s[0] != '"' && s[0] != '\\'
    ensures S.DecodeBody(s, 0, "") == S.Text(s)
  {
    assert S.DecodeBody(s, 1, "" + [s[0]]) == S.Text("" + [s[0]]);
    assert "" + [s[0]] == s;
  }

  /** The one error of a failed read is the one the parse reports. */
  lemma {:induction false} FailSays(doc: string, e: Settings, message: Message, t: Token, until: TokenType, value: Value)
    requires Plain(e) && t.end <= |doc| && ReadValue(doc, e, 0, NullValue) == Fail(doc, message, t, until, value)
    ensures Says(doc, e, message, t, None, value)
  {
    hide Recover, ReadValue, SkipCommentTokens;
  }

  lemma {:induction false} ColonMissing(doc: string, e: Settings, i: nat, members: ObjectValues, name: string)
    requires i <= |doc| && ReadToken(doc, i).kind != MemberSeparator
    ensures ReadMemberValue(doc, e, i, members, name) == Fail(doc, MissingColon, ReadToken(doc, i), ObjectEnd, ObjectValue(members))
  {
    hide Fail, ReadToken;
  }

  lemma {:induction false} NameMissing(doc: string, e: Settings, i: nat, members: ObjectValues, name: string)
    requires i <= |doc| && name != "" && NextToken(doc, i).kind == ObjectEnd
    ensures ReadMembers(doc, e, i, members, name) ==
            Fail(doc, MissingBraceOrName, NextToken(doc, i), ObjectEnd, ObjectValue(members))
  {
    hide Fail, NextToken, ReadMemberValue;
  }

  lemma NoColon(e: Settings)
    requires Plain(e)
    ensures Says("{\"a\",true}", e, MissingColon, Token(ArraySeparator, 4, 5), None, ObjectValue(Empty))
  {
    var doc := "{\"a\",true}";
    assert doc[..4] == "{\"a\"";
    assert TokenAt(doc, 4) == Token(ArraySeparator, 4, 5);
    hide Says, TokenAt, ReadValue, ReadToken, ReadMemberValue, Fail;
    FirstMember(doc, e);
    ColonMissing(doc, e, 4, Empty, "a");
    FailSays(doc, e, MissingColon, Token(ArraySeparator, 4, 5), ObjectEnd, ObjectValue(Empty));
  }

  lemma {:induction false} TrueReads(doc: string, e: Settings, i: nat, cur: Value)
    requires i + 4 <= |doc| && doc[i..i + 4] == "true"
    ensures ReadValue(doc, e, i, cur) == Outcome(true, i + 4, BooleanValue(true), [])
  {
    TrueAt(doc, i);
    TokenHere(doc, i);
    hide TokenAt, SkipCommentTokens;
  }

  /** A member whose value was read, and what follows it. */
  lemma {:induction false} MemberGoesOn(doc: string, e: Settings, i: nat, members: ObjectValues, name: string, r: Outcome)
    requires i <= |doc| && ReadToken(doc, i) == Token(MemberSeparator, i, i + 1) && i + 1 <= |doc| && r.ok
    requires r == ReadValue(doc, e, i + 1, Slot(members, Name(Truncate(name))))
    requires NextToken(doc, r.pos) == ReadToken(doc, r.pos)
    ensures var t := ReadToken(doc, r.pos);
            var extended := Put(members, Name(Truncate(name)), r.value);
            ReadMemberValue(doc, e, i, members, name) ==
            if t.kind != ObjectEnd && t.kind != ArraySeparator && t.kind != CommentToken then
              Fail(doc, MissingCommaInObject, t, ObjectEnd, ObjectValue(extended))
            else if t.kind == ObjectEnd then Outcome(true, t.end, ObjectValue(extended), [])
            else ReadMembers(doc, e, t.end, extended, name)
  {
    hide ReadValue, ReadToken, NextToken, Put, Slot, Truncate, Fail, ReadMembers;
  }

  lemma {:induction false} AfterColon(doc: string, e: Settings)
    requires |doc| >= 10 && doc[..9] == "{\"a\":true" && doc[9] !in " \t\n\r/"
    ensures var members := Entry(Name("a"), BooleanValue(true), Empty);
            var t := TokenAt(doc, 9);
            NextToken(doc, 9) == t && ReadToken(doc, 9) == t &&
            ReadValue(doc, e, 0, NullValue) ==
            if t.kind != ObjectEnd && t.kind != ArraySeparator && t.kind != CommentToken then
              Fail(doc, MissingCommaInObject, t, ObjectEnd, ObjectValue(members))
            else if t.kind == ObjectEnd then Outcome(true, t.end, ObjectValue(members), [])
            else ReadMembers(doc, e, t.end, members, "a")
  {
    assert doc[..4] == doc[..9][..4] && doc[4] == doc[..9][4] && doc[5..9] == doc[..9][5..] == "true";
    assert TokenAt(doc, 4) == Token(MemberSeparator, 4, 5);
    hide TokenAt, ReadToken, SkipCommentTokens, ReadMembers, ReadMemberValue, ReadValue, NextToken, Truncate, Fail;
    FirstMember(doc, e);
    TokenHere(doc, 9);
    NamesEndAtNul("a", "");
    var r := Outcome(true, 9, BooleanValue(true), []);
    TrueReads(doc, e, 5, Slot(Empty, Name("a")));
    MemberGoesOn(doc, e, 4, Empty, "a", r);
  }

  lemma BraceThenBracket(e: Settings)
    requires Plain(e)
    ensures Says("{\"a\":true]", e, MissingCommaInObject, Token(ArrayEnd, 9, 10), None,
                 ObjectValue(Entry(Name("a"), BooleanValue(true), Empty)))
  {
    var doc := "{\"a\":true]";
    assert doc[..9] == "{\"a\":true";
    assert TokenAt(doc, 9) == Token(ArrayEnd, 9, 10);
    hide Says, TokenAt, ReadValue, ReadToken, Fail;
    AfterColon(doc, e);
    FailSays(doc, e, MissingCommaInObject, Token(ArrayEnd, 9, 10), ObjectEnd, ObjectValue(Entry(Name("a"), BooleanValue(true), Empty)));
  }

  /** A comma needs a member behind it. */
  lemma TrailingComma(e: Settings)
    requires Plain(e)
    ensures Says("{\"a\":true,}", e, MissingBraceOrName, Token(ObjectEnd, 10, 11), None,
                 ObjectValue(Entry(Name("a"), BooleanValue(true), Empty)))
  {
    var doc := "{\"a\":true,}";
    var members := Entry(Name("a"), BooleanValue(true), Empty);
    assert doc[..9] == "{\"a\":true";
    assert TokenAt(doc, 9) == Token(ArraySeparator, 9, 10) && TokenAt(doc, 10) == Token(ObjectEnd, 10, 11);
    TokenHere(doc, 10);
    hide Says, TokenAt, ReadValue, ReadToken, NextToken, ReadMembers, Fail;
    AfterColon(doc, e);
    NameMissing(doc, e, 10, members, "a");
    FailSays(doc, e, MissingBraceOrName, Token(ObjectEnd, 10, 11), ObjectEnd, ObjectValue(members));
  }

  lemma NameExpected(e: Settings)
    requires Plain(e)
    ensures Says("{true}", e, MissingBraceOrName, Token(TrueToken, 1, 5), None, ObjectValue(Empty))
  {
    var doc := "{true}";
    TrueAt(doc, 1);
    TokenHere(doc, 0);
    TokenHere(doc, 1);
    assert TokenAt(doc, 0) == Token(ObjectBegin, 0, 1);
    hide Recover, TokenAt, ReadToken, SkipCommentTokens, NextToken;
  }

  lemma NoValue(e: Settings)
    requires Plain(e)
    ensures Says("]", e, ValueExpected, Token(ArrayEnd, 0, 1), None, NullValue)
    ensures Says(",", e, ValueExpected, Token(ArraySeparator, 0, 1), None, NullValue)
  {
    TokenHere("]", 0);
    TokenHere(",", 0);
    assert TokenAt("]", 0) == Token(ArrayEnd, 0, 1) && TokenAt(",", 0) == Token(ArraySeparator, 0, 1);
    hide Recover, TokenAt, ReadToken, SkipCommentTokens, NextToken;
  }

  /** The place is that of the character behind the backslash. */
  lemma WrongEscape(e: Settings)
    requires Plain(e)
    ensures Says("\"\\x\"", e, BadString(S.BadEscape), Token(StringToken, 0, 4), Some(3), NullValue)
  {
    var doc := "\"\\x\"";
    TokenHere(doc, 0);
    assert StringEnd(doc, 1) == StringEnd(doc, 3) == Scan(true, 4);
    assert TokenAt(doc, 0) == Token(StringToken, 0, 4);
    assert Contents(doc, TokenAt(doc, 0)) == "\\x";
    assert S.DecodeBody("\\x", 0, "") == S.BadText(S.BadEscape, 2);
    hide Recover, TokenAt, ReadToken, SkipCommentTokens, NextToken, S.DecodeBody;
  }

  /** A number the C library cannot scan. */
  lemma WrongNumber(e: Settings)
    requires Plain(e) && e.scanDouble("-.") == None
    ensures Says("-.", e, NotANumber, Token(NumberToken, 0, 2), None, NullValue)
  {
    var doc := "-.";
    TokenHere(doc, 0);
    assert NumberEnd(doc, 1) == NumberEnd(doc, 2) == 2;
    assert TokenAt(doc, 0) == Token(NumberToken, 0, 2);
    assert doc[0..2] == doc;
    assert doc[1] in ".eE+";
    assert N.LooksReal(doc);
    hide Recover, TokenAt, ReadToken, SkipCommentTokens, NextToken;
  }

  /** A strict root has to be an array or an object; the error's token is the whole text. */
  lemma StrictRoot(e: Settings)
    requires e.features.strictRoot
    ensures Says("true", e, ContainerExpected, Token(ErrorToken, 0, 4), None, BooleanValue(true))
  {
    var doc := "true";
    assert doc[0..4] == "true";
    TrueAt(doc, 0);
    TokenHere(doc, 0);
    hide Recover, TokenAt, ReadToken, SkipCommentTokens, NextToken;
    assert ReadValue(doc, e, 0, NullValue) == Outcome(true, 4, BooleanValue(true), []);
  }

  // ------------------------------------------------------------------ a liberty

  /** A comment behind a member's value stands for the comma, and whatever comes behind the comment, unless it is the
    * closing brace, is dropped. */
  lemma {:induction false} CommentForComma(doc: string, e: Settings, i: nat, members: ObjectValues, name: string, r: Outcome)
    requires i <= |doc| && ReadToken(doc, i) == Token(MemberSeparator, i, i + 1) && i + 1 <= |doc| && r.ok
    requires r == ReadValue(doc, e, i + 1, Slot(members, Name(Truncate(name))))
    requires ReadToken(doc, r.pos).kind == CommentToken && NextToken(doc, r.pos).kind != ObjectEnd
    ensures ReadMemberValue(doc, e, i, members, name) ==
            ReadMembers(doc, e, NextToken(doc, r.pos).end, Put(members, Name(Truncate(name)), r.value), name)
  {
    hide ReadValue, ReadToken, NextToken, Put, Slot, Truncate, Fail, ReadMembers;
  }
}
