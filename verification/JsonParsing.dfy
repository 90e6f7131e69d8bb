/** What jsoncpp's `Reader` computes, as functions of the document and a position.
  *
  * The document is the text from `begin_` to `end_`; a position is `current_ - begin_`.
  * The value under construction is passed in and out, so that a failed read leaves behind
  * what the source leaves behind.
  */
module JsonParsing {
  import opened Wrappers
  import opened JsonValue
  import N = JsonNumber
  import S = JsonString

  datatype Features = Features(
    allowComments: bool,
    strictRoot: bool,
    allowDroppedNullPlaceholders: bool,
    allowNumericKeys: bool)

  /** The reader's configuration, with the C library's conversions between text and `double`. */
  datatype Settings = Settings(
    features: Features,
    scanDouble: string -> Option<real>,
    printDouble: real -> string)

  datatype TokenType =
    | EndOfStream | ObjectBegin | ObjectEnd | ArrayBegin | ArrayEnd | StringToken | NumberToken
    | TrueToken | FalseToken | NullToken | ArraySeparator | MemberSeparator | CommentToken | ErrorToken

  datatype Token = Token(kind: TokenType, start: nat, end: nat)

  datatype Message =
    | ValueExpected | MissingColon | MissingCommaInObject | MissingBraceOrName | MissingCommaInArray
    | NotANumber | BadString(error: S.StringError) | ContainerExpected

  datatype ErrorInfo = ErrorInfo(message: Message, token: Token, extra: Option<nat>)

  // ------------------------------------------------------------------ characters

  /** `*current_`; the character at `end_` is the document's terminating NUL. */
  function At(doc: string, i: nat): char { if i < |doc| then doc[i] else '\0' }

  /** Where `getNextChar` leaves the cursor. */
  function Next(doc: string, i: nat): (j: nat)
    requires i <= |doc|
    ensures i <= j <= |doc|
  {
    if i < |doc| then i + 1 else i
  }

  predicate IsSpace(c: char) { c == ' ' || c == '\t' || c == '\r' || c == '\n' }

  function SkipSpaces(doc: string, i: nat): (j: nat)
    requires i <= |doc|
    ensures i <= j <= |doc|
    ensures j < |doc| ==> !IsSpace(doc[j])
    decreases |doc| - i
  {
    if i < |doc| && IsSpace(doc[i]) then SkipSpaces(doc, i + 1) else i
  }

  /** The outcome of scanning the rest of a token. */
  datatype Scan = Scan(ok: bool, pos: nat)

  /** `match`: the cursor moves only when the whole pattern is there. */
  function Match(doc: string, i: nat, pattern: string): (r: Scan)
    requires i <= |doc|
    ensures i <= r.pos <= |doc|
  {
    if i + |pattern| <= |doc| && doc[i..i + |pattern|] == pattern then Scan(true, i + |pattern|) else Scan(false, i)
  }

  function NumberEnd(doc: string, i: nat): (j: nat)
    requires i <= |doc|
    ensures i <= j <= |doc|
    decreases |doc| - i
  {
    if i < |doc| && N.IsNumberChar(doc[i]) then NumberEnd(doc, i + 1) else i
  }

  /** `readString` after the opening quote. */
  function StringEnd(doc: string, i: nat): (r: Scan)
    requires i <= |doc|
    ensures i <= r.pos <= |doc|
    ensures r.ok ==> i < r.pos
    decreases |doc| - i
  {
    if i == |doc| then Scan(false, i)
    else if doc[i] == '\\' then StringEnd(doc, Next(doc, i + 1))
    else if doc[i] == '"' then Scan(true, i + 1)
    else StringEnd(doc, i + 1)
  }

  /** The loop of `readCStyleComment`. */
  function CommentBodyEnd(doc: string, i: nat): (j: nat)
    requires i <= |doc|
    ensures i <= j <= |doc|
    decreases |doc| - i
  {
    if i == |doc| then i
    else if doc[i] == '*' && At(doc, i + 1) == '/' then i + 1
    else CommentBodyEnd(doc, i + 1)
  }

  function CStyleComment(doc: string, i: nat): (r: Scan)
    requires i <= |doc|
    ensures i <= r.pos <= |doc|
  {
    var j := CommentBodyEnd(doc, i);
    Scan(At(doc, j) == '/', Next(doc, j))
  }

  function LineEnd(doc: string, i: nat): (j: nat)
    requires i <= |doc|
    ensures i <= j <= |doc|
    decreases |doc| - i
  {
    if i == |doc| then i else if doc[i] == '\r' || doc[i] == '\n' then i + 1 else LineEnd(doc, i + 1)
  }

  /** `readComment` after the first slash. */
  function Comment(doc: string, i: nat): (r: Scan)
    requires i <= |doc|
    ensures i <= r.pos <= |doc|
  {
    var j := Next(doc, i);
    if At(doc, i) == '*' then CStyleComment(doc, j)
    else if At(doc, i) == '/' then Scan(true, LineEnd(doc, j))
    else Scan(false, j)
  }

  // ------------------------------------------------------------------ tokens

  function Scanned(kind: TokenType, start: nat, r: Scan): Token {
    Token(if r.ok then kind else ErrorToken, start, r.pos)
  }

  /** The token whose first character is at `start`. */
  function TokenAt(doc: string, start: nat): (t: Token)
    requires start <= |doc|
    ensures t.start == start <= t.end <= |doc|
    ensures start < |doc| ==> start < t.end
    ensures start == |doc| ==> t.kind == EndOfStream
    ensures t.kind == StringToken ==> start + 2 <= t.end
    ensures t.kind == NumberToken ==> start + 1 <= t.end
  {
    var c := At(doc, start);
    var i := Next(doc, start);
    if c == '{' then Token(ObjectBegin, start, i)
    else if c == '}' then Token(ObjectEnd, start, i)
    else if c == '[' then Token(ArrayBegin, start, i)
    else if c == ']' then Token(ArrayEnd, start, i)
    else if c == '"' then Scanned(StringToken, start, StringEnd(doc, i))
    else if c == '/' then Scanned(CommentToken, start, Comment(doc, i))
    else if N.IsDigit(c) || c == '-' then Token(NumberToken, start, NumberEnd(doc, i))
    else if c == 't' then Scanned(TrueToken, start, Match(doc, i, "rue"))
    else if c == 'f' then Scanned(FalseToken, start, Match(doc, i, "alse"))
    else if c == 'n' then Scanned(NullToken, start, Match(doc, i, "ull"))
    else if c == ',' then Token(ArraySeparator, start, i)
    else if c == ':' then Token(MemberSeparator, start, i)
    else if c == '\0' then Token(EndOfStream, start, i)
    else Token(ErrorToken, start, i)
  }

  /** `readToken`. */
  function ReadToken(doc: string, i: nat): (t: Token)
    requires i <= |doc|
    ensures i <= t.start <= t.end <= |doc|
    ensures t.kind != EndOfStream ==> i < t.end
    ensures t.kind == StringToken ==> t.start + 2 <= t.end
    ensures t.kind == NumberToken ==> t.start + 1 <= t.end
  {
    TokenAt(doc, SkipSpaces(doc, i))
  }

  /** The first token that is not a comment. */
  function NextToken(doc: string, i: nat): (t: Token)
    requires i <= |doc|
    ensures i <= t.start <= t.end <= |doc|
    ensures t.kind != CommentToken
    ensures t.kind != EndOfStream ==> i < t.end
    ensures t.kind == StringToken ==> t.start + 2 <= t.end
    ensures t.kind == NumberToken ==> t.start + 1 <= t.end
    decreases |doc| - i
  {
    var t := ReadToken(doc, i);
    if t.kind == CommentToken then NextToken(doc, t.end) else t
  }

  /** `skipCommentTokens`. */
  function SkipCommentTokens(doc: string, i: nat, allowComments: bool): (t: Token)
    requires i <= |doc|
    ensures i <= t.start <= t.end <= |doc|
    ensures t.kind != EndOfStream ==> i < t.end
    ensures t.kind == StringToken ==> t.start + 2 <= t.end
    ensures t.kind == NumberToken ==> t.start + 1 <= t.end
  {
    if allowComments then NextToken(doc, i) else ReadToken(doc, i)
  }

  /** Where `recoverFromError` stops. */
  function Recover(doc: string, i: nat, until: TokenType): (j: nat)
    requires i <= |doc|
    ensures i <= j <= |doc|
    decreases |doc| - i
  {
    var t := ReadToken(doc, i);
    if t.kind == until || t.kind == EndOfStream then t.end else Recover(doc, t.end, until)
  }

  // ------------------------------------------------------------------ maps and scalars

  /** `std::map` lookup. */
  function Find(m: ObjectValues, key: CZString): (r: Option<Value>)
    ensures r.Some? ==> Size(r.value) < 1 + SizeOfMap(m)
  {
    match m
    case Empty => None
    case Entry(k, v, rest) => if k == key then Some(v) else Find(rest, key)
  }

  /** Insertion at, or replacement of, the entry with the given key. */
  function Put(m: ObjectValues, key: CZString, value: Value): ObjectValues {
    match m
    case Empty => Entry(key, value, Empty)
    case Entry(k, v, rest) =>
      if k == key then Entry(k, value, rest)
      else if KeyLess(key, k) then Entry(key, value, m)
      else Entry(k, v, Put(rest, key, value))
  }

  /** The value an inserting `operator[]` refers to. */
  function Slot(m: ObjectValues, key: CZString): Value {
    match Find(m, key)
    case Some(v) => v
    case None => NullValue
  }

  /** A `std::string` handed over as a `const char*` ends at its first NUL. */
  function Truncate(s: string): (c: CString) {
    if s == [] || s[0] == '\0' then ""
    else
      var rest := Truncate(s[1..]);
      [s[0]] + rest
  }

  /** `decodeNumber` with its double path; None stands for the "is not a number" error. */
  function NumberOf(e: Settings, text: string): Option<Value>
    requires text != []
  {
    match N.Decode(text)
    case Number(v) => Some(v)
    case NotANumber => None
    case UseDouble =>
      match e.scanDouble(text)
      case Some(r) => Some(RealValue(r))
      case None => None
  }

  /** `Value::asString` of a decoded number. */
  function NumberName(e: Settings, v: Value): string {
    match v
    case IntValue(i) => N.IntText(i)
    case UIntValue(u) => N.Decimal(u)
    case RealValue(r) => e.printDouble(r)
    case _ => ""
  }

  // ------------------------------------------------------------------ values

  datatype Outcome = Outcome(ok: bool, pos: nat, value: Value, errors: seq<ErrorInfo>)

  /** `addError` followed by `recoverFromError`. */
  function Fail(doc: string, message: Message, t: Token, until: TokenType, value: Value): (r: Outcome)
    requires t.end <= |doc|
    ensures t.end <= r.pos <= |doc|
  {
    Outcome(false, Recover(doc, t.end, until), value, [ErrorInfo(message, t, None)])
  }

  /** The name part of an object member: the name, or the error already recorded. */
  datatype MemberName = MemberName(name: string) | NoName | BadName(error: ErrorInfo)

  function Contents(doc: string, t: Token): string
    requires t.start + 2 <= t.end <= |doc|
  {
    doc[t.start + 1..t.end - 1]
  }

  /** The `ErrorInfo` of a failed `decodeString`, with the position it points at. */
  function StringErrorInfo(t: Token, bad: S.Text): ErrorInfo
    requires bad.BadText?
  {
    ErrorInfo(BadString(bad.error), t, Some(t.start + 1 + bad.at))
  }

  function NameOf(doc: string, e: Settings, t: Token): MemberName
    requires t.end <= |doc|
    requires t.kind == StringToken ==> t.start + 2 <= t.end
    requires t.kind == NumberToken ==> t.start + 1 <= t.end
  {
    if t.kind == StringToken then
      var text := S.DecodeBody(Contents(doc, t), 0, "");
      if text.Text? then MemberName(text.text) else BadName(StringErrorInfo(t, text))
    else if t.kind == NumberToken && e.features.allowNumericKeys then
      match NumberOf(e, doc[t.start..t.end])
      case Some(v) => MemberName(NumberName(e, v))
      case None => BadName(ErrorInfo(NotANumber, t, None))
    else NoName
  }

  /** `readValue` with the cursor at `i`, over a current value that holds `cur`. */
  function ReadValue(doc: string, e: Settings, i: nat, cur: Value): (r: Outcome)
    requires i <= |doc|
    ensures i <= r.pos <= |doc|
    decreases |doc| - i, 0
  {
    var t := SkipCommentTokens(doc, i, e.features.allowComments);
    match t.kind
    case ObjectBegin => ReadMembers(doc, e, t.end, Empty, "")
    case ArrayBegin => ReadArray(doc, e, t.end)
    case NumberToken =>
      (match NumberOf(e, doc[t.start..t.end])
       case Some(v) => Outcome(true, t.end, v, [])
       case None => Outcome(false, t.end, cur, [ErrorInfo(NotANumber, t, None)]))
    case StringToken =>
      var text := S.DecodeBody(Contents(doc, t), 0, "");
      if text.Text? then Outcome(true, t.end, StringValue(Some(Truncate(text.text))), [])
      else Outcome(false, t.end, cur, [StringErrorInfo(t, text)])
    case TrueToken => Outcome(true, t.end, BooleanValue(true), [])
    case FalseToken => Outcome(true, t.end, BooleanValue(false), [])
    case NullToken => Outcome(true, t.end, NullValue, [])
    case ArraySeparator =>
      if e.features.allowDroppedNullPlaceholders then Outcome(true, t.end - 1, NullValue, [])
      else Outcome(false, t.end, cur, [ErrorInfo(ValueExpected, t, None)])
    case _ => Outcome(false, t.end, cur, [ErrorInfo(ValueExpected, t, None)])
  }

  /** The loop of `readObject`; `name` is the name of the previous member. */
  function ReadMembers(doc: string, e: Settings, i: nat, members: ObjectValues, name: string): (r: Outcome)
    requires i <= |doc|
    ensures i <= r.pos <= |doc|
    decreases |doc| - i, 1
  {
    var t := NextToken(doc, i);
    if t.kind == ObjectEnd && name == "" then Outcome(true, t.end, ObjectValue(members), []) else
    match NameOf(doc, e, t)
    case NoName => Fail(doc, MissingBraceOrName, t, ObjectEnd, ObjectValue(members))
    case BadName(error) => Outcome(false, Recover(doc, t.end, ObjectEnd), ObjectValue(members), [error])
    case MemberName(newName) => ReadMemberValue(doc, e, t.end, members, newName)
  }

  /** The rest of a round of that loop, after the member's name, and the rounds that follow. */
  function ReadMemberValue(doc: string, e: Settings, i: nat, members: ObjectValues, name: string): (r: Outcome)
    requires i <= |doc|
    ensures i <= r.pos <= |doc|
    decreases |doc| - i, 2
  {
    var colon := ReadToken(doc, i);
    if colon.kind != MemberSeparator then Fail(doc, MissingColon, colon, ObjectEnd, ObjectValue(members)) else
    var key := Name(Truncate(name));
    var r := ReadValue(doc, e, colon.end, Slot(members, key));
    var extended := Put(members, key, r.value);
    if !r.ok then Outcome(false, Recover(doc, r.pos, ObjectEnd), ObjectValue(extended), r.errors) else
    var comma := ReadToken(doc, r.pos);
    if comma.kind != ObjectEnd && comma.kind != ArraySeparator && comma.kind != CommentToken then
      Fail(doc, MissingCommaInObject, comma, ObjectEnd, ObjectValue(extended))
    else
      var last := NextToken(doc, r.pos);
      if last.kind == ObjectEnd then Outcome(true, last.end, ObjectValue(extended), [])
      else ReadMembers(doc, e, last.end, extended, name)
  }

  /** `readArray` after the opening bracket. */
  function ReadArray(doc: string, e: Settings, i: nat): (r: Outcome)
    requires i <= |doc|
    ensures i <= r.pos <= |doc|
    decreases |doc| - i, 2
  {
    var j := SkipSpaces(doc, i);
    if At(doc, j) == ']' then Outcome(true, ReadToken(doc, j).end, ArrayValue(Empty), [])
    else ReadElements(doc, e, j, Empty, 0)
  }

  /** The loop of `readArray`. */
  function ReadElements(doc: string, e: Settings, i: nat, elements: ObjectValues, index: nat): (r: Outcome)
    requires i <= |doc|
    ensures i <= r.pos <= |doc|
    decreases |doc| - i, 1
  {
    var key := Index(index);
    var r := ReadValue(doc, e, i, Slot(elements, key));
    var extended := Put(elements, key, r.value);
    if !r.ok then Outcome(false, Recover(doc, r.pos, ArrayEnd), ArrayValue(extended), r.errors) else
    var t := NextToken(doc, r.pos);
    if t.kind != ArraySeparator && t.kind != ArrayEnd then
      Fail(doc, MissingCommaInArray, t, ArrayEnd, ArrayValue(extended))
    else if t.kind == ArrayEnd then Outcome(true, t.end, ArrayValue(extended), [])
    else ReadElements(doc, e, t.end, extended, index + 1)
  }

  /** `parse`: the answer, the position reached, the root and the recorded errors. */
  function Parse(doc: string, e: Settings, root: Value): Outcome {
    var r := ReadValue(doc, e, 0, root);
    var t := SkipCommentTokens(doc, r.pos, e.features.allowComments);
    if e.features.strictRoot && !r.value.ArrayValue? && !r.value.ObjectValue? then
      Outcome(false, t.end, r.value, r.errors + [ErrorInfo(ContainerExpected, Token(ErrorToken, 0, |doc|), None)])
    else
      Outcome(r.ok, t.end, r.value, r.errors)
  }

  // ------------------------------------------------------------------ exactly one error

  /** However deep a read fails and whatever recovery runs, it records one error; a read that
    * succeeds records none. */
  lemma {:induction false} OneErrorPerFailure(doc: string, e: Settings, i: nat, cur: Value)
    requires i <= |doc|
    ensures var r := ReadValue(doc, e, i, cur); |r.errors| == if r.ok then 0 else 1
    decreases |doc| - i, 0
  {
    hide S.DecodeBody, NumberOf, ReadMembers, ReadElements, SkipCommentTokens, Truncate, SkipSpaces, ReadToken;
    var t := SkipCommentTokens(doc, i, e.features.allowComments);
    if t.kind == ObjectBegin {
      OneErrorInObject(doc, e, t.end, Empty, "");
    } else if t.kind == ArrayBegin {
      var j := SkipSpaces(doc, t.end);
      if At(doc, j) != ']' { OneErrorInArray(doc, e, j, Empty, 0); }
    }
  }

  lemma {:induction false} OneErrorInObject(doc: string, e: Settings, i: nat, members: ObjectValues, name: string)
    requires i <= |doc|
    ensures var r := ReadMembers(doc, e, i, members, name); |r.errors| == if r.ok then 0 else 1
    decreases |doc| - i, 1
  {
    var t := NextToken(doc, i);
    var newName := NameOf(doc, e, t);
    var colon := ReadToken(doc, t.end);
    if !(t.kind == ObjectEnd && name == "") && newName.MemberName? && colon.kind == MemberSeparator {
      var key := Name(Truncate(newName.name));
      OneErrorPerFailure(doc, e, colon.end, Slot(members, key));
      var r := ReadValue(doc, e, colon.end, Slot(members, key));
      var last := NextToken(doc, r.pos);
      if r.ok && last.kind != ObjectEnd {
        OneErrorInObject(doc, e, last.end, Put(members, key, r.value), newName.name);
      }
    }
  }

  lemma {:induction false} OneErrorInArray(doc: string, e: Settings, i: nat, elements: ObjectValues, index: nat)
    requires i <= |doc|
    ensures var r := ReadElements(doc, e, i, elements, index); |r.errors| == if r.ok then 0 else 1
    decreases |doc| - i, 1
  {
    var key := Index(index);
    OneErrorPerFailure(doc, e, i, Slot(elements, key));
    var r := ReadValue(doc, e, i, Slot(elements, key));
    if r.ok {
      var t := NextToken(doc, r.pos);
      if t.kind == ArraySeparator { OneErrorInArray(doc, e, t.end, Put(elements, key, r.value), index + 1); }
    }
  }

  predicate IsContainer(v: Value) { v.ArrayValue? || v.ObjectValue? }

  /** The first token that is no comment neither opens a container nor is a value by itself. */
  predicate StartsNoValue(doc: string, e: Settings) {
    var t := SkipCommentTokens(doc, 0, e.features.allowComments);
    match t.kind
    case NumberToken => NumberOf(e, doc[t.start..t.end]).None?
    case StringToken => S.DecodeBody(Contents(doc, t), 0, "").BadText?
    case ArraySeparator => !e.features.allowDroppedNullPlaceholders
    case _ => t.kind !in {ObjectBegin, ArrayBegin, TrueToken, FalseToken, NullToken}
  }

  /** Once opened, a container stays one, however its reading ends. */
  lemma {:induction false} MembersMakeObject(doc: string, e: Settings, i: nat, members: ObjectValues, name: string)
    requires i <= |doc|
    ensures ReadMembers(doc, e, i, members, name).value.ObjectValue?
    decreases |doc| - i, 1
  {
    hide S.DecodeBody, NumberOf, NumberName, Recover, ReadMemberValue;
    var t := NextToken(doc, i);
    var newName := NameOf(doc, e, t);
    if !(t.kind == ObjectEnd && name == "") && newName.MemberName? {
      MemberMakesObject(doc, e, t.end, members, newName.name);
    }
  }

  lemma {:induction false} MemberMakesObject(doc: string, e: Settings, i: nat, members: ObjectValues, name: string)
    requires i <= |doc|
    ensures ReadMemberValue(doc, e, i, members, name).value.ObjectValue?
    decreases |doc| - i, 2
  {
    hide Recover, ReadValue, ReadMembers, Put, Slot, Truncate, ReadToken, NextToken;
    var colon := ReadToken(doc, i);
    if colon.kind == MemberSeparator {
      var key := Name(Truncate(name));
      var r := ReadValue(doc, e, colon.end, Slot(members, key));
      MembersMakeObject(doc, e, NextToken(doc, r.pos).end, Put(members, key, r.value), name);
    }
  }

  lemma {:induction false} ElementsMakeArray(doc: string, e: Settings, i: nat, elements: ObjectValues, index: nat)
    requires i <= |doc|
    ensures ReadElements(doc, e, i, elements, index).value.ArrayValue?
    decreases |doc| - i
  {
    hide Recover, ReadValue;
    var key := Index(index);
    var r := ReadValue(doc, e, i, Slot(elements, key));
    var t := NextToken(doc, r.pos);
    if r.ok && t.kind == ArraySeparator { ElementsMakeArray(doc, e, t.end, Put(elements, key, r.value), index + 1); }
  }

  /** A read leaves no container behind, and fails, exactly when the text starts no value and there was none before. */
  lemma {:induction false} FailsWithoutContainer(doc: string, e: Settings, root: Value)
    ensures var r := ReadValue(doc, e, 0, root);
            !r.ok && !IsContainer(r.value) <==> StartsNoValue(doc, e) && !IsContainer(root)
  {
    hide S.DecodeBody, NumberOf, Recover, SkipCommentTokens, ReadMembers, ReadElements;
    var t := SkipCommentTokens(doc, 0, e.features.allowComments);
    if t.kind == ObjectBegin {
      MembersMakeObject(doc, e, t.end, Empty, "");
    } else if t.kind == ArrayBegin {
      ElementsMakeArray(doc, e, SkipSpaces(doc, t.end), Empty, 0);
    }
  }

  /** Without the strict-root feature `parse` succeeds iff no error is recorded, and a failed
    * parse records exactly one. With it, a bad root adds one error of its own: there are two
    * exactly when the caller's root is no container and the text does not even start a value. */
  lemma {:induction false} ExactlyOneError(doc: string, e: Settings, root: Value)
    ensures var r := Parse(doc, e, root);
            (r.ok <==> r.errors == []) && |r.errors| <= 2 &&
            (|r.errors| == 2 <==> e.features.strictRoot && !IsContainer(root) && StartsNoValue(doc, e))
  {
    hide ReadValue, SkipCommentTokens, StartsNoValue;
    OneErrorPerFailure(doc, e, 0, root);
    FailsWithoutContainer(doc, e, root);
  }

  /** Two errors over a root that holds null, one over a root that holds an array. */
  lemma TwoErrors(e: Settings)
    requires e.features.strictRoot
    ensures |Parse("x", e, NullValue).errors| == 2 && |Parse("x", e, ArrayValue(Empty)).errors| == 1
  {
    var t := SkipCommentTokens("x", 0, e.features.allowComments);
    assert SkipSpaces("x", 0) == 0;
    assert t.kind == ErrorToken;
    hide ReadValue, SkipCommentTokens;
    ExactlyOneError("x", e, NullValue);
    ExactlyOneError("x", e, ArrayValue(Empty));
    OneErrorPerFailure("x", e, 0, ArrayValue(Empty));
    ReadValueFails("x", e, ArrayValue(Empty));
  }

  lemma {:induction false} ReadValueFails(doc: string, e: Settings, root: Value)
    requires StartsNoValue(doc, e)
    ensures !ReadValue(doc, e, 0, root).ok
  {
    hide S.DecodeBody, NumberOf, SkipCommentTokens;
  }

  // ------------------------------------------------------------------ what a parse can yield

  /** No string in the value is a null pointer. */
  predicate NoNullString(v: Value) {
    match v
    case StringValue(s) => s.Some?
    case ArrayValue(m) => NoNullStringIn(m)
    case ObjectValue(m) => NoNullStringIn(m)
    case _ => true
  }

  predicate NoNullStringIn(m: ObjectValues) {
    m.Entry? ==> NoNullString(m.value) && NoNullStringIn(m.rest)
  }

  lemma {:induction false} SlotHasNoNullString(m: ObjectValues, key: CZString)
    requires NoNullStringIn(m)
    ensures NoNullString(Slot(m, key))
  {
    if m.Entry? && m.key != key { SlotHasNoNullString(m.rest, key); }
  }

  lemma {:induction false} PutKeepsNoNullString(m: ObjectValues, key: CZString, value: Value)
    requires NoNullStringIn(m) && NoNullString(value)
    ensures NoNullStringIn(Put(m, key, value))
  {
    if m.Entry? { PutKeepsNoNullString(m.rest, key, value); }
  }

  /** A read never stores a null string; whatever it leaves behind has none unless it was
    * there before. */
  lemma {:induction false} ReadHasNoNullString(doc: string, e: Settings, i: nat, cur: Value)
    requires i <= |doc| && NoNullString(cur)
    ensures NoNullString(ReadValue(doc, e, i, cur).value)
    decreases |doc| - i, 0
  {
    hide S.DecodeBody, ReadMembers, ReadElements, SkipCommentTokens, Truncate, SkipSpaces, ReadToken;
    var t := SkipCommentTokens(doc, i, e.features.allowComments);
    if t.kind == ObjectBegin {
      MembersHaveNoNullString(doc, e, t.end, Empty, "");
    } else if t.kind == ArrayBegin {
      var j := SkipSpaces(doc, t.end);
      if At(doc, j) != ']' { ElementsHaveNoNullString(doc, e, j, Empty, 0); }
    } else if t.kind == NumberToken {
      var text := doc[t.start..t.end];
      N.DecodedIsInteger(text, if text[0] == '-' then 1 else 0, 0, text[0] == '-');
    }
  }

  lemma {:induction false} MembersHaveNoNullString(doc: string, e: Settings, i: nat, members: ObjectValues, name: string)
    requires i <= |doc| && NoNullStringIn(members)
    ensures NoNullString(ReadMembers(doc, e, i, members, name).value)
    decreases |doc| - i, 1
  {
    var t := NextToken(doc, i);
    var newName := NameOf(doc, e, t);
    var colon := ReadToken(doc, t.end);
    if !(t.kind == ObjectEnd && name == "") && newName.MemberName? && colon.kind == MemberSeparator {
      var key := Name(Truncate(newName.name));
      SlotHasNoNullString(members, key);
      ReadHasNoNullString(doc, e, colon.end, Slot(members, key));
      var r := ReadValue(doc, e, colon.end, Slot(members, key));
      PutKeepsNoNullString(members, key, r.value);
      var last := NextToken(doc, r.pos);
      if r.ok && last.kind != ObjectEnd {
        MembersHaveNoNullString(doc, e, last.end, Put(members, key, r.value), newName.name);
      }
    }
  }

  lemma {:induction false} ElementsHaveNoNullString(doc: string, e: Settings, i: nat, elements: ObjectValues, index: nat)
    requires i <= |doc| && NoNullStringIn(elements)
    ensures NoNullString(ReadElements(doc, e, i, elements, index).value)
    decreases |doc| - i, 1
  {
    var key := Index(index);
    SlotHasNoNullString(elements, key);
    ReadHasNoNullString(doc, e, i, Slot(elements, key));
    var r := ReadValue(doc, e, i, Slot(elements, key));
    PutKeepsNoNullString(elements, key, r.value);
    if r.ok {
      var t := NextToken(doc, r.pos);
      if t.kind == ArraySeparator { ElementsHaveNoNullString(doc, e, t.end, Put(elements, key, r.value), index + 1); }
    }
  }
}
