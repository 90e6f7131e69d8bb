/** jsoncpp's `Reader`: a cursor, a stack of values under construction and an error list.
  *
  * The source's stack holds pointers into the value tree. Here a pushed node is the child's
  * contents, written back into its parent when it is popped; in between only the top node is
  * touched, so the tree is the same after every pop.
  */
module JsonReader {
  import opened Wrappers
  import opened JsonValue
  import N = JsonNumber
  import S = JsonString
  import opened P = JsonParsing

  lemma {:induction false} PutTwice(m: ObjectValues, key: CZString, v: Value, w: Value)
    ensures Put(Put(m, key, v), key, w) == Put(m, key, w)
  {
    if m.Entry? { PutTwice(m.rest, key, v, w); }
  }

  /** A container of the kind the key belongs to. */
  function Container(key: CZString, m: ObjectValues): Value {
    if key.Index? then ArrayValue(m) else ObjectValue(m)
  }

  class Reader {
    const settings: Settings
    var document_: string
    var current_: nat
    var nodes_: seq<Value>
    var errors_: seq<ErrorInfo>

    ghost predicate Valid()
      reads this
    {
      current_ <= |document_|
    }

    constructor (settings: Settings)
      ensures Valid() && this.settings == settings && nodes_ == [] && errors_ == []
    {
      this.settings := settings;
      document_, current_, nodes_, errors_ := "", 0, [], [];
    }

    // ---------------------------------------------------------------- characters

    method GetNextChar() returns (c: char)
      requires Valid()
      modifies `current_
      ensures Valid() && current_ == Next(document_, old(current_))
      ensures c == At(document_, old(current_))
    {
      if current_ == |document_| { return '\0'; }
      c := document_[current_];
      current_ := current_ + 1;
    }

    method SkipSpaces()
      requires Valid()
      modifies `current_
      ensures Valid() && current_ == P.SkipSpaces(document_, old(current_))
    {
      while current_ != |document_|
        invariant Valid() && P.SkipSpaces(document_, current_) == P.SkipSpaces(document_, old(current_))
        decreases |document_| - current_
      {
        if !IsSpace(document_[current_]) { break; }
        current_ := current_ + 1;
      }
    }

    method Match(pattern: string) returns (ok: bool)
      requires Valid()
      modifies `current_
      ensures Valid() && Scan(ok, current_) == P.Match(document_, old(current_), pattern)
    {
      if |document_| - current_ < |pattern| { return false; }
      var index := |pattern|;
      while index > 0
        invariant 0 <= index <= |pattern| && current_ == old(current_)
        invariant current_ + |pattern| <= |document_|
        invariant forall k :: index <= k < |pattern| ==> document_[current_ + k] == pattern[k]
      {
        index := index - 1;
        if document_[current_ + index] != pattern[index] {
          assert document_[current_..current_ + |pattern|][index] != pattern[index];
          return false;
        }
      }
      assert document_[current_..current_ + |pattern|] == pattern;
      current_ := current_ + |pattern|;
      ok := true;
    }

    method ReadNumber()
      requires Valid()
      modifies `current_
      ensures Valid() && current_ == NumberEnd(document_, old(current_))
    {
      while current_ != |document_|
        invariant Valid() && NumberEnd(document_, current_) == NumberEnd(document_, old(current_))
        decreases |document_| - current_
      {
        if !N.IsNumberChar(document_[current_]) { break; }
        current_ := current_ + 1;
      }
    }

    method ReadString() returns (ok: bool)
      requires Valid()
      modifies `current_
      ensures Valid() && Scan(ok, current_) == StringEnd(document_, old(current_))
    {
      var c := '\0';
      while current_ != |document_|
        invariant Valid() && c != '"'
        invariant StringEnd(document_, current_) == StringEnd(document_, old(current_))
        decreases |document_| - current_
      {
        c := GetNextChar();
        if c == '\\' {
          var skipped := GetNextChar();
        } else if c == '"' {
          break;
        }
      }
      ok := c == '"';
    }

    method ReadCStyleComment() returns (ok: bool)
      requires Valid()
      modifies `current_
      ensures Valid() && Scan(ok, current_) == CStyleComment(document_, old(current_))
    {
      while current_ != |document_|
        invariant Valid() && CommentBodyEnd(document_, current_) == CommentBodyEnd(document_, old(current_))
        decreases |document_| - current_
      {
        var c := GetNextChar();
        if c == '*' && At(document_, current_) == '/' {
          assert CommentBodyEnd(document_, old(current_)) == current_;
          break;
        }
      }
      assert current_ == CommentBodyEnd(document_, old(current_));
      var last := GetNextChar();
      ok := last == '/';
    }

    method ReadCppStyleComment()
      requires Valid()
      modifies `current_
      ensures Valid() && current_ == LineEnd(document_, old(current_))
    {
      while current_ != |document_|
        invariant Valid() && LineEnd(document_, current_) == LineEnd(document_, old(current_))
        decreases |document_| - current_
      {
        var c := GetNextChar();
        if c == '\r' || c == '\n' { break; }
      }
    }

    method ReadComment() returns (ok: bool)
      requires Valid()
      modifies `current_
      ensures Valid() && Scan(ok, current_) == Comment(document_, old(current_))
    {
      var c := GetNextChar();
      ok := false;
      if c == '*' {
        ok := ReadCStyleComment();
      } else if c == '/' {
        ReadCppStyleComment();
        ok := true;
      }
    }

    // ---------------------------------------------------------------- tokens

    /** The source's result is true on every path and is dropped here. */
    method ReadToken() returns (token: Token)
      requires Valid()
      modifies `current_
      ensures Valid() && token == P.ReadToken(document_, old(current_)) && current_ == token.end
    {
      SkipSpaces();
      var start := current_;
      var c := GetNextChar();
      var ok := true;
      var kind := ErrorToken;
      if c == '{' { kind := ObjectBegin; }
      else if c == '}' { kind := ObjectEnd; }
      else if c == '[' { kind := ArrayBegin; }
      else if c == ']' { kind := ArrayEnd; }
      else if c == '"' { kind := StringToken; ok := ReadString(); }
      else if c == '/' { kind := CommentToken; ok := ReadComment(); }
      else if N.IsDigit(c) || c == '-' { kind := NumberToken; ReadNumber(); }
      else if c == 't' { kind := TrueToken; ok := Match("rue"); }
      else if c == 'f' { kind := FalseToken; ok := Match("alse"); }
      else if c == 'n' { kind := NullToken; ok := Match("ull"); }
      else if c == ',' { kind := ArraySeparator; }
      else if c == ':' { kind := MemberSeparator; }
      else if c == '\0' { kind := EndOfStream; }
      else { ok := false; }
      if !ok { kind := ErrorToken; }
      token := Token(kind, start, current_);
    }

    method SkipCommentTokens() returns (token: Token)
      requires Valid()
      modifies `current_
      ensures Valid() && token == P.SkipCommentTokens(document_, old(current_), settings.features.allowComments)
      ensures current_ == token.end
    {
      ghost var start := current_;
      token := ReadToken();
      if settings.features.allowComments {
        token := SkipFurtherComments(token, start);
      }
    }

    /** The loops that replace a comment token by the first token after it that is none. */
    method SkipFurtherComments(first: Token, ghost start: nat) returns (token: Token)
      requires Valid() && start <= |document_| && first == P.ReadToken(document_, start) && current_ == first.end
      modifies `current_
      ensures Valid() && token == NextToken(document_, start) && current_ == token.end
    {
      token := first;
      ghost var from := start;
      while token.kind == CommentToken
        invariant Valid() && current_ == token.end
        invariant from <= |document_| && token == P.ReadToken(document_, from)
        invariant NextToken(document_, from) == NextToken(document_, start)
        decreases |document_| - from
      {
        from := token.end;
        token := ReadToken();
      }
    }

    method AddError(message: Message, token: Token, extra: Option<nat>) returns (ok: bool)
      modifies `errors_
      ensures !ok && errors_ == old(errors_) + [ErrorInfo(message, token, extra)]
    {
      errors_ := errors_ + [ErrorInfo(message, token, extra)];
      ok := false;
    }

    method RecoverFromError(skipUntilToken: TokenType) returns (ok: bool)
      requires Valid()
      modifies `current_, `errors_
      ensures Valid() && !ok && current_ == Recover(document_, old(current_), skipUntilToken)
      ensures errors_ == old(errors_)
    {
      var errorCount := |errors_|;
      while true
        invariant Valid() && errors_ == old(errors_)
        invariant Recover(document_, current_, skipUntilToken) == Recover(document_, old(current_), skipUntilToken)
        decreases |document_| - current_
      {
        var skip := ReadToken();
        if skip.kind == skipUntilToken || skip.kind == EndOfStream { break; }
      }
      errors_ := errors_[..errorCount];
      ok := false;
    }

    method AddErrorAndRecover(message: Message, token: Token, skipUntilToken: TokenType) returns (ok: bool)
      requires Valid()
      modifies `current_, `errors_
      ensures Valid() && !ok && current_ == Recover(document_, old(current_), skipUntilToken)
      ensures errors_ == old(errors_) + [ErrorInfo(message, token, None)]
    {
      ok := AddError(message, token, None);
      ok := RecoverFromError(skipUntilToken);
    }

    // ---------------------------------------------------------------- values

    ghost function Below(): seq<Value>
      requires nodes_ != []
      reads this
    {
      nodes_[..|nodes_| - 1]
    }

    /** The state after an outcome, over the nodes and errors that were there before. */
    ghost predicate Reached(ok: bool, r: Outcome, below: seq<Value>, before: seq<ErrorInfo>)
      reads this
    {
      Valid() && ok == r.ok && current_ == r.pos && nodes_ == below + [r.value] && errors_ == before + r.errors
    }

    ghost function Top(): Value
      requires nodes_ != []
      reads this
    {
      nodes_[|nodes_| - 1]
    }

    method SetCurrent(value: Value)
      requires nodes_ != []
      modifies `nodes_
      ensures nodes_ == old(nodes_)[..|old(nodes_)| - 1] + [value]
    {
      nodes_ := nodes_[|nodes_| - 1 := value];
    }

    method DecodeNumber(token: Token) returns (r: Option<Value>)
      requires token.start < token.end <= |document_|
      modifies `errors_
      ensures r == NumberOf(settings, document_[token.start..token.end])
      ensures errors_ == old(errors_) + if r.Some? then [] else [ErrorInfo(Message.NotANumber, token, None)]
    {
      var text := document_[token.start..token.end];
      var decoded := N.DecodeNumber(text);
      match decoded {
        case Number(v) => r := Some(v);
        case NotANumber =>
          var ok := AddError(Message.NotANumber, token, None);
          r := None;
        case UseDouble =>
          match settings.scanDouble(text) {
            case Some(d) => r := Some(RealValue(d));
            case None =>
              var ok := AddError(Message.NotANumber, token, None);
              r := None;
          }
      }
    }

    method DecodeString(token: Token) returns (r: S.Text)
      requires token.start + 2 <= token.end <= |document_|
      modifies `errors_
      ensures r == S.DecodeBody(Contents(document_, token), 0, "")
      ensures errors_ == old(errors_) + if r.Text? then [] else [StringErrorInfo(token, r)]
    {
      r := S.DecodeString(document_[token.start + 1..token.end - 1]);
      if r.BadText? {
        var ok := AddError(BadString(r.error), token, Some(token.start + 1 + r.at));
      }
    }

    /** Reads one value over the top node: the cursor stays inside the document, the stack
      * keeps its height and everything below the top, on success and on every failure. */
    method ReadValue() returns (successful: bool)
      requires Valid() && nodes_ != []
      modifies `current_, `nodes_, `errors_
      ensures Reached(successful, P.ReadValue(document_, settings, old(current_), old(Top())), old(Below()), old(errors_))
      decreases |document_| - current_, 0
    {
      hide P.ReadToken, P.ReadMembers, P.ReadArray, P.SkipCommentTokens, P.NumberOf, P.Contents, P.Truncate, S.DecodeBody;
      var token := SkipCommentTokens();
      match token.kind {
        case ObjectBegin => successful := ReadObject();
        case ArrayBegin => successful := ReadArray();
        case NumberToken =>
          var number := DecodeNumber(token);
          successful := number.Some?;
          if successful { SetCurrent(number.value); }
        case StringToken =>
          var text := DecodeString(token);
          successful := text.Text?;
          if successful { SetCurrent(StringValue(Some(Truncate(text.text)))); }
        case TrueToken =>
          SetCurrent(BooleanValue(true));
          successful := true;
        case FalseToken =>
          SetCurrent(BooleanValue(false));
          successful := true;
        case NullToken =>
          SetCurrent(NullValue);
          successful := true;
        case ArraySeparator =>
          if settings.features.allowDroppedNullPlaceholders {
            current_ := current_ - 1;
            SetCurrent(NullValue);
            successful := true;
          } else {
            successful := AddError(ValueExpected, token, None);
          }
        case _ => successful := AddError(ValueExpected, token, None);
      }
    }

    /** What reading the child at `key` of `m` makes of the container and its state. */
    ghost function Child(m: ObjectValues, key: CZString, from: nat): Outcome
      requires from <= |document_|
      reads this
    {
      var r := P.ReadValue(document_, settings, from, Slot(m, key));
      r.(value := Container(key, Put(m, key, r.value)))
    }

    /** Enters the child at `key`: the insertion, the push, the read and the pop. */
    method ReadChild(key: CZString, ghost m: ObjectValues) returns (ok: bool)
      requires Valid() && nodes_ != [] && Top() == Container(key, m)
      modifies `current_, `nodes_, `errors_
      ensures Reached(ok, old(Child(m, key, current_)), old(Below()), old(errors_))
      ensures ok ==> errors_ == old(errors_)
      decreases |document_| - current_, 1
    {
      ghost var below := Below();
      var entries := nodes_[|nodes_| - 1].map_;
      var child := Slot(entries, key);
      var inserted := Put(entries, key, child);
      SetCurrent(Container(key, inserted));
      nodes_ := nodes_ + [child];
      assert Below() == below + [Container(key, inserted)];
      ok := ReadValue();
      var result := nodes_[|nodes_| - 1];
      nodes_ := nodes_[..|nodes_| - 1];
      assert nodes_ == below + [Container(key, inserted)];
      PutTwice(entries, key, child, result);
      OneErrorPerFailure(document_, settings, old(current_), child);
      SetCurrent(Container(key, Put(inserted, key, result)));
      assert nodes_ == below + [Container(key, Put(m, key, result))];
    }

    /** The name of the next member. Without one the object is closed or the read has failed. */
    method ReadMemberName(previous: string, ghost members: ObjectValues) returns (name: Option<string>, ok: bool)
      requires Valid() && nodes_ != [] && Top() == ObjectValue(members)
      modifies `current_, `errors_
      ensures Valid()
      ensures name.None? ==>
                Reached(ok, ReadMembers(document_, settings, old(current_), members, previous), old(Below()), old(errors_))
      ensures name.Some? ==> old(current_) < current_ && errors_ == old(errors_)
      ensures name.Some? ==> ReadMembers(document_, settings, old(current_), members, previous) ==
                             ReadMemberValue(document_, settings, current_, members, name.value)
    {
      hide P.ReadToken, P.NextToken, P.Recover, P.ReadMemberValue, P.NumberOf, P.Contents, S.DecodeBody;
      assert nodes_ == Below() + [ObjectValue(members)];
      name, ok := None, true;
      ghost var start := current_;
      var tokenName := ReadToken();
      tokenName := SkipFurtherComments(tokenName, start);
      if tokenName.kind == ObjectEnd && previous == "" { return; }
      if tokenName.kind == StringToken {
        var text := DecodeString(tokenName);
        if text.BadText? {
          ok := RecoverFromError(ObjectEnd);
        } else {
          name := Some(text.text);
        }
      } else if tokenName.kind == NumberToken && settings.features.allowNumericKeys {
        var number := DecodeNumber(tokenName);
        if number.None? {
          ok := RecoverFromError(ObjectEnd);
        } else {
          name := Some(NumberName(settings, number.value));
        }
      } else {
        ok := AddErrorAndRecover(MissingBraceOrName, tokenName, ObjectEnd);
      }
    }

    /** The rest of a round of the loop of `readObject`. `done` tells whether the loop returned. */
    method ReadMember(name: string, ghost members: ObjectValues) returns (done: bool, ok: bool, ghost extended: ObjectValues)
      requires Valid() && nodes_ != [] && Top() == ObjectValue(members)
      modifies `current_, `nodes_, `errors_
      ensures Valid() && old(current_) <= current_
      ensures done ==> Reached(ok, ReadMemberValue(document_, settings, old(current_), members, name), old(Below()), old(errors_))
      ensures !done ==> errors_ == old(errors_) && nodes_ == old(Below()) + [ObjectValue(extended)]
      ensures !done ==> ReadMemberValue(document_, settings, old(current_), members, name) ==
                        ReadMembers(document_, settings, current_, extended, name)
      decreases |document_| - current_, 2
    {
      assert nodes_ == Below() + [ObjectValue(members)];
      done, extended := true, members;
      var colon := ReadToken();
      if colon.kind != MemberSeparator {
        ok := AddErrorAndRecover(MissingColon, colon, ObjectEnd);
        return;
      }
      ok := ReadChild(Name(Truncate(name)), members);
      extended := nodes_[|nodes_| - 1].map_;
      if !ok {
        ok := RecoverFromError(ObjectEnd);
        return;
      }
      ghost var start := current_;
      var comma := ReadToken();
      if comma.kind != ObjectEnd && comma.kind != ArraySeparator && comma.kind != CommentToken {
        ok := AddErrorAndRecover(MissingCommaInObject, comma, ObjectEnd);
        return;
      }
      comma := SkipFurtherComments(comma, start);
      done := comma.kind == ObjectEnd;
    }

    method ReadObject() returns (ok: bool)
      requires Valid() && nodes_ != []
      modifies `current_, `nodes_, `errors_
      ensures Reached(ok, ReadMembers(document_, settings, old(current_), Empty, ""), old(Below()), old(errors_))
      decreases |document_| - current_, 3
    {
      ghost var below := Below();
      var name := "";
      SetCurrent(ObjectValue(Empty));
      ghost var members := Empty;
      while true
        invariant Valid() && old(current_) <= current_
        invariant errors_ == old(errors_)
        invariant nodes_ == below + [ObjectValue(members)]
        invariant ReadMembers(document_, settings, current_, members, name) ==
                  ReadMembers(document_, settings, old(current_), Empty, "")
        decreases |document_| - current_
      {
        assert Below() == below;
        var newName;
        newName, ok := ReadMemberName(name, members);
        if newName.None? { return; }
        name := newName.value;
        var done;
        done, ok, members := ReadMember(name, members);
        if done { return; }
      }
    }

    /** One round of the loop of `readArray`. */
    method ReadElement(index: nat, ghost elements: ObjectValues) returns (done: bool, ok: bool, ghost extended: ObjectValues)
      requires Valid() && nodes_ != [] && Top() == ArrayValue(elements)
      modifies `current_, `nodes_, `errors_
      ensures Valid() && old(current_) <= current_
      ensures done ==> Reached(ok, ReadElements(document_, settings, old(current_), elements, index), old(Below()), old(errors_))
      ensures !done ==> old(current_) < current_ && errors_ == old(errors_) && nodes_ == old(Below()) + [ArrayValue(extended)]
      ensures !done ==> ReadElements(document_, settings, old(current_), elements, index) ==
                        ReadElements(document_, settings, current_, extended, index + 1)
      decreases |document_| - current_, 2
    {
      done := true;
      ok := ReadChild(Index(index), elements);
      extended := nodes_[|nodes_| - 1].map_;
      if !ok {
        ok := RecoverFromError(ArrayEnd);
        return;
      }
      ghost var start := current_;
      var token := ReadToken();
      token := SkipFurtherComments(token, start);
      if token.kind != ArraySeparator && token.kind != ArrayEnd {
        ok := AddErrorAndRecover(MissingCommaInArray, token, ArrayEnd);
        return;
      }
      done := token.kind == ArrayEnd;
    }

    method ReadArray() returns (ok: bool)
      requires Valid() && nodes_ != []
      modifies `current_, `nodes_, `errors_
      ensures Reached(ok, P.ReadArray(document_, settings, old(current_)), old(Below()), old(errors_))
      decreases |document_| - current_, 3
    {
      ghost var below := Below();
      SetCurrent(ArrayValue(Empty));
      SkipSpaces();
      if At(document_, current_) == ']' {
        var endArray := ReadToken();
        return true;
      }
      var index := 0;
      ghost var start := current_;
      ghost var elements := Empty;
      while true
        invariant Valid() && start <= current_
        invariant errors_ == old(errors_)
        invariant nodes_ == below + [ArrayValue(elements)]
        invariant ReadElements(document_, settings, current_, elements, index) ==
                  ReadElements(document_, settings, start, Empty, 0)
        decreases |document_| - current_
      {
        assert Below() == below;
        var done;
        done, ok, elements := ReadElement(index, elements);
        if done { return; }
        index := index + 1;
      }
    }

    /** `parse(const char*, const char*, Value&, bool)`; terminates on every document under
      * every setting, with the one error or none that `ExactlyOneError` promises. */
    method Parse(document: string, initial: Value) returns (successful: bool, root: Value)
      modifies this
      ensures Valid() && document_ == document
      ensures var r := P.Parse(document, settings, initial);
              successful == r.ok && root == r.value && current_ == r.pos && errors_ == r.errors
      ensures nodes_ == [root]
      ensures !settings.features.strictRoot ==> (successful <==> errors_ == []) && |errors_| <= 1
    {
      document_, current_ := document, 0;
      errors_ := [];
      nodes_ := [initial];
      successful := ReadValue();
      root := nodes_[0];
      var token := SkipCommentTokens();
      if settings.features.strictRoot {
        if !root.ArrayValue? && !root.ObjectValue? {
          successful := AddError(ContainerExpected, Token(ErrorToken, 0, |document_|), None);
        }
      }
      ExactlyOneError(document, settings, initial);
    }
  }
}
