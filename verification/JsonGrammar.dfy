/** The language the reader accepts and what its texts mean, by syntax trees.
  *
  * A text is taken as the row of its lexemes. The grammar is that of JSON with the source's own liberties: the two
  * features of the reader, and a comma behind a member whose name is empty.
  */
module JsonGrammar {
  import opened Wrappers
  import opened JsonValue
  import N = JsonNumber
  import S = JsonString
  import opened P = JsonParsing
  import opened T = JsonTokens
  import R = JsonRoundTrip
  import L = JsonLexemes
  import M = JsonMaps

  // ------------------------------------------------------------------ syntax

  datatype Syntax =
    | Nothing                  // no text at all, in front of a comma
    | Word(text: string)
    | Number(text: string)
    | Str(body: string)        // what stands between the quotes
    | Arr(items: Items)
    | Obj(members: Members)

  datatype Items = NoItems | Item(first: Syntax, more: Items)

  datatype Members = NoMembers | Member(name: Syntax, value: Syntax, comma: bool, more: Members)

  /** The lexemes of a tree, followed by others. */
  function Spell(d: Syntax, rest: seq<string>): seq<string> {
    match d
    case Nothing => rest
    case Word(t) => [t] + rest
    case Number(t) => [t] + rest
    case Str(b) => ["\"" + b + "\""] + rest
    case Arr(items) => ["["] + SpellItems(items, ["]"] + rest)
    case Obj(members) => ["{"] + SpellMembers(members, ["}"] + rest)
  }

  function SpellItems(items: Items, rest: seq<string>): seq<string> {
    match items
    case NoItems => rest
    case Item(first, more) => Spell(first, if more.Item? then [","] + SpellItems(more, rest) else rest)
  }

  function SpellMembers(members: Members, rest: seq<string>): seq<string> {
    match members
    case NoMembers => rest
    case Member(name, value, comma, more) =>
      Spell(name, [":"] + Spell(value, if comma then [","] + SpellMembers(more, rest) else rest))
  }

  /** The tree belongs to the language; `comma` tells whether a comma follows. */
  predicate Proper(d: Syntax, e: Settings, comma: bool) {
    match d
    case Nothing => comma && e.features.allowDroppedNullPlaceholders
    case Word(t) => t in ["null", "true", "false"]
    case Number(t) => N.NumberLexeme(t) && NumberValue(t, e).Some?
    case Str(b) => R.Passed(b) && S.DecodeBody(b, 0, "").Text?
    case Arr(items) => ProperItems(items, e)
    case Obj(members) => ProperMembers(members, e)
  }

  predicate ProperItems(items: Items, e: Settings) {
    items.Item? ==> Proper(items.first, e, items.more.Item?) && ProperItems(items.more, e)
  }

  predicate ProperMembers(members: Members, e: Settings) {
    members.Member? ==>
      ProperName(members.name, e) && Proper(members.value, e, members.comma) && ProperMembers(members.more, e) &&
      (members.more.Member? ==> members.comma) &&
      (members.more.NoMembers? && members.comma ==> NameText(members.name, e) == "")
  }

  predicate ProperName(name: Syntax, e: Settings) {
    Proper(name, e, false) && (name.Str? || (name.Number? && e.features.allowNumericKeys))
  }

  // ------------------------------------------------------------------ meaning

  /** An optional minus and digits are an integer if 64 bits hold it, tagged by whether 31 do; everything else is
    * scanned as a double. */
  function NumberValue(text: string, e: Settings): Option<Value> {
    if N.IntegerLexeme(text) && -0x8000_0000_0000_0000 <= N.Mathematical(text) <= 0xFFFF_FFFF_FFFF_FFFF then
      Some(if N.Mathematical(text) <= 0x7FFF_FFFF then IntValue(N.Mathematical(text)) else UIntValue(N.Mathematical(text)))
    else
      match e.scanDouble(text)
      case Some(r) => Some(RealValue(r))
      case None => None
  }

  lemma NumberMeans(text: string, e: Settings)
    requires N.NumberLexeme(text)
    ensures NumberOf(e, text) == NumberValue(text, e)
  {
    hide N.Mathematical, N.Accumulate;
    N.NumberNeverRejected(text);
    if N.IntegerLexeme(text) {
      N.DecodeExact(text);
    }
  }

  /** The text a name stands for. */
  function NameText(name: Syntax, e: Settings): string {
    match name
    case Str(b) =>
      var text := S.DecodeBody(b, 0, "");
      if text.Text? then text.text else ""
    case Number(t) =>
      (match NumberValue(t, e)
       case Some(IntValue(i)) => N.IntText(i)
       case Some(UIntValue(u)) => N.Decimal(u)
       case Some(RealValue(r)) => e.printDouble(r)
       case _ => "")
    case _ => ""
  }

  /** The key of a member; a C string ends at its first NUL. */
  function KeyOf(name: Syntax, e: Settings): CZString { Name(Truncate(NameText(name, e))) }

  function Meaning(d: Syntax, e: Settings): Value {
    match d
    case Nothing => NullValue
    case Word(t) => if t == "true" then BooleanValue(true) else if t == "false" then BooleanValue(false) else NullValue
    case Number(t) => if NumberValue(t, e).Some? then NumberValue(t, e).value else NullValue
    case Str(b) =>
      var text := S.DecodeBody(b, 0, "");
      StringValue(Some(Truncate(if text.Text? then text.text else "")))
    case Arr(items) => ArrayValue(ItemValues(items, 0, e))
    case Obj(members) => ObjectValue(Gather(Empty, members, e))
  }

  /** The elements under consecutive indices. */
  function ItemValues(items: Items, k: nat, e: Settings): ObjectValues {
    match items
    case NoItems => Empty
    case Item(first, more) => Entry(Index(k), Meaning(first, e), ItemValues(more, k + 1, e))
  }

  /** The members put into the map one after the other. */
  function Gather(m: ObjectValues, members: Members, e: Settings): ObjectValues
    decreases members
  {
    match members
    case NoMembers => m
    case Member(name, value, _, more) => Gather(Put(m, KeyOf(name, e), Meaning(value, e)), more, e)
  }

  /** What the last member with the given name says. */
  function LastOf(members: Members, key: CZString, e: Settings): Option<Value> {
    match members
    case NoMembers => None
    case Member(name, value, _, more) =>
      var later := LastOf(more, key, e);
      if later.Some? then later else if KeyOf(name, e) == key then Some(Meaning(value, e)) else None
  }

  lemma {:induction false} GatherHoldsLast(m: ObjectValues, members: Members, key: CZString, e: Settings)
    requires M.Ascending(m)
    ensures M.Ascending(Gather(m, members, e))
    ensures Find(Gather(m, members, e), key) ==
            if LastOf(members, key, e).Some? then LastOf(members, key, e) else Find(m, key)
    decreases members
  {
    hide M.Ascending, Put, P.Find, Meaning, KeyOf;
    if members.Member? {
      var name := KeyOf(members.name, e);
      M.PutMeans(m, name, Meaning(members.value, e), key);
      GatherHoldsLast(Put(m, name, Meaning(members.value, e)), members.more, key, e);
    }
  }

  /** Members in any order, names repeated or not: the object is an ascending map in which every name finds the value of
    * its last occurrence, and nothing else is found. */
  lemma {:induction false} ObjectHoldsLast(members: Members, key: CZString, e: Settings)
    ensures Meaning(Obj(members), e).ObjectValue? && M.Ascending(Meaning(Obj(members), e).map_)
    ensures Find(Meaning(Obj(members), e).map_, key) == LastOf(members, key, e)
  {
    GatherHoldsLast(Empty, members, key, e);
  }

  // ------------------------------------------------------------------ rows of lexemes

  /** Lexemes of any kind in any order; no two numbers in a row. */
  predicate Row(ts: seq<string>) { L.WellLexed(ts) && "" !in ts }

  predicate CommaFirst(rest: seq<string>) { rest != [] && rest[0] == "," }

  function First(ts: seq<string>): string { if ts == [] then "" else ts[0] }

  function Others(ts: seq<string>): seq<string> { if ts == [] then [] else ts[1..] }

  lemma {:induction false} FirstIsHead(ts: seq<string>)
    requires Row(ts)
    ensures L.Head(ts) == First(ts) && L.Tail(ts) == Others(ts) && Row(Others(ts)) && (First(ts) == "" <==> ts == [])
    ensures ts != [] ==> L.Lexeme(ts[0]) && ts == [ts[0]] + Others(ts)
  {
  }

  /** The reader's next token is the next lexeme. */
  lemma {:induction false} Reader(doc: string, i: nat, ts: seq<string>)
    requires i <= |doc| && RendersAt(doc, i, ts) && Row(ts)
    ensures var t := P.ReadToken(doc, i);
            t.kind == L.KindOf(First(ts)) && t.end <= |doc| && doc[t.start..t.end] == First(ts) &&
            RendersAt(doc, t.end, Others(ts)) && Row(Others(ts)) &&
            NextToken(doc, i) == t && (forall b :: SkipCommentTokens(doc, i, b) == t)
    ensures ts != [] ==> L.Lexeme(ts[0]) && ts == [ts[0]] + Others(ts)
  {
    hide P.ReadToken, NextToken, L.WellLexed, L.Head, L.Tail, L.KindOf, T.RendersAt, L.Lexeme;
    FirstIsHead(ts);
    L.BothRead(doc, i, doc, i, ts);
  }

  /** A lexeme is known by the kind of its token. */
  lemma Kinds(text: string)
    requires text == "" || L.Lexeme(text)
    ensures L.KindOf(text) == ObjectBegin <==> text == "{"
    ensures L.KindOf(text) == ObjectEnd <==> text == "}"
    ensures L.KindOf(text) == ArrayBegin <==> text == "["
    ensures L.KindOf(text) == ArrayEnd <==> text == "]"
    ensures L.KindOf(text) == ArraySeparator <==> text == ","
    ensures L.KindOf(text) == MemberSeparator <==> text == ":"
    ensures L.KindOf(text) == TrueToken <==> text == "true"
    ensures L.KindOf(text) == FalseToken <==> text == "false"
    ensures L.KindOf(text) == NullToken <==> text == "null"
    ensures L.KindOf(text) == StringToken <==> L.IsString(text)
    ensures L.KindOf(text) == NumberToken <==> N.NumberLexeme(text)
    ensures L.KindOf(text) == EndOfStream <==> text == ""
    ensures L.KindOf(text) != ErrorToken && L.KindOf(text) != CommentToken
  {
  }

  // ------------------------------------------------------------------ what is spelled is read

  /** How the tree's first token makes the reader go on. */
  lemma {:induction false} ScalarRead(doc: string, e: Settings, i: nat, cur: Value, d: Syntax, rest: seq<string>)
    requires d.Word? || d.Number? || d.Str?
    requires i <= |doc| && Proper(d, e, CommaFirst(rest)) && Row(Spell(d, rest)) && RendersAt(doc, i, Spell(d, rest))
    ensures R.ReadsTo(doc, P.ReadValue(doc, e, i, cur), Meaning(d, e), rest)
  {
    hide P.ReadToken, NextToken, SkipCommentTokens, L.WellLexed, L.KindOf, T.RendersAt, S.DecodeBody, R.Passed, N.NumberLexeme,
         NumberValue, NumberOf, Truncate, L.IsString, P.ReadMembers, P.ReadArray;
    var ts := Spell(d, rest);
    assert First(ts) == ts[0] && Others(ts) == rest;
    Reader(doc, i, ts);
    Kinds(ts[0]);
    var t := P.ReadToken(doc, i);
    assert SkipCommentTokens(doc, i, e.features.allowComments) == t;
    match d
    case Word(_) =>
    case Number(text) => NumberMeans(text, e);
    case Str(b) =>
      StringIs(b);
      L.SliceContents(doc, t, ts[0]);
  }

  lemma {:induction false} StringIs(b: string)
    requires R.Passed(b)
    ensures var t := "\"" + b + "\""; L.IsString(t) && t[1..|t| - 1] == b
  {
    var t := "\"" + b + "\"";
    assert t[1..|t| - 1] == b;
  }

  /** Where nothing is spelled the reader sees the comma and leaves it. */
  lemma {:induction false} NothingRead(doc: string, e: Settings, i: nat, cur: Value, rest: seq<string>)
    requires i <= |doc| && CommaFirst(rest) && e.features.allowDroppedNullPlaceholders && Row(rest) && RendersAt(doc, i, rest)
    ensures R.ReadsTo(doc, P.ReadValue(doc, e, i, cur), NullValue, rest)
  {
    hide P.ReadToken, NextToken, SkipCommentTokens, L.WellLexed, L.KindOf, T.RendersAt, P.ReadMembers, P.ReadArray,
         S.DecodeBody, NumberOf, Truncate, L.Lexeme, L.IsString;
    Reader(doc, i, rest);
    Kinds(",");
    var t := P.ReadToken(doc, i);
    assert SkipCommentTokens(doc, i, e.features.allowComments) == t;
    assert t.end == t.start + 1;
    L.CommaAgain(doc, t, Others(rest));
  }

  lemma {:induction false} Reads(doc: string, e: Settings, i: nat, cur: Value, d: Syntax, rest: seq<string>)
    requires i <= |doc| && Proper(d, e, CommaFirst(rest)) && Row(Spell(d, rest)) && RendersAt(doc, i, Spell(d, rest))
    ensures R.ReadsTo(doc, P.ReadValue(doc, e, i, cur), Meaning(d, e), rest) && Row(rest)
    decreases d, 1
  {
    hide P.ReadValue, P.ReadMembers, P.ReadArray, L.WellLexed, T.RendersAt, R.ReadsTo, R.Passed, S.DecodeBody, NumberValue, Gather,
         ItemValues, SpellMembers, SpellItems, Row, CommaFirst;
    match d
    case Nothing => NothingRead(doc, e, i, cur, rest);
    case Arr(items) => ArrayReads(doc, e, i, cur, items, rest);
    case Obj(members) =>
      var p := BraceRead(doc, e, i, cur, SpellMembers(members, ["}"] + rest));
      MembersRead(doc, e, p, Empty, "", members, rest);
    case _ =>
      ScalarRead(doc, e, i, cur, d, rest);
      RowTail(Spell(d, rest)[0], rest);
  }

  lemma {:induction false} RowTail(t: string, rest: seq<string>)
    requires Row([t] + rest)
    ensures Row(rest) && L.Lexeme(t)
  {
    assert ([t] + rest)[1..] == rest;
  }

  lemma {:induction false} BraceRead(doc: string, e: Settings, i: nat, cur: Value, ts: seq<string>) returns (p: nat)
    requires i <= |doc| && Row(["{"] + ts) && RendersAt(doc, i, ["{"] + ts)
    ensures p <= |doc| && Row(ts) && RendersAt(doc, p, ts) && P.ReadValue(doc, e, i, cur) == ReadMembers(doc, e, p, Empty, "")
  {
    hide P.ReadToken, NextToken, SkipCommentTokens, L.WellLexed, L.KindOf, T.RendersAt, ReadMembers;
    Reader(doc, i, ["{"] + ts);
    assert Others(["{"] + ts) == ts;
    Kinds("{");
    p := P.ReadToken(doc, i).end;
    assert SkipCommentTokens(doc, i, e.features.allowComments) == P.ReadToken(doc, i);
  }

  /** Behind an opening bracket: the end of the array, or its first element. */
  lemma {:induction false} BracketRead(doc: string, e: Settings, i: nat, cur: Value, ts: seq<string>) returns (j: nat)
    requires i <= |doc| && Row(["["] + ts) && RendersAt(doc, i, ["["] + ts)
    ensures j <= |doc| && Row(ts) && RendersAt(doc, j, ts)
    ensures First(ts) == "]" ==>
              P.ReadValue(doc, e, i, cur) == Outcome(true, P.ReadToken(doc, j).end, ArrayValue(Empty), []) &&
              RendersAt(doc, P.ReadToken(doc, j).end, Others(ts))
    ensures First(ts) != "]" ==> P.ReadValue(doc, e, i, cur) == ReadElements(doc, e, j, Empty, 0)
  {
    hide P.ReadToken, NextToken, SkipCommentTokens, L.WellLexed, L.KindOf, T.RendersAt, ReadElements, P.SkipSpaces;
    Reader(doc, i, ["["] + ts);
    assert Others(["["] + ts) == ts;
    Kinds("[");
    assert SkipCommentTokens(doc, i, e.features.allowComments) == P.ReadToken(doc, i);
    var p := P.ReadToken(doc, i).end;
    j := P.SkipSpaces(doc, p);
    RendersAfterSkip(doc, p, ts);
    Reader(doc, j, ts);
    FirstOfRow(doc, p, ts);
  }

  lemma {:induction false} FirstOfRow(doc: string, p: nat, ts: seq<string>)
    requires p <= |doc| && Row(ts) && RendersAt(doc, p, ts)
    ensures At(doc, P.SkipSpaces(doc, p)) == ']' <==> First(ts) == "]"
  {
    hide P.TokenAt, L.WellLexed, T.RendersAt, P.SkipSpaces, L.IsString, N.NumberLexeme;
    Reader(doc, p, ts);
    L.FirstOf(doc, P.SkipSpaces(doc, p), First(ts));
    if ts != [] { FirstChar(ts[0]); }
  }

  lemma FirstChar(t: string)
    requires L.Lexeme(t)
    ensures t != "" && (t[0] == ']' <==> t == "]")
  {
  }

  lemma {:induction false} ArrayReads(doc: string, e: Settings, i: nat, cur: Value, items: Items, rest: seq<string>)
    requires i <= |doc| && ProperItems(items, e) && Row(Spell(Arr(items), rest)) && RendersAt(doc, i, Spell(Arr(items), rest))
    ensures R.ReadsTo(doc, P.ReadValue(doc, e, i, cur), Meaning(Arr(items), e), rest) && Row(rest)
    decreases items, 3
  {
    hide P.ReadValue, P.ReadElements, L.WellLexed, T.RendersAt, P.ReadToken, Row, SpellItems, ItemValues, ProperItems;
    var ts := SpellItems(items, ["]"] + rest);
    var j := BracketRead(doc, e, i, cur, ts);
    if items.NoItems? {
      NoItemsSpelled(rest, e);
      RowTail("]", rest);
      assert Others(ts) == rest;
    } else {
      FirstIsNoEnd(items, e, ["]"] + rest);
      ItemsRead(doc, e, j, Empty, 0, items, rest);
      assert R.AllBelow(Empty, Index(0));
      AppendNothing(ItemValues(items, 0, e));
    }
  }

  lemma {:induction false} NoItemsSpelled(rest: seq<string>, e: Settings)
    ensures SpellItems(NoItems, ["]"] + rest) == ["]"] + rest && ItemValues(NoItems, 0, e) == Empty
  {
  }

  lemma {:induction false} AppendNothing(m: ObjectValues)
    ensures R.Append(Empty, m) == m
  {
  }

  /** An array that holds something does not look empty. */
  lemma {:induction false} FirstIsNoEnd(items: Items, e: Settings, rest: seq<string>)
    requires items.Item? && ProperItems(items, e)
    ensures First(SpellItems(items, rest)) != "]"
  {
    hide R.Passed, NumberValue, S.DecodeBody;
  }

  lemma {:induction false} ItemsRead(doc: string, e: Settings, i: nat, elements: ObjectValues, k: nat, items: Items, rest: seq<string>)
    requires i <= |doc| && items.Item? && ProperItems(items, e) && R.AllBelow(elements, Index(k))
    requires Row(SpellItems(items, ["]"] + rest)) && RendersAt(doc, i, SpellItems(items, ["]"] + rest))
    ensures R.ReadsTo(doc, ReadElements(doc, e, i, elements, k), ArrayValue(R.Append(elements, ItemValues(items, k, e))), rest)
    ensures Row(rest)
    decreases items, 2
  {
    hide P.ReadValue, P.ReadElements, L.WellLexed, T.RendersAt, P.ReadToken, NextToken, Row, Proper, Meaning, Spell, Put, Slot,
         R.AllBelow, R.Append;
    var key, first, more := Index(k), items.first, items.more;
    var after := if more.Item? then [","] + SpellItems(more, ["]"] + rest) else ["]"] + rest;
    Reads(doc, e, i, Slot(elements, key), first, after);
    R.ElementRound(doc, e, i, elements, k);
    var p := P.ReadValue(doc, e, i, Slot(elements, key)).pos;
    Separator(doc, p, after[0], after[1..]);
    R.PutAppends(elements, key, Meaning(first, e), ItemValues(more, k + 1, e));
    if more.Item? {
      assert after[1..] == SpellItems(more, ["]"] + rest);
      R.StaysBelow(elements, key, Meaning(first, e), Index(k + 1));
      ItemsRead(doc, e, NextToken(doc, p).end, Put(elements, key, Meaning(first, e)), k + 1, more, rest);
    } else {
      assert after[1..] == rest;
      R.AppendEmpty(Put(elements, key, Meaning(first, e)));
    }
  }

  /** A mark between values, or behind the last of them. */
  lemma {:induction false} Separator(doc: string, p: nat, mark: string, rest: seq<string>)
    requires mark in [",", "]", "}", ":"] && p <= |doc| && Row([mark] + rest) && RendersAt(doc, p, [mark] + rest)
    ensures var t := P.ReadToken(doc, p);
            t == NextToken(doc, p) && t.end <= |doc| && RendersAt(doc, t.end, rest) && Row(rest) &&
            t.kind == (if mark == "," then ArraySeparator else if mark == "]" then ArrayEnd
                       else if mark == "}" then ObjectEnd else MemberSeparator)
  {
    hide P.ReadToken, NextToken, L.WellLexed, L.KindOf, T.RendersAt;
    Reader(doc, p, [mark] + rest);
    Kinds(mark);
    assert Others([mark] + rest) == rest;
  }

  /** The name of a member and its colon. */
  lemma {:induction false} NameRead(doc: string, e: Settings, i: nat, name: Syntax, ts: seq<string>) returns (q: nat)
    requires i <= |doc| && ProperName(name, e) && Row(Spell(name, [":"] + ts)) && RendersAt(doc, i, Spell(name, [":"] + ts))
    ensures var t := NextToken(doc, i);
            t.end <= |doc| && t.kind != ObjectEnd && NameOf(doc, e, t) == MemberName(NameText(name, e)) &&
            P.ReadToken(doc, t.end).kind == MemberSeparator && q == P.ReadToken(doc, t.end).end
    ensures q <= |doc| && RendersAt(doc, q, ts) && Row(ts)
  {
    hide P.ReadToken, NextToken, L.WellLexed, L.KindOf, T.RendersAt, S.DecodeBody, R.Passed, N.NumberLexeme, NumberValue, NumberOf,
         L.IsString;
    var all := Spell(name, [":"] + ts);
    assert First(all) == all[0] && Others(all) == [":"] + ts;
    Reader(doc, i, all);
    Kinds(all[0]);
    var t := P.ReadToken(doc, i);
    Separator(doc, t.end, ":", ts);
    q := P.ReadToken(doc, t.end).end;
    match name
    case Number(text) => NumberMeans(text, e);
    case Str(b) =>
      StringIs(b);
      L.SliceContents(doc, t, all[0]);
    case _ =>
  }

  /** One round of the member loop behind a name and its colon. */
  lemma {:induction false} RoundGoesOn(doc: string, e: Settings, i: nat, m: ObjectValues, previous: string, text: string)
    requires i <= |doc|
    requires var t := NextToken(doc, i);
             t.kind != ObjectEnd && NameOf(doc, e, t) == MemberName(text) && P.ReadToken(doc, t.end).kind == MemberSeparator
    ensures var key := Name(Truncate(text));
            var r := P.ReadValue(doc, e, P.ReadToken(doc, NextToken(doc, i).end).end, Slot(m, key));
            var u, last := P.ReadToken(doc, r.pos), NextToken(doc, r.pos);
            var extended := Put(m, key, r.value);
            if !r.ok then !ReadMembers(doc, e, i, m, previous).ok
            else
              (u.kind != ObjectEnd && u.kind != ArraySeparator && u.kind != CommentToken ==>
                 !ReadMembers(doc, e, i, m, previous).ok) &&
              (u == last && u.kind == ObjectEnd ==>
                 ReadMembers(doc, e, i, m, previous) == Outcome(true, last.end, ObjectValue(extended), [])) &&
              (u == last && u.kind == ArraySeparator ==>
                 ReadMembers(doc, e, i, m, previous) == ReadMembers(doc, e, last.end, extended, text))
  {
    hide P.ReadToken, NextToken, NameOf, P.ReadValue, Put, Slot, Truncate, Recover;
    var t := NextToken(doc, i);
    assert ReadMembers(doc, e, i, m, previous) == ReadMemberValue(doc, e, t.end, m, text);
  }

  lemma {:induction false} NoMemberRead(doc: string, e: Settings, i: nat, m: ObjectValues)
    requires i <= |doc| && NextToken(doc, i).kind == ObjectEnd
    ensures ReadMembers(doc, e, i, m, "") == Outcome(true, NextToken(doc, i).end, ObjectValue(m), [])
  {
    hide NextToken;
  }

  lemma {:induction false} MembersRead(doc: string, e: Settings, i: nat, m: ObjectValues, previous: string, members: Members, rest: seq<string>)
    requires i <= |doc| && ProperMembers(members, e) && (members.NoMembers? ==> previous == "")
    requires Row(SpellMembers(members, ["}"] + rest)) && RendersAt(doc, i, SpellMembers(members, ["}"] + rest))
    ensures R.ReadsTo(doc, ReadMembers(doc, e, i, m, previous), ObjectValue(Gather(m, members, e)), rest) && Row(rest)
    decreases members, 2
  {
    hide P.ReadValue, P.ReadMembers, L.WellLexed, T.RendersAt, P.ReadToken, NextToken, NameOf, Row, Proper, ProperName, Meaning, Spell,
         Put, Slot, NameText, Truncate;
    if members.NoMembers? {
      Separator(doc, i, "}", rest);
      NoMemberRead(doc, e, i, m);
    } else {
      var name, value, more := members.name, members.value, members.more;
      var after := if members.comma then [","] + SpellMembers(more, ["}"] + rest) else ["}"] + rest;
      var q := NameRead(doc, e, i, name, Spell(value, after));
      var key := KeyOf(name, e);
      Reads(doc, e, q, Slot(m, key), value, after);
      RoundGoesOn(doc, e, i, m, previous, NameText(name, e));
      var p := P.ReadValue(doc, e, q, Slot(m, key)).pos;
      Separator(doc, p, after[0], after[1..]);
      if members.comma {
        assert after[1..] == SpellMembers(more, ["}"] + rest);
        MembersRead(doc, e, NextToken(doc, p).end, Put(m, key, Meaning(value, e)), NameText(name, e), more, rest);
      } else {
        assert after[1..] == rest;
      }
    }
  }

  // ------------------------------------------------------------------ what is read was spelled

  /** What a value that was read starts with. */
  lemma {:induction false} ReadStarts(doc: string, e: Settings, i: nat, cur: Value, t: Token)
    requires i <= |doc| && SkipCommentTokens(doc, i, e.features.allowComments) == t && P.ReadValue(doc, e, i, cur).ok
    ensures t.kind in {ObjectBegin, ArrayBegin, NumberToken, StringToken, TrueToken, FalseToken, NullToken, ArraySeparator}
    ensures t.kind == NumberToken ==> NumberOf(e, doc[t.start..t.end]).Some?
    ensures t.kind == StringToken ==> S.DecodeBody(Contents(doc, t), 0, "").Text?
  {
    hide SkipCommentTokens, P.ReadMembers, P.ReadArray, S.DecodeBody, NumberOf, Truncate;
  }

  /** The scalar at the front of a row that was read. */
  lemma ScalarSpelled(doc: string, e: Settings, i: nat, cur: Value, ts: seq<string>) returns (d: Syntax)
    requires i <= |doc| && Row(ts) && RendersAt(doc, i, ts) && P.ReadValue(doc, e, i, cur).ok
    requires First(ts) != "{" && First(ts) != "[" && First(ts) != ","
    ensures ts != [] && ts == Spell(d, Others(ts)) && Proper(d, e, false) && (d.Word? || d.Number? || d.Str?)
  {
    hide P.ReadToken, P.ReadValue, NextToken, SkipCommentTokens, L.WellLexed, L.KindOf, T.RendersAt, S.DecodeBody, R.Passed,
         N.NumberLexeme, NumberValue, NumberOf, Truncate;
    Reader(doc, i, ts);
    Kinds(First(ts));
    var t := P.ReadToken(doc, i);
    ReadStarts(doc, e, i, cur, t);
    var text := First(ts);
    if t.kind == NumberToken {
      NumberMeans(text, e);
      d := Number(text);
    } else if t.kind == StringToken {
      L.SliceContents(doc, t, text);
      d := Str(text[1..|text| - 1]);
    } else {
      d := Word(text);
    }
  }

  lemma {:induction false} CommaSpelled(doc: string, e: Settings, i: nat, cur: Value, ts: seq<string>)
    requires i <= |doc| && Row(ts) && RendersAt(doc, i, ts) && P.ReadValue(doc, e, i, cur).ok && First(ts) == ","
    ensures e.features.allowDroppedNullPlaceholders
  {
    hide P.ReadToken, NextToken, SkipCommentTokens, L.WellLexed, L.KindOf, T.RendersAt, P.ReadMembers, P.ReadArray;
    Reader(doc, i, ts);
    Kinds(",");
    assert SkipCommentTokens(doc, i, e.features.allowComments) == P.ReadToken(doc, i);
  }

  /** Whatever `readValue` accepts at the front of a row of lexemes is spelled by a proper tree. */
  lemma {:induction false} Spelled(doc: string, e: Settings, i: nat, cur: Value, ts: seq<string>) returns (d: Syntax, rest: seq<string>)
    requires i <= |doc| && Row(ts) && RendersAt(doc, i, ts) && P.ReadValue(doc, e, i, cur).ok
    ensures ts == Spell(d, rest) && Proper(d, e, CommaFirst(rest)) && Row(rest) && |rest| <= |ts|
    decreases |ts|, 1
  {
    hide P.ReadValue, P.ReadMembers, L.WellLexed, T.RendersAt, P.ReadElements, Row, P.ReadToken, SpellItems, SpellMembers,
         ProperItems, ProperMembers;
    FirstIsHead(ts) by { assert Row(ts); }
    if First(ts) == "{" {
      var p := BraceRead(doc, e, i, cur, Others(ts));
      var members;
      members, rest := MembersSpelled(doc, e, p, Empty, "", Others(ts));
      d := Obj(members);
    } else if First(ts) == "[" {
      var j := BracketRead(doc, e, i, cur, Others(ts));
      if First(Others(ts)) == "]" {
        d, rest := Arr(NoItems), Others(Others(ts));
        FirstIsHead(Others(ts));
        NoItemsSpelled(rest, e);
        assert ProperItems(NoItems, e) by { NoItemsProper(e); }
      } else {
        var items;
        items, rest := ItemsSpelled(doc, e, j, Empty, 0, Others(ts));
        d := Arr(items);
      }
    } else if First(ts) == "," {
      CommaSpelled(doc, e, i, cur, ts);
      d, rest := Nothing, ts;
    } else {
      d := ScalarSpelled(doc, e, i, cur, ts);
      rest := Others(ts);
    }
  }

  lemma {:induction false} NoItemsProper(e: Settings)
    ensures ProperItems(NoItems, e)
  {
  }

  /** What stands behind a value that was read. */
  lemma {:induction false} After(doc: string, p: nat, rest: seq<string>)
    requires p <= |doc| && Row(rest) && RendersAt(doc, p, rest)
    ensures var t := P.ReadToken(doc, p);
            t == NextToken(doc, p) && t.kind != CommentToken && t.end <= |doc| && RendersAt(doc, t.end, Others(rest)) && Row(Others(rest)) &&
            (t.kind == ArraySeparator <==> First(rest) == ",") && (t.kind == ArrayEnd <==> First(rest) == "]") &&
            (t.kind == ObjectEnd <==> First(rest) == "}") && (t.kind == MemberSeparator <==> First(rest) == ":")
    ensures rest != [] ==> rest == [rest[0]] + Others(rest)
  {
    hide P.ReadToken, NextToken, L.WellLexed, L.KindOf, T.RendersAt, L.Lexeme;
    Reader(doc, p, rest);
    FirstIsHead(rest);
    Kinds(First(rest));
  }

  lemma {:induction false} ItemsSpelled(doc: string, e: Settings, i: nat, elements: ObjectValues, k: nat, ts: seq<string>)
    returns (items: Items, rest: seq<string>)
    requires i <= |doc| && Row(ts) && RendersAt(doc, i, ts) && ReadElements(doc, e, i, elements, k).ok
    ensures items.Item? && ts == SpellItems(items, ["]"] + rest) && ProperItems(items, e) && Row(rest) && |rest| <= |ts|
    decreases |ts|, 2
  {
    hide P.ReadValue, P.ReadElements, L.WellLexed, T.RendersAt, P.ReadToken, NextToken, Row, Proper, Meaning, Spell, Put, Slot;
    var key := Index(k);
    R.ElementRound(doc, e, i, elements, k);
    ElementEnds(doc, e, i, elements, k);
    var d, more := Spelled(doc, e, i, Slot(elements, key), ts);
    Reads(doc, e, i, Slot(elements, key), d, more);
    var r := P.ReadValue(doc, e, i, Slot(elements, key));
    After(doc, r.pos, more);
    if First(more) == "]" {
      items, rest := Item(d, NoItems), Others(more);
    } else {
      var others;
      others, rest := ItemsSpelled(doc, e, NextToken(doc, r.pos).end, Put(elements, key, r.value), k + 1, Others(more));
      items := Item(d, others);
    }
  }

  /** An element is followed by a comma or the closing bracket. */
  lemma {:induction false} ElementEnds(doc: string, e: Settings, i: nat, elements: ObjectValues, k: nat)
    requires i <= |doc| && ReadElements(doc, e, i, elements, k).ok
    ensures var r := P.ReadValue(doc, e, i, Slot(elements, Index(k)));
            r.ok && NextToken(doc, r.pos).kind in {ArraySeparator, ArrayEnd}
  {
    hide P.ReadValue, NextToken, Put, Slot, Recover;
  }

  /** The name at the front of a row, when the member loop goes on with it. */
  lemma {:induction false} NameSpelled(doc: string, e: Settings, i: nat, ts: seq<string>) returns (name: Syntax)
    requires i <= |doc| && Row(ts) && RendersAt(doc, i, ts) && NameOf(doc, e, NextToken(doc, i)).MemberName?
    requires P.ReadToken(doc, NextToken(doc, i).end).kind == MemberSeparator
    ensures |ts| >= 2 && ts[1] == ":" && ts == Spell(name, [":"] + ts[2..]) && ProperName(name, e)
  {
    hide P.ReadToken, NextToken, L.WellLexed, L.KindOf, T.RendersAt, S.DecodeBody, R.Passed, N.NumberLexeme, NumberValue, NumberOf;
    Reader(doc, i, ts);
    Kinds(First(ts));
    var t, text := NextToken(doc, i), First(ts);
    After(doc, t.end, Others(ts));
    assert ts == [ts[0]] + ([":"] + ts[2..]);
    if t.kind == NumberToken {
      NumberMeans(text, e);
      name := Number(text);
    } else {
      L.SliceContents(doc, t, text);
      name := Str(text[1..|text| - 1]);
    }
  }

  lemma {:induction false} MembersSpelled(doc: string, e: Settings, i: nat, m: ObjectValues, previous: string, ts: seq<string>)
    returns (members: Members, rest: seq<string>)
    requires i <= |doc| && Row(ts) && RendersAt(doc, i, ts) && ReadMembers(doc, e, i, m, previous).ok
    ensures ts == SpellMembers(members, ["}"] + rest) && ProperMembers(members, e) && Row(rest) && |rest| <= |ts|
    ensures members.NoMembers? ==> previous == ""
    decreases |ts|, 2
  {
    hide P.ReadValue, P.ReadMembers, L.WellLexed, T.RendersAt, P.ReadToken, NextToken, NameOf, Row, Proper, ProperName, Meaning, Spell,
         Put, Slot, NameText, Truncate;
    After(doc, i, ts);
    if First(ts) == "}" && previous == "" {
      members, rest := NoMembers, Others(ts);
    } else {
      LoopGoesOn(doc, e, i, m, previous);
      var name := NameSpelled(doc, e, i, ts);
      var q := NameRead(doc, e, i, name, ts[2..]);
      RoundGoesOn(doc, e, i, m, previous, NameText(name, e));
      var key := KeyOf(name, e);
      var d, more := Spelled(doc, e, q, Slot(m, key), ts[2..]);
      Reads(doc, e, q, Slot(m, key), d, more);
      var r := P.ReadValue(doc, e, q, Slot(m, key));
      After(doc, r.pos, more);
      if First(more) == "}" {
        members, rest := Member(name, d, false, NoMembers), Others(more);
      } else {
        var others;
        others, rest := MembersSpelled(doc, e, NextToken(doc, r.pos).end, Put(m, key, r.value), NameText(name, e), Others(more));
        members := Member(name, d, true, others);
      }
    }
  }

  /** Where the member loop does not end it has read a name and a colon. */
  lemma {:induction false} LoopGoesOn(doc: string, e: Settings, i: nat, m: ObjectValues, previous: string)
    requires i <= |doc| && ReadMembers(doc, e, i, m, previous).ok
    requires !(NextToken(doc, i).kind == ObjectEnd && previous == "")
    ensures NameOf(doc, e, NextToken(doc, i)).MemberName?
    ensures P.ReadToken(doc, NextToken(doc, i).end).kind == MemberSeparator
    ensures NextToken(doc, i).kind != ObjectEnd
  {
    hide P.ReadToken, NextToken, P.ReadValue, Put, Slot, Truncate, Recover, S.DecodeBody, NumberOf;
  }

  // ------------------------------------------------------------------ whole texts

  /** A text that spells a proper tree, whatever follows it, parses without error to what the tree means, under every
    * setting and over every previous root, unless a strict root is no container. */
  lemma {:induction false} TreeParses(text: string, e: Settings, root: Value, d: Syntax, rest: seq<string>)
    requires LaysOut(text, Spell(d, rest)) && Row(Spell(d, rest)) && Proper(d, e, CommaFirst(rest))
    ensures var r := Parse(text, e, root);
            if e.features.strictRoot && !d.Arr? && !d.Obj? then !r.ok else r.ok && r.errors == [] && r.value == Meaning(d, e)
  {
    hide P.ReadValue, SkipCommentTokens, L.WellLexed, T.RendersAt, Proper;
    Reads(text, e, 0, root, d, rest);
    ContainersMean(d, e, CommaFirst(rest));
  }

  lemma {:induction false} ContainersMean(d: Syntax, e: Settings, comma: bool)
    requires Proper(d, e, comma)
    ensures IsContainer(Meaning(d, e)) <==> d.Arr? || d.Obj?
  {
  }

  /** The reader accepts no other row of lexemes: whenever a text of lexemes parses, it begins with the spelling of a
    * proper tree. */
  lemma {:induction false} ParsedIsTree(text: string, e: Settings, root: Value, ts: seq<string>) returns (d: Syntax, rest: seq<string>)
    requires LaysOut(text, ts) && Row(ts) && Parse(text, e, root).ok
    ensures ts == Spell(d, rest) && Proper(d, e, CommaFirst(rest)) && (e.features.strictRoot ==> d.Arr? || d.Obj?)
    ensures Parse(text, e, root).value == Meaning(d, e)
  {
    hide P.ReadValue, SkipCommentTokens, L.WellLexed, T.RendersAt, Proper, Spell, Meaning;
    d, rest := Spelled(text, e, 0, root, ts);
    TreeParses(text, e, root, d, rest);
  }
}
