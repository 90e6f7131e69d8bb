/** The two printers of jsoncpp. Their specifications are the lexemes of the value: running
  * text for `FastWriter`, a layout for `StyledWriter`.
  */
module JsonWriter {
  import opened Wrappers
  import opened JsonValue
  import N = JsonNumber
  import S = JsonString
  import opened P = JsonParsing
  import opened T = JsonTokens
  import R = JsonRoundTrip

  // ------------------------------------------------------------------ member access

  /** `getMemberNames`. */
  function Names(m: ObjectValues): (names: seq<CString>)
    requires Named(m)
    ensures |names| == Length(m)
  {
    if m.Empty? then [] else [m.key.cstr] + Names(m.rest)
  }

  function Drop(m: ObjectValues, i: nat): ObjectValues
    requires i <= Length(m)
  {
    if i == 0 then m else Drop(m.rest, i - 1)
  }

  /** Looking members up by name, in the order of their names, visits the entries in order. */
  lemma {:induction false} NamesVisitEntries(m: ObjectValues, i: nat)
    requires Named(m) && MapWellFormed(m) && i < Length(m)
    ensures var d := Drop(m, i);
            d.Entry? && Named(d) && MapWellFormed(d) && d.key == Name(Names(m)[i]) && d.rest == Drop(m, i + 1) &&
            Find(m, d.key) == Some(d.value) && (d.key == m.key || KeyLess(m.key, d.key)) &&
            SizeOfMap(d) <= SizeOfMap(m)
  {
    if i > 0 {
      NamesVisitEntries(m.rest, i - 1);
      var d := Drop(m, i);
      KeyTotal(m.key, m.rest.key);
      if d.key != m.rest.key { KeyTransitive(m.key, m.rest.key, d.key); }
      KeyTotal(m.key, d.key);
    }
  }

  lemma {:induction false} DropAll(m: ObjectValues)
    ensures Drop(m, Length(m)) == Empty
  {
    if m.Entry? { DropAll(m.rest); }
  }

  // ------------------------------------------------------------------ lexemes round by round

  /** What one round of the element loop adds. */
  ghost function ElementStep(m: ObjectValues, index: nat, style: Style): seq<string>
    requires MapWellFormed(m)
  {
    FindWellFormed(m, Index(index));
    (if index > 0 then [","] else []) + Tokens(Slot(m, Index(index)), style)
  }

  /** The lexemes still to come before the element at `index`. */
  ghost function Rest(m: ObjectValues, index: nat, size: nat, style: Style): seq<string>
    requires MapWellFormed(m)
  {
    if index == 0 then ElementTokens(m, 0, size, style)
    else if index < size then [","] + ElementTokens(m, index, size, style) else []
  }

  lemma {:induction false} RestEnds(m: ObjectValues, size: nat, style: Style)
    requires MapWellFormed(m)
    ensures Rest(m, size, size, style) == []
  {
  }

  lemma {:induction false} RestStep(m: ObjectValues, index: nat, size: nat, style: Style)
    requires index < size && MapWellFormed(m)
    ensures Rest(m, index, size, style) == ElementStep(m, index, style) + Rest(m, index + 1, size, style)
  {
    FindWellFormed(m, Index(index));
    var ts, next := Tokens(Slot(m, Index(index)), style), Rest(m, index + 1, size, style);
    assert ElementTokens(m, index, size, style) == ts + next;
    assert [","] + (ts + next) == [","] + ts + next;
    assert [] + ts == ts;
  }

  /** What one round of the member loop adds. */
  ghost function MemberStep(m: ObjectValues, it: nat, style: Style): seq<string>
    requires Named(m) && MapWellFormed(m) && it < Length(m)
  {
    FindWellFormed(m, Name(Names(m)[it]));
    (if it > 0 then [","] else []) + ([S.Quoted(Names(m)[it]), ":"] + Tokens(Slot(m, Name(Names(m)[it])), style))
  }

  /** The lexemes still to come before the member number `it`. */
  ghost function RestMembers(m: ObjectValues, it: nat, style: Style): seq<string>
    requires Named(m) && MapWellFormed(m) && it <= Length(m)
  {
    if it == 0 then MemberTokens(m, style)
    else if it < Length(m) then NamesVisitEntries(m, it); [","] + MemberTokens(Drop(m, it), style)
    else []
  }

  lemma {:induction false} RestMembersStep(m: ObjectValues, it: nat, style: Style)
    requires Named(m) && MapWellFormed(m) && it < Length(m)
    ensures RestMembers(m, it, style) == MemberStep(m, it, style) + RestMembers(m, it + 1, style)
  {
    hide T.Tokens, T.MemberTokens, RestMembers, MemberStep, T.MapWellFormed, T.Named;
    var d := MemberAt(m, it, style);
    var named, next := [S.Quoted(d.key.cstr), ":"] + Tokens(d.value, style), RestMembers(m, it + 1, style);
    assert [","] + (named + next) == [","] + named + next;
    assert [] + named == named;
  }

  /** Both sides of it, spelled out for the entry the round visits. */
  lemma MemberAt(m: ObjectValues, it: nat, style: Style) returns (d: ObjectValues)
    requires Named(m) && MapWellFormed(m) && it < Length(m)
    ensures d.Entry? && d.key.Name? && WellFormed(d.value)
    ensures var named, comma := [S.Quoted(d.key.cstr), ":"] + Tokens(d.value, style), if it > 0 then [","] else [];
            RestMembers(m, it, style) == comma + (named + RestMembers(m, it + 1, style)) &&
            MemberStep(m, it, style) == comma + named
  {
    hide T.Tokens, S.Quoted;
    NamesVisitEntries(m, it);
    if it + 1 < Length(m) { NamesVisitEntries(m, it + 1); } else { DropAll(m); }
    d := Drop(m, it);
    FindWellFormed(m, d.key);
    var rest := MemberTokens(d, style);
    assert [] + rest == rest;
  }

  // ------------------------------------------------------------------ FastWriter

  class FastWriter {
    const yamlCompatibilityEnabled_: bool
    const dropNullPlaceholders_: bool
    const omitEndingLineFeed_: bool
    const printDouble: real -> string
    var document_: string

    constructor (yamlCompatibilityEnabled: bool, dropNullPlaceholders: bool, omitEndingLineFeed: bool,
                 printDouble: real -> string)
      ensures yamlCompatibilityEnabled_ == yamlCompatibilityEnabled
      ensures dropNullPlaceholders_ == dropNullPlaceholders
      ensures omitEndingLineFeed_ == omitEndingLineFeed
      ensures this.printDouble == printDouble
    {
      yamlCompatibilityEnabled_ := yamlCompatibilityEnabled;
      dropNullPlaceholders_ := dropNullPlaceholders;
      omitEndingLineFeed_ := omitEndingLineFeed;
      this.printDouble := printDouble;
      document_ := "";
    }

    function MyStyle(): Style { Style(if dropNullPlaceholders_ then "" else "null", printDouble) }

    function Colon(): string { if yamlCompatibilityEnabled_ then ": " else ":" }

    method WriteValue(value: Value)
      requires WellFormed(value) && PrintsNumbers(printDouble)
      modifies `document_
      ensures document_ == old(document_) + Joined(Tokens(value, MyStyle()), Colon())
      decreases Size(value)
    {
      match value {
        case NullValue =>
          if !dropNullPlaceholders_ { document_ := document_ + "null"; }
          JoinedOne(MyStyle().nullText, Colon());
        case IntValue(i) =>
          var text := N.IntToText(i);
          document_ := document_ + text;
          JoinedOne(text, Colon());
          assert text[0] == '-' || N.IsDigit(text[0]);
        case UIntValue(u) =>
          var text := N.UIntToText(u);
          document_ := document_ + text;
          JoinedOne(text, Colon());
        case RealValue(r) =>
          assert N.NumberLexeme(printDouble(r));
          document_ := document_ + printDouble(r);
          JoinedOne(printDouble(r), Colon());
        case StringValue(s) =>
          var text := S.ValueToQuotedString(s);
          document_ := document_ + text;
          JoinedOne(text, Colon());
        case BooleanValue(b) =>
          document_ := document_ + if b then "true" else "false";
          JoinedOne(if b then "true" else "false", Colon());
        case ArrayValue(m) => WriteArray(m);
        case ObjectValue(m) => WriteObject(m);
      }
    }

    method WriteArray(m: ObjectValues)
      requires Indexed(m) && MapWellFormed(m) && PrintsNumbers(printDouble)
      modifies `document_
      ensures document_ == old(document_) + Joined(Tokens(ArrayValue(m), MyStyle()), Colon())
      decreases SizeOfMap(m), 1
    {
      hide T.ElementTokens, T.Joined, T.MapWellFormed;
      ghost var before := document_;
      var size := Rounds(ArraySize(m));
      WriteMark("[");
      ghost var done := ["["];
      var index := 0;
      while index < size
        invariant index <= size
        invariant done + Rest(m, index, size, MyStyle()) == ["["] + ElementTokens(m, 0, size, MyStyle())
        invariant document_ == before + Joined(done, Colon())
      {
        RestStep(m, index, size, MyStyle());
        Grow(before, done, ElementStep(m, index, MyStyle()), Rest(m, index + 1, size, MyStyle()));
        done := done + ElementStep(m, index, MyStyle());
        WriteElement(m, index);
        index := index + 1;
      }
      RestEnds(m, size, MyStyle());
      Grow(before, done, ["]"], []);
      WriteMark("]");
    }

    method WriteMark(mark: string)
      requires mark != ":"
      modifies `document_
      ensures document_ == old(document_) + Joined([mark], Colon())
    {
      JoinedOne(mark, Colon());
      document_ := document_ + mark;
    }

    /** One round of the element loop; a missing element is the shared null value. */
    method WriteElement(m: ObjectValues, index: nat)
      requires MapWellFormed(m) && PrintsNumbers(printDouble)
      modifies `document_
      ensures document_ == old(document_) + Joined(ElementStep(m, index, MyStyle()), Colon())
      decreases SizeOfMap(m), 0
    {
      FindWellFormed(m, Index(index));
      ghost var ts := Tokens(Slot(m, Index(index)), MyStyle());
      JoinedConcat([","], ts, Colon());
      assert [] + ts == ts;
      if index > 0 { WriteMark(","); }
      match Find(m, Index(index)) {
        case Some(v) => WriteValue(v);
        case None =>
          if !dropNullPlaceholders_ { document_ := document_ + "null"; }
          JoinedOne(MyStyle().nullText, Colon());
      }
    }

    lemma {:induction false} Grow(before: string, done: seq<string>, more: seq<string>, rest: seq<string>)
      ensures before + Joined(done + more, Colon()) == before + Joined(done, Colon()) + Joined(more, Colon())
      ensures done + (more + rest) == done + more + rest
      ensures done + [] == done
    {
      hide T.Joined;
      JoinedConcat(done, more, Colon());
    }

    method WriteObject(m: ObjectValues)
      requires Named(m) && MapWellFormed(m) && PrintsNumbers(printDouble)
      modifies `document_
      ensures document_ == old(document_) + Joined(Tokens(ObjectValue(m), MyStyle()), Colon())
      decreases SizeOfMap(m), 1
    {
      ghost var before := document_;
      var members := Names(m);
      WriteMark("{");
      ghost var done := ["{"];
      var it := 0;
      while it < |members|
        invariant it <= |members|
        invariant done + RestMembers(m, it, MyStyle()) == ["{"] + MemberTokens(m, MyStyle())
        invariant document_ == before + Joined(done, Colon())
      {
        RestMembersStep(m, it, MyStyle());
        Grow(before, done, MemberStep(m, it, MyStyle()), RestMembers(m, it + 1, MyStyle()));
        done := done + MemberStep(m, it, MyStyle());
        WriteMember(m, members[it], it);
        it := it + 1;
      }
      Grow(before, done, ["}"], []);
      WriteMark("}");
    }

    /** One round of the member loop. */
    method WriteMember(m: ObjectValues, name: CString, it: nat)
      requires Named(m) && MapWellFormed(m) && it < Length(m) && name == Names(m)[it] && PrintsNumbers(printDouble)
      modifies `document_
      ensures document_ == old(document_) + Joined(MemberStep(m, it, MyStyle()), Colon())
      decreases SizeOfMap(m), 0
    {
      hide T.Tokens, T.MapWellFormed, T.Joined, S.QuoteBody;
      NamesVisitEntries(m, it);
      FindWellFormed(m, Name(name));
      ghost var ts := Tokens(Slot(m, Name(name)), MyStyle());
      JoinedConcat([","], [S.Quoted(name), ":"] + ts, Colon());
      JoinedConcat([S.Quoted(name), ":"], ts, Colon());
      assert [] + ([S.Quoted(name), ":"] + ts) == [S.Quoted(name), ":"] + ts;
      if it > 0 { WriteMark(","); }
      WriteName(name);
      WriteValue(Slot(m, Name(name)));
    }

    method WriteName(name: CString)
      modifies `document_
      ensures document_ == old(document_) + Joined([S.Quoted(name), ":"], Colon())
    {
      var quoted := S.ValueToQuotedString(Some(name));
      JoinedConcat([quoted], [":"], Colon());
      JoinedOne(quoted, Colon());
      JoinedOne(":", Colon());
      assert [quoted] + [":"] == [quoted, ":"];
      document_ := document_ + quoted;
      document_ := document_ + if yamlCompatibilityEnabled_ then ": " else ":";
    }

    /** `write`: the lexemes in a row. It is the text the round trip is about, under the writer's options. */
    method Write(root: Value) returns (text: string)
      requires WellFormed(root) && PrintsNumbers(printDouble)
      modifies `document_
      ensures text == Joined(Tokens(root, MyStyle()), Colon()) + if omitEndingLineFeed_ then "" else "\n"
      ensures forall e: Settings :: e.printDouble == printDouble ==>
                text == R.FastText(root, dropNullPlaceholders_, Colon(), omitEndingLineFeed_, e)
    {
      hide T.Tokens, T.Joined, T.WellFormed;
      document_ := "";
      WriteValue(root);
      if !omitEndingLineFeed_ { document_ := document_ + "\n"; }
      text := document_;
    }
  }

  /** What it looks like: a member and two elements, under each of the options. */
  lemma {:induction false} ObjectLooks(w: FastWriter)
    ensures Joined(Tokens(ObjectValue(Entry(Name("a"), NullValue, Empty)), w.MyStyle()), w.Colon()) ==
            "{\"a\"" + (if w.yamlCompatibilityEnabled_ then ": " else ":") + (if w.dropNullPlaceholders_ then "" else "null") + "}"
  {
    var nothing := w.MyStyle().nullText;
    FiveInRow("{", "\"a\"", ":", nothing, "}", w.Colon());
    assert S.Quoted("a") == "\"a\"" by { assert S.QuoteBody("a") == "a" + S.QuoteBody(""); }
    hide S.Quoted, T.Joined;
    var m := Entry(Name("a"), NullValue, Empty);
    assert MemberTokens(m, w.MyStyle()) == ["\"a\"", ":"] + [nothing] + [];
    assert Tokens(ObjectValue(m), w.MyStyle()) == ["{", "\"a\"", ":", nothing, "}"];
  }

  lemma {:induction false} ArrayLooks(w: FastWriter)
    ensures var m := Entry(Index(0), BooleanValue(true), Entry(Index(1), BooleanValue(false), Empty));
            WellFormed(ArrayValue(m)) && Joined(Tokens(ArrayValue(m), w.MyStyle()), w.Colon()) == "[true,false]"
  {
    FiveInRow("[", "true", ",", "false", "]", w.Colon());
    hide T.Joined;
    var m := Entry(Index(0), BooleanValue(true), Entry(Index(1), BooleanValue(false), Empty));
    assert Extent(m) == 2 && Rounds(ArraySize(m)) == 2;
    assert ElementTokens(m, 1, 2, w.MyStyle()) == ["false"];
    assert ElementTokens(m, 0, 2, w.MyStyle()) == ["true"] + ([","] + ["false"]);
    assert Tokens(ArrayValue(m), w.MyStyle()) == ["[", "true", ",", "false", "]"];
  }

  lemma {:induction false} FiveInRow(a: string, b: string, c: string, d: string, e: string, colon: string)
    requires a != ":" && b != ":" && d != ":" && e != ":"
    ensures Joined([a, b, c, d, e], colon) == a + b + (if c == ":" then colon else c) + d + e
  {
    var ts := [a, b, c, d, e];
    assert ts[1..] == [b, c, d, e] && [b, c, d, e][1..] == [c, d, e] && [c, d, e][1..] == [d, e] && [d, e][1..] == [e] && [e][1..] == [];
    assert Joined([e], colon) == e;
    assert Joined([d, e], colon) == d + e;
    assert Joined([c, d, e], colon) == (if c == ":" then colon else c) + (d + e);
    assert Joined([b, c, d, e], colon) == b + ((if c == ":" then colon else c) + (d + e));
  }

  // ------------------------------------------------------------------ StyledWriter

  const RIGHT_MARGIN: int := 74
  const INDENT_SIZE: nat := 3

  /** No array is so large that three times its size leaves the range of `int`; the layout
    * decision of the source multiplies in `int`. */
  predicate Small(v: Value)
    requires WellFormed(v)
  {
    match v
    case ArrayValue(m) => Extent(m) * 3 <= MAX_INT && SmallIn(m)
    case ObjectValue(m) => SmallIn(m)
    case _ => true
  }

  predicate SmallIn(m: ObjectValues)
    requires MapWellFormed(m)
  {
    m.Entry? ==> Small(m.value) && SmallIn(m.rest)
  }

  lemma {:induction false} SmallSlot(m: ObjectValues, key: CZString)
    requires MapWellFormed(m) && SmallIn(m)
    ensures WellFormed(Slot(m, key)) && Small(Slot(m, key)) && Size(Slot(m, key)) <= 1 + SizeOfMap(m)
  {
    if m.Entry? && m.key != key { SmallSlot(m.rest, key); }
  }

  /** A value that is printed in one piece: a scalar or an empty container. */
  predicate Leaf(v: Value)
    requires WellFormed(v)
  {
    match v
    case ArrayValue(m) => m.Empty?
    case ObjectValue(m) => m.Empty?
    case _ => true
  }

  function LeafText(v: Value, style: Style): string
    requires WellFormed(v) && Leaf(v)
  {
    match v
    case ArrayValue(_) => "[]"
    case ObjectValue(_) => "{}"
    case _ => Tokens(v, style)[0]
  }

  lemma {:induction false} LeafLaysOut(v: Value, style: Style)
    requires WellFormed(v) && Leaf(v) && Solid(style.nullText) && PrintsNumbers(style.printDouble)
    ensures LaysOut(LeafText(v, style), Tokens(v, style))
  {
    hide T.LaysOut, T.Tokens;
    if v.ArrayValue? {
      EmptyTokens(style);
      PairLaysOut("[", "]");
      assert "[" + "]" == "[]";
    } else if v.ObjectValue? {
      EmptyTokens(style);
      PairLaysOut("{", "}");
      assert "{" + "}" == "{}";
    } else {
      ScalarLaysOut(v, style);
    }
  }

  lemma {:induction false} EmptyTokens(style: Style)
    ensures Tokens(ArrayValue(Empty), style) == ["["] + ["]"]
    ensures Tokens(ObjectValue(Empty), style) == ["{"] + ["}"]
  {
    NothingInside(style);
    hide T.ElementTokens, T.MemberTokens, Rounds;
    assert ["["] + [] + ["]"] == ["["] + ["]"] && ["{"] + [] + ["}"] == ["{"] + ["}"];
  }

  lemma {:induction false} NothingInside(style: Style)
    ensures ElementTokens(Empty, 0, Rounds(ArraySize(Empty)), style) == [] && MemberTokens(Empty, style) == []
  {
  }

  lemma PairLaysOut(a: string, b: string)
    requires Solid(a) && Solid(b)
    ensures LaysOut(a + b, [a] + [b])
  {
    hide T.LaysOut;
    LexemeLaysOut(a);
    LexemeLaysOut(b);
    LaysOutConcat(a, [a], b, [b]);
  }

  lemma {:induction false} ScalarLaysOut(v: Value, style: Style)
    requires !v.ArrayValue? && !v.ObjectValue? && Solid(style.nullText) && PrintsNumbers(style.printDouble)
    ensures Tokens(v, style) != [] && LaysOut(Tokens(v, style)[0], Tokens(v, style))
  {
    hide T.LaysOut;
    TokensSolid(v, style);
    var t := Tokens(v, style)[0];
    assert Tokens(v, style) == [t];
    LexemeLaysOut(t);
  }

  /** What `childValues_` holds after the first `n` elements have been collected. */
  function LeafTexts(m: ObjectValues, n: nat, style: Style): (texts: seq<string>)
    requires MapWellFormed(m) && forall k: nat :: k < n ==> Leaf(Element(m, k))
    ensures |texts| == n
  {
    if n == 0 then [] else LeafTexts(m, n - 1, style) + [LeafText(Element(m, n - 1), style)]
  }

  function TotalLength(texts: seq<string>): nat {
    if texts == [] then 0 else TotalLength(texts[..|texts| - 1]) + |texts[|texts| - 1]|
  }

  lemma {:induction false} NoLeafTexts(m: ObjectValues, style: Style)
    requires MapWellFormed(m)
    ensures LeafTexts(m, 0, style) == [] && TotalLength([]) == 0
  {
  }

  lemma LeafTextsStep(m: ObjectValues, n: nat, style: Style)
    requires MapWellFormed(m) && forall k: nat :: k <= n ==> Leaf(Element(m, k))
    ensures var more := LeafTexts(m, n, style) + [LeafText(Element(m, n), style)];
            LeafTexts(m, n + 1, style) == more &&
            TotalLength(more) == TotalLength(LeafTexts(m, n, style)) + |LeafText(Element(m, n), style)|
  {
    hide T.MapWellFormed, LeafText;
    var texts := LeafTexts(m, n, style);
    assert (texts + [LeafText(Element(m, n), style)])[..n] == texts;
  }

  /** When an array goes on several lines: too many elements, a non-empty container among
    * them, or a line as long as the margin. */
  predicate MultiLine(m: ObjectValues, size: nat, style: Style)
    requires MapWellFormed(m)
  {
    size * 3 >= RIGHT_MARGIN || (exists k: nat :: k < size && !Leaf(Element(m, k))) ||
    4 + (size - 1) * 2 + TotalLength(LeafTexts(m, size, style)) >= RIGHT_MARGIN
  }

  /** Two layouts in a row, as growths of one document. */
  lemma Grown(before: string, middle: string, after: string, a: seq<string>, b: seq<string>)
    requires before <= middle <= after
    requires LaysOut(middle[|before|..], a) && LaysOut(after[|middle|..], b)
    ensures LaysOut(after[|before|..], a + b)
  {
    LaysOutConcat(middle[|before|..], a, after[|middle|..], b);
    assert middle[|before|..] + after[|middle|..] == after[|before|..];
  }

  class StyledWriter {
    const printDouble: real -> string
    var document_: string
    var childValues_: seq<string>
    var indentString_: string
    var addChildValues_: bool

    constructor (printDouble: real -> string)
      ensures this.printDouble == printDouble && Valid()
    {
      this.printDouble := printDouble;
      document_, childValues_, indentString_, addChildValues_ := "", [], "", false;
    }

    ghost predicate Valid()
      reads this
    {
      Blank(indentString_)
    }

    function MyStyle(): Style { Style("null", printDouble) }

    /** The document has grown by a layout of the given lexemes. */
    ghost predicate Added(before: string, ts: seq<string>)
      reads this
    {
      before <= document_ && LaysOut(document_[|before|..], ts)
    }

    method PushValue(value: string)
      modifies `document_, `childValues_
      ensures addChildValues_ ==> childValues_ == old(childValues_) + [value] && document_ == old(document_)
      ensures !addChildValues_ ==> document_ == old(document_) + value && childValues_ == old(childValues_)
    {
      if addChildValues_ {
        childValues_ := childValues_ + [value];
      } else {
        document_ := document_ + value;
      }
    }

    method WriteIndent()
      requires Valid()
      modifies `document_
      ensures old(document_) <= document_ && Blank(document_[|old(document_)|..])
      ensures document_ == old(document_) +
                if old(document_) == "" then indentString_
                else if old(document_)[|old(document_)| - 1] == ' ' then ""
                else (if old(document_)[|old(document_)| - 1] == '\n' then "" else "\n") + indentString_
    {
      if document_ != "" {
        var last := document_[|document_| - 1];
        if last == ' ' { return; }
        if last != '\n' { document_ := document_ + "\n"; }
      }
      document_ := document_ + indentString_;
    }

    method WriteWithIndent(value: string, ghost ts: seq<string>)
      requires Valid() && LaysOut(value, ts)
      modifies `document_
      ensures Added(old(document_), ts)
    {
      ghost var before := document_;
      WriteIndent();
      ghost var blanks := document_[|before|..];
      document_ := document_ + value;
      PadLayout(blanks, value, ts, "");
      assert document_[|before|..] == blanks + value + "";
    }

    /** Appends text that lays out the given lexemes. */
    method Append(value: string, ghost ts: seq<string>, ghost before: string, ghost done: seq<string>)
      requires LaysOut(value, ts) && Added(before, done)
      modifies `document_
      ensures document_ == old(document_) + value && Added(before, done + ts)
    {
      ghost var middle := document_;
      document_ := document_ + value;
      assert document_[|middle|..] == value;
      Grown(before, middle, document_, done, ts);
    }

    method Indent()
      requires Valid()
      modifies `indentString_
      ensures Valid() && indentString_ == old(indentString_) + "   " && |indentString_| == |old(indentString_)| + INDENT_SIZE
    {
      indentString_ := indentString_ + "   ";
    }

    /** The source's assertion is the precondition. */
    method Unindent()
      requires Valid() && |indentString_| >= INDENT_SIZE
      modifies `indentString_
      ensures Valid() && indentString_ == old(indentString_)[..|old(indentString_)| - INDENT_SIZE]
    {
      indentString_ := indentString_[..|indentString_| - INDENT_SIZE];
    }

    /** Prints a value: into `childValues_`, as one entry, while an array's leaves are being
      * collected, and into the document otherwise. Indentation is balanced. */
    method WriteValue(value: Value)
      requires Valid() && WellFormed(value) && Small(value) && PrintsNumbers(printDouble)
      requires addChildValues_ ==> Leaf(value)
      modifies `document_, `childValues_, `indentString_, `addChildValues_
      ensures Valid() && addChildValues_ == old(addChildValues_) && indentString_ == old(indentString_)
      ensures addChildValues_ ==>
                childValues_ == old(childValues_) + [LeafText(value, MyStyle())] && document_ == old(document_)
      ensures !addChildValues_ ==> Added(old(document_), Tokens(value, MyStyle()))
      decreases Size(value), 0
    {
      if Leaf(value) { LeafLaysOut(value, MyStyle()); }
      match value {
        case NullValue => PushValue("null");
        case IntValue(i) =>
          var text := N.IntToText(i);
          PushValue(text);
        case UIntValue(u) =>
          var text := N.UIntToText(u);
          PushValue(text);
        case RealValue(r) => PushValue(printDouble(r));
        case StringValue(s) =>
          var text := S.ValueToQuotedString(s);
          PushValue(text);
        case BooleanValue(b) => PushValue(if b then "true" else "false");
        case ArrayValue(m) =>
          if m.Empty? { PushValue("[]"); } else { WriteArrayValue(m); }
        case ObjectValue(m) =>
          if m.Empty? { PushValue("{}"); } else { WriteObjectValue(m); }
      }
      assert Leaf(value) && !addChildValues_ ==> document_[|old(document_)|..] == LeafText(value, MyStyle());
    }

    method WriteObjectValue(m: ObjectValues)
      requires Valid() && m.Entry? && Named(m) && MapWellFormed(m) && SmallIn(m) && PrintsNumbers(printDouble)
      requires !addChildValues_
      modifies `document_, `childValues_, `indentString_, `addChildValues_
      ensures Valid() && !addChildValues_ && indentString_ == old(indentString_)
      ensures Added(old(document_), Tokens(ObjectValue(m), MyStyle()))
      decreases SizeOfMap(m), 2
    {
      hide T.LaysOut, T.MapWellFormed, SmallIn, T.MemberTokens;
      ghost var before, outer := document_, indentString_;
      var members := Names(m);
      LexemeLaysOut("{");
      WriteWithIndent("{", ["{"]);
      Indent();
      ghost var done := ["{"];
      var it := 0;
      while true
        invariant it < |members|
        invariant Valid() && !addChildValues_ && |indentString_| == |outer| + INDENT_SIZE && outer <= indentString_
        invariant done + RestMembers(m, it, MyStyle()) == ["{"] + MemberTokens(m, MyStyle())
        invariant Added(before, if it == 0 then done else done + [","])
        decreases |members| - it
      {
        RestMembersStep(m, it, MyStyle());
        ghost var step, rest := MemberStep(m, it, MyStyle()), RestMembers(m, it + 1, MyStyle());
        assert done + (step + rest) == done + step + rest;
        WriteMember(m, members[it], it, before, done);
        done := done + step;
        it := it + 1;
        if it == |members| { break; }
        LexemeLaysOut(",");
        Append(",", [","], before, done);
      }
      Unindent();
      LexemeLaysOut("}");
      ghost var middle := document_;
      WriteWithIndent("}", ["}"]);
      Grown(before, middle, document_, done, ["}"]);
      assert done + [] == done;
    }

    /** One member: its name, the separator and its value; a comma before it is already there. */
    method WriteMember(m: ObjectValues, name: CString, it: nat, ghost before: string, ghost done: seq<string>)
      requires Valid() && Named(m) && MapWellFormed(m) && SmallIn(m) && PrintsNumbers(printDouble) && !addChildValues_
      requires it < Length(m) && name == Names(m)[it]
      requires Added(before, if it == 0 then done else done + [","])
      modifies `document_, `childValues_, `indentString_, `addChildValues_
      ensures Valid() && !addChildValues_ && indentString_ == old(indentString_)
      ensures Added(before, done + MemberStep(m, it, MyStyle()))
      decreases SizeOfMap(m), 1
    {
      hide T.LaysOut, T.Tokens, T.MapWellFormed, SmallIn, S.QuoteBody;
      ghost var comma := if it == 0 then [] else [","];
      ghost var start := document_;
      assert done + comma == if it == 0 then done else done + [","];
      SmallSlot(m, Name(name));
      var quoted := S.ValueToQuotedString(Some(name));
      LexemeLaysOut(quoted);
      WriteWithIndent(quoted, [quoted]);
      ghost var middle := document_;
      Grown(before, start, middle, done + comma, [quoted]);
      LexemeLaysOut(":");
      PadLayout(" ", ":", [":"], " ");
      assert " " + ":" + " " == " : ";
      Append(" : ", [":"], before, done + comma + [quoted]);
      middle := document_;
      ghost var ts := Tokens(Slot(m, Name(name)), MyStyle());
      WriteValue(Slot(m, Name(name)));
      Grown(before, middle, document_, done + comma + [quoted] + [":"], ts);
      assert done + comma + [quoted] + [":"] + ts == done + (comma + ([quoted, ":"] + ts));
    }

    method WriteArrayValue(m: ObjectValues)
      requires Valid() && m.Entry? && Indexed(m) && MapWellFormed(m) && SmallIn(m) && PrintsNumbers(printDouble)
      requires Extent(m) * 3 <= MAX_INT && !addChildValues_
      modifies `document_, `childValues_, `indentString_, `addChildValues_
      ensures Valid() && !addChildValues_ && indentString_ == old(indentString_)
      ensures Added(old(document_), Tokens(ArrayValue(m), MyStyle()))
      decreases SizeOfMap(m), 3
    {
      var size := ArraySize(m);
      R.ExtentOfRest(m);
      assert size == Rounds(size) > 0;
      var isArrayMultiLine := IsMultilineArray(m, size);
      if isArrayMultiLine {
        WriteElements(m, size);
      } else {
        assert |childValues_| == size;
        WriteSingleLine(m, size);
      }
    }

    method WriteElements(m: ObjectValues, size: nat)
      requires Valid() && Indexed(m) && MapWellFormed(m) && SmallIn(m) && PrintsNumbers(printDouble)
      requires size > 0 && !addChildValues_
      requires childValues_ != [] ==>
                 (forall k: nat :: k < size ==> Leaf(Element(m, k))) && childValues_ == LeafTexts(m, size, MyStyle())
      modifies `document_, `childValues_, `indentString_, `addChildValues_
      ensures Valid() && !addChildValues_ && indentString_ == old(indentString_)
      ensures Added(old(document_), ["["] + ElementTokens(m, 0, size, MyStyle()) + ["]"])
      decreases SizeOfMap(m), 2
    {
      hide T.LaysOut, T.Tokens, T.MapWellFormed, SmallIn, T.ElementTokens, LeafText, LeafTexts;
      ghost var before, outer := document_, indentString_;
      LexemeLaysOut("[");
      WriteWithIndent("[", ["["]);
      Indent();
      var hasChildValue := childValues_ != [];
      ghost var done := ["["];
      var index := 0;
      while true
        invariant index < size
        invariant Valid() && !addChildValues_ && |indentString_| == |outer| + INDENT_SIZE && outer <= indentString_
        invariant hasChildValue ==>
                    (forall k: nat :: k < size ==> Leaf(Element(m, k))) && childValues_ == LeafTexts(m, size, MyStyle())
        invariant done + Rest(m, index, size, MyStyle()) == ["["] + ElementTokens(m, 0, size, MyStyle())
        invariant Added(before, if index == 0 then done else done + [","])
        decreases size - index
      {
        RestStep(m, index, size, MyStyle());
        ghost var step, rest := ElementStep(m, index, MyStyle()), Rest(m, index + 1, size, MyStyle());
        assert done + (step + rest) == done + step + rest;
        WriteElement(m, index, size, hasChildValue, before, done);
        done := done + step;
        index := index + 1;
        if index == size { break; }
        LexemeLaysOut(",");
        Append(",", [","], before, done);
      }
      RestEnds(m, size, MyStyle());
      Unindent();
      LexemeLaysOut("]");
      ghost var middle := document_;
      WriteWithIndent("]", ["]"]);
      Grown(before, middle, document_, done, ["]"]);
      assert done + [] == done;
    }

    /** One element on its own line, from `childValues_` when it was collected there. */
    method WriteElement(m: ObjectValues, index: nat, size: nat, hasChildValue: bool, ghost before: string, ghost done: seq<string>)
      requires Valid() && MapWellFormed(m) && SmallIn(m) && PrintsNumbers(printDouble) && !addChildValues_ && index < size
      requires hasChildValue ==>
                 (forall k: nat :: k < size ==> Leaf(Element(m, k))) && childValues_ == LeafTexts(m, size, MyStyle())
      requires Added(before, if index == 0 then done else done + [","])
      modifies `document_, `childValues_, `indentString_, `addChildValues_
      ensures Valid() && !addChildValues_ && indentString_ == old(indentString_)
      ensures hasChildValue ==> childValues_ == old(childValues_)
      ensures Added(before, done + ElementStep(m, index, MyStyle()))
      decreases SizeOfMap(m), 1
    {
      hide T.LaysOut, T.Tokens, T.MapWellFormed, SmallIn, LeafTexts, LeafText;
      ghost var comma := if index == 0 then [] else [","];
      ghost var start := document_;
      assert done + comma == if index == 0 then done else done + [","];
      SmallSlot(m, Index(index));
      var element := Slot(m, Index(index));
      ghost var ts := Tokens(element, MyStyle());
      if hasChildValue {
        LeafTextsAt(m, size, index, MyStyle());
        LeafLaysOut(element, MyStyle());
        WriteWithIndent(childValues_[index], ts);
      } else {
        WriteIndent();
        ghost var middle := document_;
        BlankLaysOut(middle[|start|..]);
        WriteSlot(m, index);
        Grown(start, middle, document_, [], ts);
        assert [] + ts == ts;
      }
      Grown(before, start, document_, done + comma, ts);
      assert done + comma + ts == done + (comma + ts);
    }

    /** `writeValue(value[index])`; a missing element is the shared null value. */
    method WriteSlot(m: ObjectValues, index: nat)
      requires Valid() && MapWellFormed(m) && SmallIn(m) && PrintsNumbers(printDouble)
      requires addChildValues_ ==> Leaf(Element(m, index))
      modifies `document_, `childValues_, `indentString_, `addChildValues_
      ensures Valid() && addChildValues_ == old(addChildValues_) && indentString_ == old(indentString_)
      ensures addChildValues_ ==>
                childValues_ == old(childValues_) + [LeafText(Element(m, index), MyStyle())] && document_ == old(document_)
      ensures !addChildValues_ ==> Added(old(document_), Tokens(Element(m, index), MyStyle()))
      decreases SizeOfMap(m), 0
    {
      SmallSlot(m, Index(index));
      match Find(m, Index(index)) {
        case Some(v) => WriteValue(v);
        case None =>
          LeafLaysOut(NullValue, MyStyle());
          PushValue("null");
          assert !addChildValues_ ==> document_[|old(document_)|..] == "null";
      }
    }

    lemma {:induction false} LeafTextsAt(m: ObjectValues, n: nat, k: nat, style: Style)
      requires MapWellFormed(m) && k < n && forall j: nat :: j < n ==> Leaf(Element(m, j))
      ensures LeafTexts(m, n, style)[k] == LeafText(Element(m, k), style)
    {
      if k < n - 1 { LeafTextsAt(m, n - 1, k, style); }
    }

    /** The single-line branch: `[ a, b, c ]` from the collected texts. */
    method WriteSingleLine(m: ObjectValues, size: nat)
      requires MapWellFormed(m) && PrintsNumbers(printDouble) && size > 0
      requires (forall k: nat :: k < size ==> Leaf(Element(m, k))) && childValues_ == LeafTexts(m, size, MyStyle())
      modifies `document_
      ensures Added(old(document_), ["["] + ElementTokens(m, 0, size, MyStyle()) + ["]"])
    {
      hide T.LaysOut, T.Tokens, T.MapWellFormed, T.ElementTokens, LeafTexts, LeafText;
      ghost var before := document_;
      BlankLaysOut("");
      assert document_[|before|..] == "";
      LexemeLaysOut("[");
      PadLayout("", "[", ["["], " ");
      assert "" + "[" + " " == "[ ";
      Append("[ ", ["["], before, []);
      ghost var done := [] + ["["];
      var index := 0;
      while index < size
        invariant index <= size
        invariant done + Rest(m, index, size, MyStyle()) == ["["] + ElementTokens(m, 0, size, MyStyle())
        invariant Added(before, done)
      {
        RestStep(m, index, size, MyStyle());
        ghost var ts := Tokens(Element(m, index), MyStyle());
        ghost var comma := if index > 0 then [","] else [];
        ghost var rest := Rest(m, index + 1, size, MyStyle());
        assert done + (comma + ts + rest) == done + comma + ts + rest;
        if index > 0 {
          LexemeLaysOut(",");
          PadLayout("", ",", [","], " ");
          assert "" + "," + " " == ", ";
          Append(", ", [","], before, done);
        }
        assert done + [] == done;
        LeafTextsAt(m, size, index, MyStyle());
        LeafLaysOut(Element(m, index), MyStyle());
        Append(childValues_[index], ts, before, done + comma);
        done := done + comma + ts;
        index := index + 1;
      }
      RestEnds(m, size, MyStyle());
      LexemeLaysOut("]");
      PadLayout(" ", "]", ["]"], "");
      assert " " + "]" + "" == " ]";
      Append(" ]", ["]"], before, done);
      assert done + [] == done;
    }

    /** `isMultineArray`: decides the layout and leaves the shared buffer either empty or with
      * exactly one text per element. */
    method IsMultilineArray(m: ObjectValues, size: nat) returns (isMultiLine: bool)
      requires Valid() && Indexed(m) && MapWellFormed(m) && SmallIn(m) && PrintsNumbers(printDouble)
      requires 0 < size && size * 3 <= MAX_INT && !addChildValues_
      modifies `document_, `childValues_, `indentString_, `addChildValues_
      ensures Valid() && !addChildValues_ && indentString_ == old(indentString_) && document_ == old(document_)
      ensures isMultiLine <==> MultiLine(m, size, MyStyle())
      ensures childValues_ == [] ==> isMultiLine
      ensures childValues_ != [] ==>
                (forall k: nat :: k < size ==> Leaf(Element(m, k))) && childValues_ == LeafTexts(m, size, MyStyle())
      decreases SizeOfMap(m), 1
    {
      hide T.LaysOut, T.Tokens, T.MapWellFormed, SmallIn, LeafText, LeafTexts, TotalLength;
      isMultiLine := size * 3 >= RIGHT_MARGIN;
      childValues_ := [];
      var index := 0;
      while index < size && !isMultiLine
        invariant index <= size
        invariant !isMultiLine ==> size * 3 < RIGHT_MARGIN && forall k: nat :: k < index ==> Leaf(Element(m, k))
        invariant isMultiLine ==> MultiLine(m, size, MyStyle())
        decreases size - index
      {
        var childValue := Element(m, index);
        if !Leaf(childValue) { isMultiLine := true; }
        index := index + 1;
      }
      if !isMultiLine {
        addChildValues_ := true;
        var lineLength := 4 + (size - 1) * 2;
        index := 0;
        NoLeafTexts(m, MyStyle());
        while index < size
          invariant index <= size && Valid() && addChildValues_
          invariant indentString_ == old(indentString_) && document_ == old(document_)
          invariant childValues_ == LeafTexts(m, index, MyStyle())
          invariant lineLength == 4 + (size - 1) * 2 + TotalLength(childValues_)
        {
          LeafTextsStep(m, index, MyStyle());
          WriteSlot(m, index);
          lineLength := lineLength + |childValues_[index]|;
          index := index + 1;
        }
        addChildValues_ := false;
        isMultiLine := lineLength >= RIGHT_MARGIN;
      }
    }

    /** `write`: a layout of the very lexemes `FastWriter` prints in a row. */
    method Write(root: Value) returns (text: string)
      requires WellFormed(root) && Small(root) && PrintsNumbers(printDouble)
      modifies this
      ensures LaysOut(text, Tokens(root, MyStyle()))
    {
      document_, addChildValues_, indentString_ := "", false, "";
      WriteValue(root);
      assert document_[0..] == document_;
      PadLayout("", document_, Tokens(root, MyStyle()), "\n");
      assert "" + document_ + "\n" == document_ + "\n";
      document_ := document_ + "\n";
      text := document_;
    }
  }

  /** Whatever its layout, a text with a value's lexemes parses as the running text `FastWriter` prints does: to the
    * same root, without errors, or to a refusal of both. */
  lemma {:induction false} PrintersAgree(
      styled: string, v: Value, drop: bool, colon: string, omitEndingLineFeed: bool, e: Settings, root: Value)
    requires WellFormed(v) && PrintsNumbers(e.printDouble) && colon in [":", ": "]
    requires LaysOut(styled, R.Lexemes(v, e, drop))
    ensures var fast, r := Parse(R.FastText(v, drop, colon, omitEndingLineFeed, e), e, root), Parse(styled, e, root);
            var back := R.Back(v, e, drop, false);
            if back.Some? && (e.features.strictRoot ==> IsContainer(v)) then
              r.ok && fast.ok && r.value == fast.value == back.value && r.errors == fast.errors == []
            else !r.ok && !fast.ok
  {
    hide P.Parse, R.Back, R.FastText, T.LaysOut;
    R.FastTextLaysOut(v, drop, colon, omitEndingLineFeed, e);
    R.LayoutParses(R.FastText(v, drop, colon, omitEndingLineFeed, e), e, drop, root, v);
    R.LayoutParses(styled, e, drop, root, v);
  }
}
