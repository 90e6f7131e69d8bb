/** The lexemes of a value, and texts that lay them out with blanks in between.
  *
  * Both printers emit the same lexemes; they differ in the blanks. Reading depends on the
  * lexemes only, which is what makes parsing undo either printer.
  */
module JsonTokens {
  import opened Wrappers
  import opened JsonValue
  import N = JsonNumber
  import S = JsonString
  import opened P = JsonParsing

  // ------------------------------------------------------------------ well-formed values

  /** What a `std::map` keyed by array index, or by name, guarantees. */
  predicate WellFormed(v: Value) {
    match v
    case ArrayValue(m) => Indexed(m) && MapWellFormed(m)
    case ObjectValue(m) => Named(m) && MapWellFormed(m)
    case _ => true
  }

  predicate MapWellFormed(m: ObjectValues) {
    m.Entry? ==>
      WellFormed(m.value) && MapWellFormed(m.rest) && (m.rest.Entry? ==> KeyLess(m.key, m.rest.key))
  }

  predicate Indexed(m: ObjectValues) {
    m.Entry? ==> m.key.Index? && m.key.index < TWO_32 && Indexed(m.rest)
  }

  predicate Named(m: ObjectValues) {
    m.Entry? ==> m.key.Name? && Named(m.rest)
  }

  /** The highest index plus one, as a number. */
  function Extent(m: ObjectValues): nat
    requires Indexed(m)
  {
    if m.Empty? then 0 else if m.rest.Empty? then m.key.index + 1 else Extent(m.rest)
  }

  /** `Value::size()` of an array, an `ArrayIndex` of 32 bits. */
  function ArraySize(m: ObjectValues): nat
    requires Indexed(m)
  {
    Extent(m) % TWO_32
  }

  /** How many rounds `for (int index = 0; index < size; ++index)` makes when `size` is
    * assigned from an `ArrayIndex`. */
  function Rounds(size: nat): nat {
    if size <= MAX_INT then size else 0
  }

  // ------------------------------------------------------------------ lexemes

  /** How values are spelled: the word for null and the C library's rendering of a double. */
  datatype Style = Style(nullText: string, printDouble: real -> string)

  function Tokens(v: Value, style: Style): (ts: seq<string>)
    requires WellFormed(v)
    ensures ts != []
    decreases Size(v), 0, 0
  {
    match v
    case NullValue => [style.nullText]
    case IntValue(i) => [N.IntText(i)]
    case UIntValue(u) => [N.Decimal(u)]
    case RealValue(r) => [style.printDouble(r)]
    case StringValue(s) => [S.StringText(s)]
    case BooleanValue(b) => [if b then "true" else "false"]
    case ArrayValue(m) => ["["] + ElementTokens(m, 0, Rounds(ArraySize(m)), style) + ["]"]
    case ObjectValue(m) => ["{"] + MemberTokens(m, style) + ["}"]
  }

  /** The value at an index, or null where the array has a gap. */
  function Element(m: ObjectValues, k: nat): (v: Value)
    requires MapWellFormed(m)
    ensures WellFormed(v) && Size(v) < 2 + SizeOfMap(m)
  {
    FindWellFormed(m, Index(k));
    Slot(m, Index(k))
  }

  lemma {:induction false} FindWellFormed(m: ObjectValues, key: CZString)
    requires MapWellFormed(m)
    ensures WellFormed(Slot(m, key)) && Size(Slot(m, key)) <= 1 + SizeOfMap(m)
  {
    if m.Entry? && m.key != key { FindWellFormed(m.rest, key); }
  }

  /** The elements from index `k` up to `n`, separated by commas. */
  function ElementTokens(m: ObjectValues, k: nat, n: nat, style: Style): seq<string>
    requires MapWellFormed(m)
    decreases SizeOfMap(m), 1, n - k
  {
    if k >= n then []
    else
      (match Find(m, Index(k))
       case None => [style.nullText]
       case Some(v) => FindWellFormed(m, Index(k)); Tokens(v, style)) +
      if k + 1 < n then [","] + ElementTokens(m, k + 1, n, style) else []
  }

  lemma FirstElement(m: ObjectValues, k: nat, n: nat, style: Style)
    requires k < n && MapWellFormed(m)
    ensures ElementTokens(m, k, n, style) ==
            Tokens(Element(m, k), style) + (if k + 1 < n then [","] + ElementTokens(m, k + 1, n, style) else [])
  {
    hide MapWellFormed, Tokens;
    FindWellFormed(m, Index(k));
    NullTokens(style);
  }

  lemma {:induction false} NullTokens(style: Style)
    ensures Tokens(NullValue, style) == [style.nullText]
  {
  }

  function MemberTokens(m: ObjectValues, style: Style): seq<string>
    requires MapWellFormed(m) && Named(m)
    decreases SizeOfMap(m), 1, 0
  {
    if m.Empty? then []
    else
      [S.Quoted(m.key.cstr), ":"] + Tokens(m.value, style) +
      if m.rest.Entry? then [","] + MemberTokens(m.rest, style) else []
  }

  lemma {:induction false} FirstMember(m: ObjectValues, style: Style)
    requires m.Entry? && MapWellFormed(m) && Named(m)
    ensures m.key.Name? && WellFormed(m.value) && MapWellFormed(m.rest) && Named(m.rest)
    ensures MemberTokens(m, style) == [S.Quoted(m.key.cstr), ":"] + Tokens(m.value, style) +
                                      (if m.rest.Entry? then [","] + MemberTokens(m.rest, style) else [])
  {
    hide S.Quoted, Tokens;
  }

  // ------------------------------------------------------------------ layout

  /** From position `i` the document consists of the lexemes, with blanks around them. */
  predicate RendersAt(doc: string, i: nat, ts: seq<string>)
    requires i <= |doc|
    decreases |ts|
  {
    var j := SkipSpaces(doc, i);
    if ts == [] then j == |doc|
    else j + |ts[0]| <= |doc| && doc[j..j + |ts[0]|] == ts[0] && RendersAt(doc, j + |ts[0]|, ts[1..])
  }

  predicate LaysOut(text: string, ts: seq<string>) { RendersAt(text, 0, ts) }

  /** A lexeme does not start with a blank. */
  predicate Solid(t: string) { t != "" ==> !IsSpace(t[0]) }

  predicate AllSolid(ts: seq<string>) { forall k :: 0 <= k < |ts| ==> Solid(ts[k]) }

  predicate Blank(w: string) { forall k :: 0 <= k < |w| ==> IsSpace(w[k]) }

  lemma {:induction false} SkipIsStable(doc: string, i: nat)
    requires i <= |doc|
    ensures SkipSpaces(doc, SkipSpaces(doc, i)) == SkipSpaces(doc, i)
    decreases |doc| - i
  {
    if i < |doc| && IsSpace(doc[i]) { SkipIsStable(doc, i + 1); }
  }

  lemma {:induction false} SkipIsBlank(doc: string, i: nat)
    requires i <= |doc|
    ensures Blank(doc[i..SkipSpaces(doc, i)])
    decreases |doc| - i
  {
    if i < |doc| && IsSpace(doc[i]) { SkipIsBlank(doc, i + 1); }
  }

  lemma {:induction false} RendersAfterSkip(doc: string, i: nat, ts: seq<string>)
    requires i <= |doc|
    ensures RendersAt(doc, i, ts) <==> RendersAt(doc, SkipSpaces(doc, i), ts)
  {
    SkipIsStable(doc, i);
  }

  lemma {:induction false} SkipInPrefix(x: string, y: string, i: nat)
    requires i <= |x|
    ensures SkipSpaces(x, i) < |x| ==> SkipSpaces(x + y, i) == SkipSpaces(x, i)
    ensures SkipSpaces(x, i) == |x| ==> SkipSpaces(x + y, i) == SkipSpaces(x + y, |x|)
    decreases |x| - i
  {
    if i < |x| && IsSpace(x[i]) { SkipInPrefix(x, y, i + 1); }
  }

  lemma {:induction false} SkipShifts(x: string, y: string, i: nat)
    requires i <= |y|
    ensures SkipSpaces(x + y, |x| + i) == |x| + SkipSpaces(y, i)
    decreases |y| - i
  {
    if i < |y| && IsSpace(y[i]) { SkipShifts(x, y, i + 1); }
  }

  lemma {:induction false} RendersShifts(x: string, y: string, i: nat, ts: seq<string>)
    requires i <= |y|
    ensures RendersAt(x + y, |x| + i, ts) <==> RendersAt(y, i, ts)
    decreases |ts|
  {
    hide SkipSpaces;
    SkipShifts(x, y, i);
    var j := SkipSpaces(y, i);
    if ts != [] && j + |ts[0]| <= |y| {
      assert (x + y)[|x| + j..|x| + j + |ts[0]|] == y[j..j + |ts[0]|];
      RendersShifts(x, y, j + |ts[0]|, ts[1..]);
    }
  }

  lemma {:induction false} RendersNothing(doc: string, i: nat)
    requires i <= |doc| && RendersAt(doc, i, [])
    ensures SkipSpaces(doc, i) == |doc|
  {
  }

  lemma {:induction false} RendersConcat(x: string, i: nat, a: seq<string>, y: string, b: seq<string>)
    requires i <= |x| && RendersAt(x, i, a) && LaysOut(y, b)
    ensures RendersAt(x + y, i, a + b)
    decreases |a|
  {
    hide SkipSpaces;
    SkipInPrefix(x, y, i);
    var j := SkipSpaces(x, i);
    if a == [] {
      hide RendersAt;
      RendersNothing(x, i);
      RendersShifts(x, y, 0, b);
      RendersAfterSkip(x + y, i, b);
      RendersAfterSkip(x + y, |x|, b);
      assert a + b == b;
    } else {
      assert (a + b)[0] == a[0] && (a + b)[1..] == a[1..] + b;
      RendersConcat(x, j + |a[0]|, a[1..], y, b);
      if j < |x| {
        assert (x + y)[j..j + |a[0]|] == x[j..j + |a[0]|];
      } else {
        RendersAfterSkip(x + y, |x|, a[1..] + b);
        SkipIsStable(x + y, i);
        var p := SkipSpaces(x + y, i);
        assert (x + y)[p..p + 0] == "";
      }
    }
  }

  lemma LaysOutConcat(x: string, a: seq<string>, y: string, b: seq<string>)
    requires LaysOut(x, a) && LaysOut(y, b)
    ensures LaysOut(x + y, a + b)
  {
    RendersConcat(x, 0, a, y, b);
  }

  lemma {:induction false} BlankSkips(w: string, i: nat)
    requires i <= |w| && Blank(w)
    ensures SkipSpaces(w, i) == |w|
    decreases |w| - i
  {
    if i < |w| { BlankSkips(w, i + 1); }
  }

  lemma BlankLaysOut(w: string)
    requires Blank(w)
    ensures LaysOut(w, [])
  {
    BlankSkips(w, 0);
  }

  lemma LexemeLaysOut(t: string)
    requires Solid(t)
    ensures LaysOut(t, [t])
  {
    assert SkipSpaces(t, 0) == 0;
    assert t[0..|t|] == t && [t][1..] == [];
    assert RendersAt(t, |t|, []);
  }

  /** Blanks may be put in front of a layout and behind it. */
  lemma PadLayout(w: string, text: string, ts: seq<string>, w': string)
    requires Blank(w) && Blank(w') && LaysOut(text, ts)
    ensures LaysOut(w + text + w', ts)
  {
    BlankLaysOut(w);
    BlankLaysOut(w');
    LaysOutConcat(w, [], text, ts);
    LaysOutConcat(w + text, [] + ts, w', []);
    assert [] + ts + [] == ts;
  }

  ghost predicate PrintsNumbers(printDouble: real -> string) {
    forall r :: N.NumberLexeme(printDouble(r))
  }

  lemma {:induction false} TokensSolid(v: Value, style: Style)
    requires WellFormed(v) && Solid(style.nullText) && PrintsNumbers(style.printDouble)
    ensures AllSolid(Tokens(v, style))
    decreases Size(v), 0, 0
  {
    match v
    case RealValue(r) => assert N.NumberLexeme(style.printDouble(r));
    case IntValue(i) => assert N.IntText(i)[0] == '-' || N.IsDigit(N.IntText(i)[0]);
    case ArrayValue(m) => ElementsSolid(m, 0, Rounds(ArraySize(m)), style);
    case ObjectValue(m) => MembersSolid(m, style);
    case _ =>
  }

  lemma {:induction false} ElementsSolid(m: ObjectValues, k: nat, n: nat, style: Style)
    requires MapWellFormed(m) && Solid(style.nullText) && PrintsNumbers(style.printDouble)
    ensures AllSolid(ElementTokens(m, k, n, style))
    decreases SizeOfMap(m), 1, n - k
  {
    if k < n {
      FindWellFormed(m, Index(k));
      var found := Find(m, Index(k));
      if found.Some? { TokensSolid(found.value, style); }
      ElementsSolid(m, k + 1, n, style);
    }
  }

  lemma {:induction false} MembersSolid(m: ObjectValues, style: Style)
    requires MapWellFormed(m) && Named(m) && Solid(style.nullText) && PrintsNumbers(style.printDouble)
    ensures AllSolid(MemberTokens(m, style))
    decreases SizeOfMap(m), 1, 0
  {
    if m.Entry? {
      TokensSolid(m.value, style);
      MembersSolid(m.rest, style);
    }
  }

  // ------------------------------------------------------------------ running text

  /** Lexemes one after the other, with the member separator spelled as given. */
  function Joined(ts: seq<string>, colon: string): string {
    if ts == [] then "" else (if ts[0] == ":" then colon else ts[0]) + Joined(ts[1..], colon)
  }

  lemma {:induction false} JoinedConcat(a: seq<string>, b: seq<string>, colon: string)
    ensures Joined(a + b, colon) == Joined(a, colon) + Joined(b, colon)
  {
    if a == [] {
      assert a + b == b;
    } else {
      assert (a + b)[0] == a[0] && (a + b)[1..] == a[1..] + b;
      JoinedConcat(a[1..], b, colon);
    }
  }

  lemma {:induction false} JoinedOne(t: string, colon: string)
    ensures Joined([t], colon) == if t == ":" then colon else t
  {
    assert [t][1..] == [];
  }

  /** Running text lays its lexemes out. */
  lemma {:induction false} JoinedLaysOut(ts: seq<string>, colon: string)
    requires AllSolid(ts) && colon in [":", ": "]
    ensures LaysOut(Joined(ts, colon), ts)
  {
    if ts != [] {
      JoinedLaysOut(ts[1..], colon);
      LexemeLaysOut(ts[0]);
      var first := if ts[0] == ":" then colon else ts[0];
      if ts[0] == ":" && colon == ": " {
        PadLayout("", ":", [":"], " ");
        assert "" + ":" + " " == ": ";
      }
      LaysOutConcat(first, [ts[0]], Joined(ts[1..], colon), ts[1..]);
      assert [ts[0]] + ts[1..] == ts;
    }
  }
}
