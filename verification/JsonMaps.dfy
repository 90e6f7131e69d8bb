/** What lookup and insertion do to a `std::map`, and that everything the reader builds is one. */
module JsonMaps {
  import opened Wrappers
  import opened JsonValue
  import opened JsonOrder
  import opened P = JsonParsing
  import opened T = JsonTokens
  import N = JsonNumber
  import S = JsonString

  /** The keys ascend. */
  predicate Ascending(m: ObjectValues) {
    m.Entry? ==> Ascending(m.rest) && (m.rest.Entry? ==> KeyBefore(m.key, m.rest.key))
  }

  lemma {:induction false} WellFormedAscends(m: ObjectValues)
    requires MapWellFormed(m)
    ensures Ascending(m)
  {
    if m.Entry? {
      WellFormedAscends(m.rest);
      if m.rest.Entry? { KeyLessMeans(m.key, m.rest.key); }
    }
  }

  /** A key below the first one is not in the map. */
  lemma {:induction false} BelowIsAbsent(m: ObjectValues, key: CZString)
    requires Ascending(m) && (m.Entry? ==> KeyBefore(key, m.key))
    ensures Find(m, key) == None
  {
    if m.Entry? {
      KeyLessMeans(key, m.key);
      KeyTotal(key, m.key);
      if m.rest.Entry? {
        KeyLessMeans(m.key, m.rest.key);
        KeyTransitive(key, m.key, m.rest.key);
        KeyLessMeans(key, m.rest.key);
      }
      BelowIsAbsent(m.rest, key);
    }
  }

  /** Lookup finds exactly the entries that are there. */
  lemma {:induction false} FindMeans(m: ObjectValues, key: CZString, v: Value)
    requires Ascending(m)
    ensures Find(m, key) == Some(v) <==> (key, v) in Entries(m)
  {
    if m.Entry? {
      FindMeans(m.rest, key, v);
      if m.key == key { BelowIsAbsent(m.rest, key); }
    }
  }

  /** Insertion puts the value under its key, leaves every other key as it was, and keeps the keys ascending. */
  lemma {:induction false} PutMeans(m: ObjectValues, key: CZString, v: Value, other: CZString)
    requires Ascending(m)
    ensures var put := Put(m, key, v);
            Ascending(put) && put.Entry? && Find(put, key) == Some(v) && (other != key ==> Find(put, other) == Find(m, other)) &&
            (put.key == key || (m.Entry? && put.key == m.key && KeyBefore(m.key, key)))
  {
    if m.Entry? {
      KeyTotal(m.key, key);
      KeyLessMeans(m.key, key);
      KeyLessMeans(key, m.key);
      PutMeans(m.rest, key, v, other);
    }
  }

  /** An ascending map is determined by what is found in it. */
  lemma {:induction false} SameFindings(m: ObjectValues, n: ObjectValues)
    requires Ascending(m) && Ascending(n) && forall key :: Find(m, key) == Find(n, key)
    ensures m == n
  {
    assert m.Entry? ==> Find(m, m.key) == Find(n, m.key);
    assert n.Entry? ==> Find(m, n.key) == Find(n, n.key);
    if m.Entry? && n.Entry? {
      KeyTotal(m.key, n.key);
      KeyLessMeans(m.key, n.key);
      KeyLessMeans(n.key, m.key);
      if KeyBefore(m.key, n.key) { BelowIsAbsent(n, m.key); }
      if KeyBefore(n.key, m.key) { BelowIsAbsent(m, n.key); }
      assert m.key == n.key;
      RestFindings(m);
      RestFindings(n);
      SameFindings(m.rest, n.rest);
    }
  }

  lemma {:induction false} RestFindings(m: ObjectValues)
    requires Ascending(m) && m.Entry?
    ensures forall key :: Find(m.rest, key) == if key == m.key then None else Find(m, key)
  {
    BelowIsAbsent(m.rest, m.key);
  }

  // ------------------------------------------------------------------ whatever is read is well-formed

  lemma {:induction false} PutKeepsWellFormed(m: ObjectValues, key: CZString, v: Value)
    requires MapWellFormed(m) && WellFormed(v)
    ensures MapWellFormed(Put(m, key, v))
    ensures key.Name? && Named(m) ==> Named(Put(m, key, v))
    ensures key.Index? && key.index < TWO_32 && Indexed(m) ==> Indexed(Put(m, key, v))
  {
    if m.Entry? {
      KeyTotal(m.key, key);
      PutKeepsWellFormed(m.rest, key, v);
      WellFormedAscends(m.rest);
      PutMeans(m.rest, key, v, key);
      KeyLessMeans(m.key, key);
    }
  }

  /** However a read ends, over a well-formed value it leaves a well-formed one: the keys of every object ascend and are
    * names, those of every array ascend and are indices. */
  lemma {:induction false} ReadIsWellFormed(doc: string, e: Settings, i: nat, cur: Value)
    requires i <= |doc| < TWO_32 && WellFormed(cur)
    ensures WellFormed(P.ReadValue(doc, e, i, cur).value)
    decreases |doc| - i, 0
  {
    hide S.DecodeBody, ReadMembers, ReadElements, SkipCommentTokens, Truncate, P.SkipSpaces, P.ReadToken;
    var t := SkipCommentTokens(doc, i, e.features.allowComments);
    if t.kind == ObjectBegin {
      MembersAreWellFormed(doc, e, t.end, Empty, "");
    } else if t.kind == ArrayBegin {
      var j := P.SkipSpaces(doc, t.end);
      if At(doc, j) != ']' { ElementsAreWellFormed(doc, e, j, Empty, 0); }
    } else if t.kind == NumberToken {
      var text := doc[t.start..t.end];
      N.DecodedIsInteger(text, if text[0] == '-' then 1 else 0, 0, text[0] == '-');
    }
  }

  lemma {:induction false} MembersAreWellFormed(doc: string, e: Settings, i: nat, members: ObjectValues, name: string)
    requires i <= |doc| < TWO_32 && MapWellFormed(members) && Named(members)
    ensures WellFormed(ReadMembers(doc, e, i, members, name).value)
    decreases |doc| - i, 1
  {
    hide S.DecodeBody, NumberOf, NumberName, Recover, ReadMemberValue, MapWellFormed, Named;
    var t := NextToken(doc, i);
    var newName := NameOf(doc, e, t);
    if !(t.kind == ObjectEnd && name == "") && newName.MemberName? {
      MemberIsWellFormed(doc, e, t.end, members, newName.name);
    }
  }

  lemma {:induction false} MemberIsWellFormed(doc: string, e: Settings, i: nat, members: ObjectValues, name: string)
    requires i <= |doc| < TWO_32 && MapWellFormed(members) && Named(members)
    ensures WellFormed(ReadMemberValue(doc, e, i, members, name).value)
    decreases |doc| - i, 2
  {
    hide Recover, P.ReadValue, ReadMembers, Put, Slot, Truncate, P.ReadToken, NextToken, MapWellFormed, Named;
    var colon := P.ReadToken(doc, i);
    if colon.kind == MemberSeparator {
      var key := Name(Truncate(name));
      FindWellFormed(members, key);
      ReadIsWellFormed(doc, e, colon.end, Slot(members, key));
      var r := P.ReadValue(doc, e, colon.end, Slot(members, key));
      PutKeepsWellFormed(members, key, r.value);
      MembersAreWellFormed(doc, e, NextToken(doc, r.pos).end, Put(members, key, r.value), name);
    }
  }

  lemma {:induction false} ElementsAreWellFormed(doc: string, e: Settings, i: nat, elements: ObjectValues, index: nat)
    requires index <= i <= |doc| < TWO_32 && MapWellFormed(elements) && Indexed(elements)
    ensures WellFormed(ReadElements(doc, e, i, elements, index).value)
    decreases |doc| - i, 1
  {
    hide P.ReadValue, ReadElements, Put, Slot, NextToken, MapWellFormed, Indexed, WellFormed;
    var key := Index(index);
    FindWellFormed(elements, key);
    ReadIsWellFormed(doc, e, i, Slot(elements, key));
    var r := P.ReadValue(doc, e, i, Slot(elements, key));
    PutKeepsWellFormed(elements, key, r.value);
    ElementsLeft(doc, e, i, elements, index);
    ArrayOf(Put(elements, key, r.value));
    var t := NextToken(doc, r.pos);
    if r.ok && t.kind == ArraySeparator { ElementsAreWellFormed(doc, e, t.end, Put(elements, key, r.value), index + 1); }
  }

  lemma {:induction false} ArrayOf(m: ObjectValues)
    requires MapWellFormed(m) && Indexed(m)
    ensures WellFormed(ArrayValue(m))
  {
  }

  /** What a round of the element loop leaves behind: the extended array, or what the next rounds leave. */
  lemma {:induction false} ElementsLeft(doc: string, e: Settings, i: nat, elements: ObjectValues, index: nat)
    requires i <= |doc|
    ensures var r := P.ReadValue(doc, e, i, Slot(elements, Index(index)));
            var t, extended := NextToken(doc, r.pos), Put(elements, Index(index), r.value);
            ReadElements(doc, e, i, elements, index).value ==
            if r.ok && t.kind == ArraySeparator then ReadElements(doc, e, t.end, extended, index + 1).value else ArrayValue(extended)
  {
    hide Recover, P.ReadValue, Put, Slot, NextToken;
  }
}
