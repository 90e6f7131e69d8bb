/** What "less" means: the ordering of values in terms of their contents. */
module JsonOrder {
  import opened Wrappers
  import opened JsonValue

  /** The strings agree up to some place, where `a` ends or has the smaller character. */
  predicate Before(a: string, b: string) {
    exists k :: 0 <= k <= |a| && k < |b| && a[..k] == b[..k] && (k == |a| || a[k] < b[k])
  }

  lemma {:induction false} StrLessMeans(a: string, b: string)
    ensures StrLess(a, b) <==> Before(a, b)
  {
    if a != [] && b != [] && a[0] == b[0] {
      StrLessMeans(a[1..], b[1..]);
      if k :| 0 <= k <= |a[1..]| && k < |b[1..]| && a[1..][..k] == b[1..][..k] && (k == |a[1..]| || a[1..][k] < b[1..][k]) {
        assert a[..k + 1] == [a[0]] + a[1..][..k] && b[..k + 1] == [b[0]] + b[1..][..k];
        assert k + 1 == |a| || a[k + 1] < b[k + 1];
      }
      if k :| 0 <= k <= |a| && k < |b| && a[..k] == b[..k] && (k == |a| || a[k] < b[k]) {
        assert k > 0;
        assert a[1..][..k - 1] == a[..k][1..] && b[1..][..k - 1] == b[..k][1..];
        assert k - 1 == |a[1..]| || a[1..][k - 1] < b[1..][k - 1];
      }
    } else if a != [] && b != [] {
      assert forall k :: 0 < k <= |a| && k <= |b| ==> a[..k][0] == a[0] && b[..k][0] == b[0];
      assert a[..0] == b[..0];
    } else {
      assert a[..0] == b[..0];
    }
  }

  /** Array elements by index, object members by name. */
  predicate KeyBefore(a: CZString, b: CZString) {
    if a.Index? then b.Index? ==> a.index < b.index else b.Name? && Before(a.cstr, b.cstr)
  }

  lemma KeyLessMeans(a: CZString, b: CZString)
    ensures KeyLess(a, b) <==> KeyBefore(a, b)
  {
    if a.Name? && b.Name? { StrLessMeans(a.cstr, b.cstr); }
  }

  /** The entries of a map in their order. */
  function Entries(m: ObjectValues): (es: seq<(CZString, Value)>)
    ensures forall k :: 0 <= k < |es| ==> Size(es[k].1) <= SizeOfMap(m)
  {
    if m.Empty? then [] else [(m.key, m.value)] + Entries(m.rest)
  }

  lemma {:induction false} LengthCounts(m: ObjectValues)
    ensures Length(m) == |Entries(m)|
  {
    if m.Entry? { LengthCounts(m.rest); }
  }

  /** The kinds of value as the source's enumeration lists them. */
  predicate KindBefore(a: Value, b: Value) {
    if a.NullValue? then !b.NullValue?
    else if a.IntValue? then !b.NullValue? && !b.IntValue?
    else if a.UIntValue? then b.RealValue? || b.StringValue? || b.BooleanValue? || b.ArrayValue? || b.ObjectValue?
    else if a.RealValue? then b.StringValue? || b.BooleanValue? || b.ArrayValue? || b.ObjectValue?
    else if a.StringValue? then b.BooleanValue? || b.ArrayValue? || b.ObjectValue?
    else if a.BooleanValue? then b.ArrayValue? || b.ObjectValue?
    else a.ArrayValue? && b.ObjectValue?
  }

  /** What the first of two values has to be like for the ordering to put it first. */
  ghost predicate Smaller(a: Value, b: Value)
    decreases Size(a), 1
  {
    match (a, b)
    case (IntValue(i), IntValue(j)) => i < j
    case (UIntValue(i), UIntValue(j)) => i < j
    case (RealValue(x), RealValue(y)) => x < y
    case (StringValue(s), StringValue(t)) => t.Some? && (s.Some? ==> Before(s.value, t.value))
    case (BooleanValue(x), BooleanValue(y)) => x == false && y == true
    case (ArrayValue(m), ArrayValue(n)) => FirstDifference(m, n)
    case (ObjectValue(m), ObjectValue(n)) => FirstDifference(m, n)
    case _ => KindBefore(a, b)
  }

  /** Fewer entries, or as many and the first that differs has the smaller key, or the same key and the smaller value. */
  ghost predicate FirstDifference(m: ObjectValues, n: ObjectValues)
    decreases 1 + SizeOfMap(m), 0
  {
    var x, y := Entries(m), Entries(n);
    |x| < |y| ||
    (|x| == |y| &&
     exists k :: 0 <= k < |x| && AgreeTo(x, y, k) &&
       (KeyBefore(x[k].0, y[k].0) || (x[k].0 == y[k].0 && Smaller(x[k].1, y[k].1))))
  }

  predicate AgreeTo<T(==)>(x: seq<T>, y: seq<T>, k: nat) { k <= |x| && k <= |y| && x[..k] == y[..k] }

  /** The ordering of values is what the contents say, at any nesting. */
  lemma {:induction false} LessMeans(a: Value, b: Value)
    ensures Less(a, b) <==> Smaller(a, b)
    decreases Size(a), 1
  {
    match (a, b)
    case (StringValue(s), StringValue(t)) =>
      if s.Some? && t.Some? { StrLessMeans(s.value, t.value); }
    case (ArrayValue(m), ArrayValue(n)) => MapsDiffer(m, n);
    case (ObjectValue(m), ObjectValue(n)) => MapsDiffer(m, n);
    case _ =>
  }

  lemma {:induction false} MapsDiffer(m: ObjectValues, n: ObjectValues)
    ensures (if Length(m) != Length(n) then Length(m) < Length(n) else MapLess(m, n)) <==> FirstDifference(m, n)
    decreases 1 + SizeOfMap(m), 0
  {
    LengthCounts(m);
    LengthCounts(n);
    if Length(m) == Length(n) {
      MapLessMeans(m, n);
      if MapLess(m, n) {
        var k :| 0 <= k < |Entries(m)| && EarlierAt(m, n, k);
        assert AgreeTo(Entries(m), Entries(n), k);
      }
      if FirstDifference(m, n) {
        var x, y := Entries(m), Entries(n);
        var k :| 0 <= k < |x| && AgreeTo(x, y, k) &&
                 (KeyBefore(x[k].0, y[k].0) || (x[k].0 == y[k].0 && Smaller(x[k].1, y[k].1)));
        assert EarlierAt(m, n, k);
      }
    }
  }

  ghost predicate EarlierAt(m: ObjectValues, n: ObjectValues, k: nat)
    requires k < |Entries(m)| && k < |Entries(n)|
  {
    var x, y := Entries(m), Entries(n);
    AgreeTo(x, y, k) && (KeyBefore(x[k].0, y[k].0) || (x[k].0 == y[k].0 && Smaller(x[k].1, y[k].1)))
  }

  lemma {:induction false} MapLessMeans(m: ObjectValues, n: ObjectValues)
    requires |Entries(m)| == |Entries(n)|
    ensures MapLess(m, n) <==> exists k :: 0 <= k < |Entries(m)| && EarlierAt(m, n, k)
    decreases SizeOfMap(m), 2
  {
    hide Smaller, EarlierAt;
    if m.Entry? && n.Entry? {
      KeyTotal(m.key, n.key);
      KeyLessMeans(m.key, n.key);
      LessMeans(m.value, n.value);
      EntryTotal(m.value, n.value);
      HeadDecides(m, n);
      if m.key == n.key && m.value == n.value {
        TailDecides(m, n);
        MapLessMeans(m.rest, n.rest);
        if MapLess(m.rest, n.rest) {
          var k :| 0 <= k < |Entries(m.rest)| && EarlierAt(m.rest, n.rest, k);
          assert EarlierAt(m, n, k + 1);
        }
      } else if MapLess(m, n) {
        assert EarlierAt(m, n, 0);
      }
    }
  }

  lemma {:induction false} HeadDecides(m: ObjectValues, n: ObjectValues)
    requires m.Entry? && n.Entry? && |Entries(m)| == |Entries(n)|
    ensures EarlierAt(m, n, 0) <==> KeyBefore(m.key, n.key) || (m.key == n.key && Smaller(m.value, n.value))
    ensures (m.key, m.value) != (n.key, n.value) ==> forall k :: 0 < k < |Entries(m)| ==> !EarlierAt(m, n, k)
  {
    hide Smaller, KeyBefore;
    var x, y := Entries(m), Entries(n);
    assert forall k :: 0 < k < |x| ==> x[..k][0] == (m.key, m.value) && y[..k][0] == (n.key, n.value);
  }

  lemma {:induction false} TailDecides(m: ObjectValues, n: ObjectValues)
    requires m.Entry? && n.Entry? && |Entries(m)| == |Entries(n)| && m.key == n.key && m.value == n.value
    ensures forall k :: 0 < k < |Entries(m)| ==> (EarlierAt(m, n, k) <==> EarlierAt(m.rest, n.rest, k - 1))
  {
    var x, y := Entries(m), Entries(n);
    hide Smaller, KeyBefore;
    forall k | 0 < k < |x|
      ensures EarlierAt(m, n, k) <==> EarlierAt(m.rest, n.rest, k - 1)
    {
      assert x[..k] == [x[0]] + Entries(m.rest)[..k - 1] && y[..k] == [y[0]] + Entries(n.rest)[..k - 1];
      assert x[..k][1..] == Entries(m.rest)[..k - 1] && y[..k][1..] == Entries(n.rest)[..k - 1];
    }
  }

  /** The source's own notion of `compare` on two names. */
  lemma {:induction false} CompareMeans(a: Value, b: Value)
    ensures Compare(a, b) == if Smaller(a, b) then -1 else if Smaller(b, a) then 1 else 0
  {
    LessMeans(a, b);
    LessMeans(b, a);
  }
}
