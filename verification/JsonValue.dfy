/** JSON values as jsoncpp stores them, and their ordering.
  *
  * A `std::map` is a list of entries in ascending key order; the entries of arrays are
  * keyed by index and may have gaps, the entries of objects are keyed by name. Strings are
  * C strings: the characters before the terminating NUL. A `char` stands for one byte;
  * nothing here depends on its being below 256.
  */
module JsonValue {
  import opened Wrappers

  type CString = s: string | '\0' !in s

  const MAX_INT: int := 0x7FFF_FFFF
  const TWO_32: int := 0x1_0000_0000
  const TWO_63: int := 0x8000_0000_0000_0000
  const TWO_64: int := 0x1_0000_0000_0000_0000

  type LargestInt = i: int | -TWO_63 <= i < TWO_63
  type LargestUInt = u: int | 0 <= u < TWO_64

  datatype CZString = Index(index: nat) | Name(cstr: CString)

  datatype Value =
    | NullValue
    | IntValue(int_: LargestInt)
    | UIntValue(uint_: LargestUInt)
    | RealValue(real_: real)
    | StringValue(string_: Option<CString>)
    | BooleanValue(bool_: bool)
    | ArrayValue(map_: ObjectValues)
    | ObjectValue(map_: ObjectValues)

  datatype ObjectValues = Empty | Entry(key: CZString, value: Value, rest: ObjectValues)

  /** Number of constructors below a value; the termination measure of every traversal. */
  function Size(v: Value): (n: nat)
    ensures n > 0
  {
    match v
    case ArrayValue(m) => 1 + SizeOfMap(m)
    case ObjectValue(m) => 1 + SizeOfMap(m)
    case _ => 1
  }

  function SizeOfMap(m: ObjectValues): nat {
    match m
    case Empty => 0
    case Entry(_, v, rest) => 1 + Size(v) + SizeOfMap(rest)
  }

  function Length(m: ObjectValues): nat {
    if m.Empty? then 0 else 1 + Length(m.rest)
  }

  // ------------------------------------------------------------------ ordering

  /** `strcmp(a, b) < 0`. */
  predicate StrLess(a: string, b: string) {
    b != [] && (a == [] || a[0] < b[0] || (a[0] == b[0] && StrLess(a[1..], b[1..])))
  }

  /** `CZString::operator<`. A map never mixes the two kinds of key, so the mixed cases are
    * never reached; indices come first there. */
  predicate KeyLess(a: CZString, b: CZString) {
    match (a, b)
    case (Name(s), Name(t)) => StrLess(s, t)
    case (Index(i), Index(j)) => i < j
    case (Index(_), Name(_)) => true
    case (Name(_), Index(_)) => false
  }

  function TypeRank(v: Value): nat {
    match v
    case NullValue => 0
    case IntValue(_) => 1
    case UIntValue(_) => 2
    case RealValue(_) => 3
    case StringValue(_) => 4
    case BooleanValue(_) => 5
    case ArrayValue(_) => 6
    case ObjectValue(_) => 7
  }

  /** `Value::operator<`. */
  predicate Less(a: Value, b: Value)
    decreases Size(a) + Size(b)
  {
    if TypeRank(a) != TypeRank(b) then TypeRank(a) < TypeRank(b) else
    match a
    case NullValue => false
    case IntValue(i) => i < b.int_
    case UIntValue(u) => u < b.uint_
    case RealValue(r) => r < b.real_
    case StringValue(s) =>
      (s.None? && b.string_.Some?) ||
      (b.string_.Some? && s.Some? && StrLess(s.value, b.string_.value))
    case BooleanValue(x) => !x && b.bool_
    case ArrayValue(m) =>
      if Length(m) != Length(b.map_) then Length(m) < Length(b.map_) else MapLess(m, b.map_)
    case ObjectValue(m) =>
      if Length(m) != Length(b.map_) then Length(m) < Length(b.map_) else MapLess(m, b.map_)
  }

  /** `std::lexicographical_compare` over the entries, each compared as a `std::pair`. */
  predicate MapLess(x: ObjectValues, y: ObjectValues)
    decreases SizeOfMap(x) + SizeOfMap(y)
  {
    match (x, y)
    case (_, Empty) => false
    case (Empty, Entry(_, _, _)) => true
    case (Entry(j, v, xs), Entry(k, w, ys)) =>
      if KeyLess(j, k) || (!KeyLess(k, j) && Less(v, w)) then true
      else if KeyLess(k, j) || (!KeyLess(j, k) && Less(w, v)) then false
      else MapLess(xs, ys)
  }

  /** `Value::operator==`. */
  predicate Equal(a: Value, b: Value) {
    TypeRank(a) == TypeRank(b) &&
    match a
    case NullValue => true
    case IntValue(i) => i == b.int_
    case UIntValue(u) => u == b.uint_
    case RealValue(r) => r == b.real_
    case StringValue(s) =>
      (s.None? && b.string_.None?) ||
      (b.string_.Some? && s.Some? && !StrLess(s.value, b.string_.value) && !StrLess(b.string_.value, s.value))
    case BooleanValue(x) => x == b.bool_
    case ArrayValue(m) => Length(m) == Length(b.map_) && MapEqual(m, b.map_)
    case ObjectValue(m) => Length(m) == Length(b.map_) && MapEqual(m, b.map_)
  }

  predicate MapEqual(x: ObjectValues, y: ObjectValues) {
    match (x, y)
    case (Empty, Empty) => true
    case (Entry(j, v, xs), Entry(k, w, ys)) =>
      !KeyLess(j, k) && !KeyLess(k, j) && Equal(v, w) && MapEqual(xs, ys)
    case _ => false
  }

  /** `Value::compare`. */
  function Compare(a: Value, b: Value): int {
    if Less(a, b) then -1 else if Less(b, a) then 1 else 0
  }

  lemma {:induction false} StrTotal(a: string, b: string)
    ensures !(StrLess(a, b) && StrLess(b, a))
    ensures !StrLess(a, b) && !StrLess(b, a) <==> a == b
  {
    if a != [] && b != [] {
      StrTotal(a[1..], b[1..]);
      assert a == [a[0]] + a[1..] && b == [b[0]] + b[1..];
    }
  }

  lemma {:induction false} StrTransitive(a: string, b: string, c: string)
    requires StrLess(a, b) && StrLess(b, c)
    ensures StrLess(a, c)
  {
    if a != [] && a[0] == b[0] == c[0] {
      StrTransitive(a[1..], b[1..], c[1..]);
    }
  }

  lemma KeyTotal(a: CZString, b: CZString)
    ensures !(KeyLess(a, b) && KeyLess(b, a))
    ensures !KeyLess(a, b) && !KeyLess(b, a) <==> a == b
  {
    if a.Name? && b.Name? { StrTotal(a.cstr, b.cstr); }
  }

  lemma KeyTransitive(a: CZString, b: CZString, c: CZString)
    requires KeyLess(a, b) && KeyLess(b, c)
    ensures KeyLess(a, c)
  {
    if a.Name? { StrTransitive(a.cstr, b.cstr, c.cstr); }
  }

  /** `==` on values is identity of their contents. */
  lemma {:induction false} EqualIsIdentity(a: Value, b: Value)
    ensures Equal(a, b) <==> a == b
    decreases a
  {
    match a
    case StringValue(s) =>
      if b.StringValue? && s.Some? && b.string_.Some? { StrTotal(s.value, b.string_.value); }
    case ArrayValue(m) => if b.ArrayValue? { MapEqualIsIdentity(m, b.map_); }
    case ObjectValue(m) => if b.ObjectValue? { MapEqualIsIdentity(m, b.map_); }
    case _ =>
  }

  lemma {:induction false} MapEqualIsIdentity(x: ObjectValues, y: ObjectValues)
    ensures MapEqual(x, y) <==> x == y
    decreases x
  {
    if x.Entry? && y.Entry? {
      KeyTotal(x.key, y.key);
      EqualIsIdentity(x.value, y.value);
      MapEqualIsIdentity(x.rest, y.rest);
    }
  }

  /** Exactly one of `a < b`, `a == b`, `b < a` holds, at any nesting. */
  lemma {:induction false} Trichotomy(a: Value, b: Value)
    ensures !(Less(a, b) && Less(b, a))
    ensures Equal(a, b) <==> !Less(a, b) && !Less(b, a)
    decreases a
  {
    EqualIsIdentity(a, b);
    if TypeRank(a) == TypeRank(b) {
      match a
      case StringValue(s) =>
        if s.Some? && b.string_.Some? { StrTotal(s.value, b.string_.value); }
      case ArrayValue(m) => MapTrichotomy(m, b.map_);
      case ObjectValue(m) => MapTrichotomy(m, b.map_);
      case _ =>
    }
  }

  lemma {:induction false} MapTrichotomy(x: ObjectValues, y: ObjectValues)
    ensures !(MapLess(x, y) && MapLess(y, x))
    ensures x == y <==> !MapLess(x, y) && !MapLess(y, x)
    decreases x
  {
    if x.Entry? && y.Entry? {
      KeyTotal(x.key, y.key);
      Trichotomy(x.value, y.value);
      EqualIsIdentity(x.value, y.value);
      MapTrichotomy(x.rest, y.rest);
    }
  }

  lemma {:induction false} Transitive(a: Value, b: Value, c: Value)
    requires Less(a, b) && Less(b, c)
    ensures Less(a, c)
    decreases a
  {
    if TypeRank(a) == TypeRank(b) == TypeRank(c) {
      match a
      case StringValue(s) =>
        if s.Some? { StrTransitive(s.value, b.string_.value, c.string_.value); }
      case ArrayValue(m) =>
        if Length(m) == Length(b.map_) == Length(c.map_) { MapTransitive(m, b.map_, c.map_); }
      case ObjectValue(m) =>
        if Length(m) == Length(b.map_) == Length(c.map_) { MapTransitive(m, b.map_, c.map_); }
      case _ =>
    }
  }

  lemma {:induction false} MapTransitive(x: ObjectValues, y: ObjectValues, z: ObjectValues)
    requires MapLess(x, y) && MapLess(y, z)
    ensures MapLess(x, z)
    decreases x
  {
    if x.Entry? {
      KeyTotal(x.key, y.key);
      KeyTotal(y.key, z.key);
      KeyTotal(x.key, z.key);
      EntryTotal(x.value, y.value);
      EntryTotal(y.value, z.value);
      EntryTotal(x.value, z.value);
      if KeyLess(x.key, y.key) && KeyLess(y.key, z.key) {
        KeyTransitive(x.key, y.key, z.key);
      } else if x.key == y.key == z.key {
        if Less(x.value, y.value) && Less(y.value, z.value) {
          Transitive(x.value, y.value, z.value);
        } else if x.value == y.value == z.value {
          MapTransitive(x.rest, y.rest, z.rest);
        }
      }
    }
  }

  lemma {:induction false} EntryTotal(v: Value, w: Value)
    ensures !(Less(v, w) && Less(w, v))
    ensures v == w <==> !Less(v, w) && !Less(w, v)
  {
    Trichotomy(v, w);
    EqualIsIdentity(v, w);
  }

  /** `compare` is antisymmetric, and its sign is the ordering. */
  lemma {:induction false} CompareAgrees(a: Value, b: Value)
    ensures Compare(a, b) == -Compare(b, a)
    ensures Compare(a, b) < 0 <==> Less(a, b)
    ensures Compare(a, b) == 0 <==> Equal(a, b)
    ensures Compare(a, b) == 0 <==> a == b
  {
    Trichotomy(a, b);
    EqualIsIdentity(a, b);
  }
}
