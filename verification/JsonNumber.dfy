/** Integers in and out of text: `uintToString`, `valueToString` and the integer half of
  * `Reader::decodeNumber`, with the 64-bit conversions of the source written out.
  */
module JsonNumber {
  import opened JsonValue

  /** Conversion of an integer to `LargestUInt`. */
  function ToUnsigned(x: int): LargestUInt { x % TWO_64 }

  /** Conversion of an integer to `LargestInt` (two's complement). */
  function ToSigned(x: int): LargestInt {
    if x % TWO_64 < TWO_63 then x % TWO_64 else x % TWO_64 - TWO_64
  }

  /** Negating in two's complement, in both directions of the conversion. */
  lemma NegationWraps(n: nat)
    requires n <= TWO_63
    ensures ToSigned(0 - ToSigned(n)) == 0 - n
    ensures ToUnsigned(ToSigned(n)) == n
  {
  }

  predicate IsDigit(c: char) { '0' <= c <= '9' }

  function DigitValue(c: char): (d: nat)
    requires IsDigit(c)
    ensures d < 10
  {
    c as int - '0' as int
  }

  function DigitChar(d: nat): (c: char)
    requires d < 10
    ensures IsDigit(c) && DigitValue(c) == d
  {
    ('0' as int + d) as char
  }

  predicate AllDigits(s: string) { forall k :: 0 <= k < |s| ==> IsDigit(s[k]) }

  /** The number a digit string denotes; the empty string denotes 0. */
  function Denotes(s: string): nat
    requires AllDigits(s)
  {
    if s == [] then 0 else Denotes(s[..|s| - 1]) * 10 + DigitValue(s[|s| - 1])
  }

  // ------------------------------------------------------------------ printing

  function Decimal(n: nat): (s: string)
    ensures s != [] && AllDigits(s)
  {
    if n < 10 then [DigitChar(n)] else Decimal(n / 10) + [DigitChar(n % 10)]
  }

  function IntText(i: int): string {
    if i < 0 then "-" + Decimal(-i) else Decimal(i)
  }

  lemma {:induction false} DecimalDenotes(n: nat)
    ensures Denotes(Decimal(n)) == n
  {
    if n >= 10 {
      DecimalDenotes(n / 10);
      assert Decimal(n)[..|Decimal(n)| - 1] == Decimal(n / 10);
    } else {
      assert Decimal(n)[..0] == "";
    }
  }

  /** Printed numbers carry no leading zero. */
  lemma {:induction false} DecimalCanonical(n: nat)
    ensures n > 0 ==> Decimal(n)[0] != '0'
    ensures n == 0 ==> Decimal(n) == "0"
  {
    if n >= 10 {
      DecimalCanonical(n / 10);
      assert Decimal(n)[0] == Decimal(n / 10)[0];
    }
  }

  function Pow10(k: nat): (p: nat)
    ensures p > 0
  {
    if k == 0 then 1 else 10 * Pow10(k - 1)
  }

  /** The ten digits and their values. */
  lemma DigitsMean(c: char, d: nat)
    ensures IsDigit(c) && DigitValue(c) == d <==> d < 10 && c == "0123456789"[d]
  {
  }

  /** A digit counts ten times as much as one in its place further to the right. */
  lemma {:induction false} PositionalTen(c: char, s: string)
    requires IsDigit(c) && AllDigits(s)
    ensures AllDigits([c] + s) && Denotes([c] + s) == DigitValue(c) * Pow10(|s|) + Denotes(s)
    ensures Pow10(1) == 10 && Pow10(3) == 1000
  {
    var t := [c] + s;
    if s == "" {
      assert t[..0] == "";
    } else {
      var n := |s| - 1;
      assert t[..|t| - 1] == [c] + s[..n] && t[|t| - 1] == s[n];
      PositionalTen(c, s[..n]);
      assert DigitValue(c) * Pow10(n) * 10 == DigitValue(c) * Pow10(|s|);
    }
  }

  lemma {:induction false} DecimalLength(n: nat, k: nat)
    requires k > 0 && n < Pow10(k)
    ensures |Decimal(n)| <= k
  {
    if n >= 10 {
      assert k > 1;
      DecimalLength(n / 10, k - 1);
    }
  }

  lemma {:induction false} LargestUIntLength(u: LargestUInt)
    ensures |Decimal(u)| <= 20
  {
    assert Pow10(10) == 10000000000;
    assert Pow10(20) == 100000000000000000000;
    DecimalLength(u, 20);
  }

  const BUFFER_SIZE: nat := 3 * 8 + 1   // uintToStringBufferSize

  /** `uintToString`: writes backwards from `current` and returns the moved pointer. */
  method UintToString(value: LargestUInt, buffer: array<char>, current: nat) returns (start: nat)
    requires |Decimal(value)| + 1 <= current <= buffer.Length
    modifies buffer
    ensures start == current - 1 - |Decimal(value)|
    ensures buffer[start..current] == Decimal(value) + "\0"
    ensures forall k :: 0 <= k < buffer.Length && !(start <= k < current) ==> buffer[k] == old(buffer[k])
  {
    start := current - 1;
    buffer[start] := '\0';
    var rest: nat := value;
    ghost var tail := "";
    assert Decimal(value) + tail == Decimal(value);
    while true
      invariant start < current
      invariant Decimal(rest) + tail == Decimal(value)
      invariant start == current - 1 - |tail|
      invariant buffer[start..current] == tail + "\0"
      invariant forall k :: 0 <= k < buffer.Length && !(start <= k < current) ==> buffer[k] == old(buffer[k])
      decreases rest
    {
      start := start - 1;
      buffer[start] := DigitChar(rest % 10);
      tail := [DigitChar(rest % 10)] + tail;
      if rest / 10 == 0 { break; }
      assert Decimal(rest) == Decimal(rest / 10) + [DigitChar(rest % 10)];
      assert Decimal(rest / 10) + tail == Decimal(value);
      rest := rest / 10;
    }
    assert tail == Decimal(value);
  }

  /** `valueToString(LargestUInt)`; the source's assertion on the buffer is the first one. */
  method UIntToText(value: LargestUInt) returns (text: string)
    ensures text == Decimal(value)
  {
    var buffer := new char[BUFFER_SIZE];
    LargestUIntLength(value);
    var current := UintToString(value, buffer, BUFFER_SIZE);
    assert current >= 0;
    text := buffer[current..BUFFER_SIZE - 1];
    assert buffer[current..BUFFER_SIZE][..|Decimal(value)|] == text;
  }

  /** `valueToString(LargestInt)`: the negation is done in `LargestInt`, which leaves the
    * smallest value unchanged, and the conversion to unsigned then recovers its magnitude. */
  method IntToText(value: LargestInt) returns (text: string)
    ensures text == IntText(value)
  {
    var buffer := new char[BUFFER_SIZE];
    var isNegative := value < 0;
    var magnitude := if isNegative then ToSigned(0 - value) else value;
    ghost var absolute: nat := if isNegative then 0 - value else value;
    NegationWraps(absolute);
    assert ToUnsigned(magnitude) == absolute;
    LargestUIntLength(absolute);
    var current := UintToString(ToUnsigned(magnitude), buffer, BUFFER_SIZE);
    ghost var digits := Decimal(absolute);
    assert buffer[current..BUFFER_SIZE - 1] == buffer[current..BUFFER_SIZE][..|digits|] == digits;
    if isNegative {
      assert current > 0;
      current := current - 1;
      buffer[current] := '-';
    }
    text := buffer[current..BUFFER_SIZE - 1];
  }

  // ------------------------------------------------------------------ decoding

  datatype Decoded = Number(value: Value) | UseDouble | NotANumber

  predicate IsNumberChar(c: char) { IsDigit(c) || c in ".eE+-" }

  /** What `readToken` hands over as a number: a digit or a minus, then `readNumber`'s run. */
  predicate NumberLexeme(s: string) {
    s != [] && (IsDigit(s[0]) || s[0] == '-') && forall k :: 1 <= k < |s| ==> IsNumberChar(s[k])
  }

  predicate LooksReal(s: string) {
    exists k :: 0 <= k < |s| && (s[k] in ".eE+" || (s[k] == '-' && k != 0))
  }

  /** An optional minus and any number of digits. */
  predicate IntegerLexeme(s: string) {
    s != [] && (s[0] == '-' || IsDigit(s[0])) && AllDigits(s[1..])
  }

  function Magnitude(s: string): nat
    requires IntegerLexeme(s)
  {
    if s[0] == '-' then Denotes(s[1..]) else Denotes(s)
  }

  function Mathematical(s: string): int
    requires IntegerLexeme(s)
  {
    if s[0] == '-' then 0 - Magnitude(s) else Magnitude(s)
  }

  /** The value an integer gets: `intValue` up to `maxInt`, `uintValue` above. */
  function IntegerValue(i: int): Value
    requires -TWO_63 <= i < TWO_64
  {
    if i <= MAX_INT then IntValue(i) else UIntValue(i)
  }

  function MaxIntegerValue(isNegative: bool): nat {
    if isNegative then ToUnsigned(ToSigned(TWO_63)) else TWO_64 - 1
  }

  /** The digit loop of `decodeNumber`, from position `i` with accumulator `value`. */
  function Accumulate(s: string, i: nat, value: nat, isNegative: bool): Decoded
    requires i <= |s| && value < TWO_64
    decreases |s| - i
  {
    var most := MaxIntegerValue(isNegative);
    if i == |s| then
      if isNegative then Number(IntValue(ToSigned(0 - ToSigned(value))))
      else if value <= MAX_INT then Number(IntValue(value))
      else Number(UIntValue(value))
    else if !IsDigit(s[i]) then NotANumber
    else
      var digit := DigitValue(s[i]);
      if value >= most / 10 && (value > most / 10 || i + 1 != |s| || digit > most % 10) then UseDouble
      else Accumulate(s, i + 1, value * 10 + digit, isNegative)
  }

  function Decode(s: string): Decoded
    requires s != []
  {
    if LooksReal(s) then UseDouble
    else if s[0] == '-' then Accumulate(s, 1, 0, true)
    else Accumulate(s, 0, 0, false)
  }

  /** `Reader::decodeNumber(Token&, Value&)` up to the choice of `decodeDouble`. */
  method DecodeNumber(s: string) returns (r: Decoded)
    requires s != []
    ensures r == Decode(s)
  {
    var isDouble := false;
    for inspect := 0 to |s|
      invariant isDouble <==> LooksReal(s[..inspect])
    {
      assert s[..inspect + 1] == s[..inspect] + [s[inspect]];
      assert isDouble ==> LooksReal(s[..inspect + 1]) by {
        if isDouble {
          var k :| 0 <= k < inspect && (s[..inspect][k] in ".eE+" || (s[..inspect][k] == '-' && k != 0));
          assert s[..inspect + 1][k] == s[..inspect][k];
        }
      }
      assert s[..inspect + 1][inspect] == s[inspect];
      assert forall k :: 0 <= k < inspect ==> s[..inspect + 1][k] == s[..inspect][k];
      isDouble := isDouble || s[inspect] in ".eE+" || (s[inspect] == '-' && inspect != 0);
    }
    assert s[..|s|] == s;
    if isDouble { return UseDouble; }
    var current := 0;
    var isNegative := s[0] == '-';
    if isNegative { current := 1; }
    var maxIntegerValue := MaxIntegerValue(isNegative);
    var threshold := maxIntegerValue / 10;
    var value: nat := 0;
    while current < |s|
      invariant current <= |s| && value < TWO_64
      invariant Accumulate(s, current, value, isNegative) == Decode(s)
    {
      var c := s[current];
      current := current + 1;
      if c < '0' || c > '9' { return NotANumber; }
      var digit := DigitValue(c);
      if value >= threshold {
        if value > threshold || current != |s| || digit > maxIntegerValue % 10 {
          return UseDouble;
        }
      }
      value := value * 10 + digit;
    }
    if isNegative {
      r := Number(IntValue(ToSigned(0 - ToSigned(value))));
    } else if value <= MAX_INT {
      r := Number(IntValue(value));
    } else {
      r := Number(UIntValue(value));
    }
  }

  lemma {:induction false} DecodedIsInteger(s: string, i: nat, value: nat, isNegative: bool)
    requires i <= |s| && value < TWO_64
    ensures var r := Accumulate(s, i, value, isNegative); r.Number? ==> r.value.IntValue? || r.value.UIntValue?
    decreases |s| - i
  {
    var most := MaxIntegerValue(isNegative);
    if i < |s| && IsDigit(s[i]) {
      var digit := DigitValue(s[i]);
      if !(value >= most / 10 && (value > most / 10 || i + 1 != |s| || digit > most % 10)) {
        DecodedIsInteger(s, i + 1, value * 10 + digit, isNegative);
      }
    }
  }

  lemma {:induction false} DenotesGrows(s: string, i: nat)
    requires AllDigits(s) && i <= |s|
    ensures Denotes(s[..i]) <= Denotes(s)
    decreases |s| - i
  {
    if i < |s| {
      assert s[..i + 1][..i] == s[..i];
      DenotesGrows(s, i + 1);
    } else {
      assert s[..i] == s;
    }
  }

  lemma DenotesStep(s: string, start: nat, i: nat)
    requires start <= i < |s| && AllDigits(s[start..])
    ensures IsDigit(s[i]) && AllDigits(s[start..i]) && AllDigits(s[start..i + 1])
    ensures Denotes(s[start..i + 1]) == Denotes(s[start..i]) * 10 + DigitValue(s[i])
    ensures Denotes(s[start..i + 1]) <= Denotes(s[start..])
  {
    assert s[i] == s[start..][i - start];
    assert s[start..i + 1][..i - start] == s[start..i];
    assert s[start..i + 1] == s[start..][..i + 1 - start];
    assert s[start..i] == s[start..][..i - start];
    DenotesGrows(s[start..], i + 1 - start);
  }

  function Verdict(n: nat, isNegative: bool): Decoded {
    if n > MaxIntegerValue(isNegative) then UseDouble
    else Number(IntegerValue(if isNegative then 0 - n else n))
  }

  /** From any point of the loop the outcome is decided by the number the digits denote. */
  lemma {:induction false} AccumulateExact(s: string, i: nat, start: nat, isNegative: bool)
    requires start <= i <= |s| && AllDigits(s[start..])
    requires AllDigits(s[start..i]) && Denotes(s[start..i]) <= MaxIntegerValue(isNegative)
    ensures Accumulate(s, i, Denotes(s[start..i]), isNegative) == Verdict(Denotes(s[start..]), isNegative)
    decreases |s| - i
  {
    hide Denotes, Accumulate;
    var value := Denotes(s[start..i]);
    if i == |s| {
      assert s[start..i] == s[start..];
      NoDigitLeft(s, value, isNegative);
    } else {
      hide Verdict;
      DenotesStep(s, start, i);
      AccumulateStep(s, i, value, isNegative);
      if value * 10 + DigitValue(s[i]) > MaxIntegerValue(isNegative) {
        OverflowGoesToDouble(s, i, value, isNegative);
      } else if value >= MaxIntegerValue(isNegative) / 10 && i + 1 != |s| {
        DenotesStep(s, start, i + 1);
      } else {
        AccumulateExact(s, i + 1, start, isNegative);
      }
    }
  }

  lemma {:induction false} NoDigitLeft(s: string, value: nat, isNegative: bool)
    requires value <= MaxIntegerValue(isNegative)
    ensures Accumulate(s, |s|, value, isNegative) == Verdict(value, isNegative)
  {
    if isNegative { NegationWraps(value); }
  }

  /** One round of the loop, by its threshold test. */
  lemma {:induction false} AccumulateStep(s: string, i: nat, value: nat, isNegative: bool)
    requires i < |s| && IsDigit(s[i]) && value <= MaxIntegerValue(isNegative)
    ensures var most, digit := MaxIntegerValue(isNegative), DigitValue(s[i]);
            Accumulate(s, i, value, isNegative) ==
            if value >= most / 10 && (value > most / 10 || i + 1 != |s| || digit > most % 10) then UseDouble
            else Accumulate(s, i + 1, value * 10 + digit, isNegative)
  {
  }

  lemma {:induction false} OverflowGoesToDouble(s: string, i: nat, value: nat, isNegative: bool)
    requires i < |s| && IsDigit(s[i]) && value < TWO_64
    requires value * 10 + DigitValue(s[i]) > MaxIntegerValue(isNegative)
    ensures Accumulate(s, i, value, isNegative) == UseDouble
  {
  }

  /** Integer decoding is exact and never wraps: the mathematical value when it lies in
    * [-2^63, 2^64 - 1], the double path otherwise. */
  lemma DecodeExact(s: string)
    requires IntegerLexeme(s)
    ensures var i := Mathematical(s);
            Decode(s) == if -TWO_63 <= i < TWO_64 then Number(IntegerValue(i)) else UseDouble
  {
    assert forall k :: 1 <= k < |s| ==> s[k] == s[1..][k - 1];
    if s[0] == '-' {
      assert s[1..1] == "";
      AccumulateExact(s, 1, 1, true);
    } else {
      assert s[0..0] == "" && s[0..] == s;
      assert AllDigits(s);
      AccumulateExact(s, 0, 0, false);
    }
  }

  lemma IntTextIsInteger(i: int)
    ensures IntegerLexeme(IntText(i)) && Mathematical(IntText(i)) == i
  {
    if i < 0 {
      assert IntText(i)[1..] == Decimal(-i);
      DecimalDenotes(-i);
    } else {
      DecimalDenotes(i);
    }
  }

  /** Decoding undoes printing over the whole 64-bit range, up to the choice of tag. */
  lemma PrintThenDecode(i: int)
    requires -TWO_63 <= i < TWO_64
    ensures NumberLexeme(IntText(i))
    ensures Decode(IntText(i)) == Number(IntegerValue(i))
  {
    IntTextIsInteger(i);
    DecodeExact(IntText(i));
    var s := IntText(i);
    assert forall k :: 1 <= k < |s| ==> s[k] == s[1..][k - 1];
  }

  /** A number lexeme is either an integer or goes to the double path; it is never rejected
    * by the integer loop. */
  lemma NumberNeverRejected(s: string)
    requires NumberLexeme(s)
    ensures Decode(s) != NotANumber
    ensures LooksReal(s) || IntegerLexeme(s)
  {
    if !LooksReal(s) {
      forall k | 0 <= k < |s[1..]|
        ensures IsDigit(s[1..][k])
      {
        assert s[1..][k] == s[k + 1];
        assert IsNumberChar(s[k + 1]);
      }
      DecodeExact(s);
    }
  }
}
