/** The line level of bridgeserver/ini.hpp: trimming, splitting, and what one line says. */
module IniText {

  // ---------- trimming ----------

  // strchr also finds the terminator of its set, so NUL counts as blank.
  predicate Blank(c: char) {
    c == ' ' || c == '\t' || c == '\r' || c == '\n' || c == '\0'
  }

  predicate BlankIn(s: string, i: nat, j: nat)
    requires j <= |s|
  {
    forall k :: i <= k < j ==> Blank(s[k])
  }

  predicate Trimmed(s: string) {
    s == "" || (!Blank(s[0]) && !Blank(s[|s| - 1]))
  }

  function DropLeft(s: string): string {
    if s != "" && Blank(s[0]) then DropLeft(s[1..]) else s
  }

  function DropRight(s: string): string {
    if s != "" && Blank(s[|s| - 1]) then DropRight(s[..|s| - 1]) else s
  }

  // What is left of s without the blanks at its two ends.
  function Core(s: string): string {
    DropRight(DropLeft(s))
  }

  lemma {:induction false} DropLeftAt(s: string) returns (i: nat)
    ensures i <= |s| && BlankIn(s, 0, i) && DropLeft(s) == s[i..] && (i < |s| ==> !Blank(s[i]))
  {
    if s != "" && Blank(s[0]) {
      var j := DropLeftAt(s[1..]);
      i := j + 1;
      assert forall k :: 1 <= k < |s| ==> s[k] == s[1..][k - 1];
    } else {
      i := 0;
    }
  }

  lemma {:induction false} DropRightAt(s: string) returns (j: nat)
    ensures j <= |s| && BlankIn(s, j, |s|) && DropRight(s) == s[..j] && (j > 0 ==> !Blank(s[j - 1]))
  {
    if s != "" && Blank(s[|s| - 1]) {
      j := DropRightAt(s[..|s| - 1]);
      assert forall k :: 0 <= k < |s| - 1 ==> s[k] == s[..|s| - 1][k];
    } else {
      j := |s|;
    }
  }

  // Trimming removes blanks, only blanks, and all of them at the two ends.
  lemma CoreSplits(s: string) returns (i: nat, j: nat)
    ensures i <= j <= |s| && BlankIn(s, 0, i) && BlankIn(s, j, |s|) && Core(s) == s[i..j]
    ensures Trimmed(Core(s))
    ensures s != "" && !Blank(s[0]) ==> i == 0 < j
  {
    hide DropLeft, DropRight;
    i := DropLeftAt(s);
    var n := DropRightAt(s[i..]);
    j := i + n;
    assert forall k :: i <= k < |s| ==> s[k] == s[i..][k - i];
    assert s[i..][..n] == s[i..j];
  }

  // No other piece of s could be the result.
  lemma CoreIs(s: string, i: nat, j: nat)
    requires i <= j <= |s| && BlankIn(s, 0, i) && BlankIn(s, j, |s|)
    requires i == j || (!Blank(s[i]) && !Blank(s[j - 1]))
    ensures Core(s) == s[i..j]
  {
    hide Core;
    var a, b := CoreSplits(s);
    if a < b {
      assert s[a..b][0] == s[a] && s[a..b][b - a - 1] == s[b - 1];
    }
  }

  lemma CoreIsTrimmed(s: string)
    ensures Trimmed(Core(s))
    ensures forall c :: c in Core(s) ==> c in s
    ensures s != "" && !Blank(s[0]) ==> Core(s) != "" && Core(s)[0] == s[0]
  {
    hide Core;
    var i, j := CoreSplits(s);
  }

  lemma CoreOfTrimmed(s: string)
    requires Trimmed(s)
    ensures Core(s) == s
  {
    hide Core;
    assert s[0..|s|] == s;
    CoreIs(s, 0, |s|);
  }

  // C++ substr: the count is clamped, and one that wrapped below zero means "to the end".
  function Substr(s: string, from: nat, count: int): string
    requires from <= |s|
  {
    if count < 0 || from + count > |s| then s[from..] else s[from..from + count]
  }

  method Trim(s: string) returns (r: string)
    ensures r == Core(s)
  {
    hide Core;
    var sp: int, ep: int := 0, |s| - 1;
    while sp <= ep
      invariant 0 <= sp <= |s| && BlankIn(s, 0, sp)
      decreases |s| - sp
    {
      if !Blank(s[sp]) { break; }
      sp := sp + 1;
    }
    while ep >= 0
      invariant -1 <= ep < |s| && BlankIn(s, ep + 1, |s|)
      invariant sp < |s| ==> sp <= ep
      decreases ep
    {
      if !Blank(s[ep]) { break; }
      ep := ep - 1;
    }
    r := Substr(s, sp, ep - sp + 1);
    CoreIs(s, sp, if sp == |s| then sp else ep + 1);
  }

  // ---------- lines ----------

  function LineEnd(s: string): (n: nat)
    ensures n <= |s| && (forall k :: 0 <= k < n ==> s[k] != '\n') && (n < |s| ==> s[n] == '\n')
  {
    if s == "" || s[0] == '\n' then 0
    else
      var n := 1 + LineEnd(s[1..]);
      assert forall k :: 0 < k < n ==> s[k] == s[1..][k - 1];
      n
  }

  // The lines std::getline delivers: nothing follows a final newline.
  function Lines(s: string): seq<string> {
    if s == "" then []
    else
      var n := LineEnd(s);
      [s[..n]] + (if n < |s| then Lines(s[n + 1..]) else [])
  }

  lemma {:induction false} LineEndIs(s: string, n: nat)
    requires n <= |s| && (forall k :: 0 <= k < n ==> s[k] != '\n') && (n < |s| ==> s[n] == '\n')
    ensures LineEnd(s) == n
  {
  }

  lemma {:induction false} FirstLine(a: string, b: string)
    requires '\n' !in a
    ensures Lines(a + "\n" + b) == [a] + Lines(b)
  {
    var s := a + "\n" + b;
    assert s[..|a|] == a && s[|a|] == '\n' && s[|a| + 1..] == b;
    LineEndIs(s, |a|);
  }

  lemma {:induction false} LastLine(a: string)
    requires '\n' !in a && a != ""
    ensures Lines(a) == [a]
  {
    assert a[..|a|] == a;
    LineEndIs(a, |a|);
  }

  lemma LinesFrom(text: string, start: nat, stop: nat)
    requires start <= stop <= |text| && start < |text|
    requires (forall k :: start <= k < stop ==> text[k] != '\n') && (stop < |text| ==> text[stop] == '\n')
    ensures Lines(text[start..]) == [text[start..stop]] + Lines(text[if stop < |text| then stop + 1 else stop..])
  {
    var line, rest := text[start..stop], text[start..];
    if stop < |text| {
      assert rest == line + "\n" + text[stop + 1..];
      FirstLine(line, text[stop + 1..]);
    } else {
      assert rest == line;
      LastLine(line);
    }
  }

  // ---------- what a line says ----------

  datatype Line = Ignored | Header(name: string, depth: nat) | Pair(key: string, value: string) | Malformed

  predicate Comment(s: string) {
    s != "" && (s[0] == '#' || s[0] == ';')
  }

  function Brackets(s: string): (d: nat)
    ensures d <= |s| && (forall k :: 0 <= k < d ==> s[k] == '[') && (d < |s| ==> s[d] != '[')
  {
    if s != "" && s[0] == '[' then
      var d := Brackets(s[1..]);
      assert forall k :: 0 < k < d + 1 ==> s[k] == s[1..][k - 1];
      1 + d
    else 0
  }

  function Find(s: string, c: char): (n: nat)
    ensures n <= |s| && (forall k :: 0 <= k < n ==> s[k] != c) && (n < |s| ==> s[n] == c)
  {
    if s == "" || s[0] == c then 0
    else
      var n := 1 + Find(s[1..], c);
      assert forall k :: 0 < k < n ==> s[k] == s[1..][k - 1];
      n
  }

  function Content(s: string): Line {
    if s == "" then Ignored
    else if s[0] == '[' then Header(Substr(s, Brackets(s), |s| - 2 * Brackets(s)), Brackets(s))
    else
      var n := Find(s, '=');
      if n == |s| then Malformed else Pair(Core(s[..n]), Core(s[n + 1..]))
  }

  // The comment test looks at the raw line, the rest at the trimmed one.
  function Classify(raw: string): Line {
    if Comment(raw) then Ignored else Content(Core(raw))
  }

  method ParseSLine(line: string) returns (sname: string, depth: nat)
    ensures depth == Brackets(line) && sname == Substr(line, Brackets(line), |line| - 2 * Brackets(line))
  {
    depth := 0;
    while depth < |line|
      invariant depth <= |line| && forall k :: 0 <= k < depth ==> line[k] == '['
    {
      if line[depth] != '[' { break; }
      depth := depth + 1;
    }
    BracketsIs(line, depth);
    sname := Substr(line, depth, |line| - 2 * depth);
  }

  lemma {:induction false} BracketsIs(s: string, d: nat)
    requires d <= |s| && (forall k :: 0 <= k < d ==> s[k] == '[') && (d < |s| ==> s[d] != '[')
    ensures Brackets(s) == d
  {
  }

  function Repeat(c: char, n: nat): (s: string)
    ensures |s| == n && forall k :: 0 <= k < n ==> s[k] == c
  {
    seq(n, _ => c)
  }

  function HeaderText(depth: nat, name: string): string {
    Repeat('[', depth) + name + Repeat(']', depth)
  }

  predicate CleanName(name: string) {
    '\n' !in name && (name == "" || name[0] != '[')
  }

  predicate CleanPair(key: string, value: string) {
    Trimmed(key) && Trimmed(value) && '\n' !in key && '\n' !in value && '=' !in key &&
    (key == "" || key[0] != '[')
  }

  lemma HeaderReads(depth: nat, name: string)
    requires depth > 0 && (name == "" || name[0] != '[')
    ensures Classify(HeaderText(depth, name)) == Header(name, depth)
  {
    hide Repeat, Core, Brackets;
    var s := HeaderText(depth, name);
    assert |s| == 2 * depth + |name| && s[0] == '[' && s[|s| - 1] == ']' by { hide Classify; }
    CoreOfTrimmed(s);
    assert (forall k :: 0 <= k < depth ==> s[k] == '[') && s[depth] != '[' by { hide Classify; }
    BracketsIs(s, depth);
    assert s[depth..depth + |name|] == name by { hide Classify; }
  }

  lemma PairText(key: string, value: string) returns (s: string)
    requires CleanPair(key, value)
    ensures s == key + "=" + value && s != "" && Trimmed(s) && Comment(s) == Comment(key) && s[0] != '['
    ensures Find(s, '=') == |key| && s[..|key|] == key && s[|key| + 1..] == value
  {
    s := key + "=" + value;
    assert s[0] == if key == "" then '=' else key[0];
    assert s[|s| - 1] == if value == "" then '=' else value[|value| - 1];
    assert s[..|key|] == key && s[|key| + 1..] == value && s[|key|] == '=';
    assert forall k :: 0 <= k < |key| ==> s[k] == key[k];
    var n := Find(s, '=');
  }

  lemma PairReads(key: string, value: string)
    requires CleanPair(key, value)
    ensures Classify(key + "=" + value) == if Comment(key) then Ignored else Pair(key, value)
  {
    hide Core, Find, Trimmed, Comment;
    var s := PairText(key, value);
    CoreOfTrimmed(s);
    CoreOfTrimmed(key);
    CoreOfTrimmed(value);
  }

  // Whatever a line is read as, it is something that can be written again.
  lemma ClassifyIsClean(raw: string)
    requires '\n' !in raw
    ensures match Classify(raw)
            case Header(name, depth) => depth > 0 && CleanName(name)
            case Pair(key, value) => CleanPair(key, value)
            case _ => true
  {
    hide Core, Brackets, Find, Substr, CleanPair, CleanName;
    var s := Core(raw);
    CoreIsTrimmed(raw);
    if !Comment(raw) && s != "" {
      if s[0] == '[' {
        HeaderIsClean(s);
      } else if Find(s, '=') < |s| {
        PairIsClean(s, Find(s, '='));
      }
    }
  }

  lemma {:induction false} HeaderIsClean(s: string)
    requires '\n' !in s && s != "" && s[0] == '['
    ensures Brackets(s) > 0 && CleanName(Substr(s, Brackets(s), |s| - 2 * Brackets(s)))
  {
    var d := Brackets(s);
    hide Brackets;
    assert d < |s| ==> s[d..][0] == s[d];
  }

  lemma PairIsClean(s: string, n: nat)
    requires '\n' !in s && n < |s| && (forall k :: 0 <= k < n ==> s[k] != '=')
    requires !Blank(s[0]) && s[0] != '['
    ensures CleanPair(Core(s[..n]), Core(s[n + 1..]))
  {
    hide Core;
    CoreIsTrimmed(s[..n]);
    CoreIsTrimmed(s[n + 1..]);
    assert n > 0 ==> s[..n][0] == s[0] && Core(s[..n])[0] == s[0];
    assert '=' !in s[..n] && '\n' !in s[..n] && '\n' !in s[n + 1..];
    if n > 0 {
      assert Core(s[..n])[0] == s[0];
    } else {
      CoreOfTrimmed(s[..n]);
    }
  }
}
