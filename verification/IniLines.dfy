/** What lines say in their characters, where reading stops, and what a tree looks like in a file. */
module IniLines {
  import opened IniText
  import opened IniTree

  /** Lines are ignored that start with one of the two comment signs, or hold nothing but blanks; no others. */
  lemma IgnoredExactly(raw: string)
    ensures Classify(raw) == Ignored <==>
            (raw != "" && raw[0] in "#;") || (forall k :: 0 <= k < |raw| ==> raw[k] in " \t\r\n\0")
  {
    hide Core, Brackets, Find, Substr;
    var i, j := CoreSplits(raw);
    if Core(raw) == "" {
      assert forall k :: 0 <= k < |raw| ==> Blank(raw[k]);
    } else {
      assert raw[i..j][0] == raw[i] && !Blank(raw[i]);
      assert raw[i] !in " \t\r\n\0";
    }
  }

  /** A header takes its depth from the brackets in front and loses as many characters at its end, whatever they are; when
    * fewer are left it loses none. */
  lemma AnyHeader(depth: nat, rest: string)
    requires depth > 0 && Trimmed(Repeat('[', depth) + rest) && (rest == "" || rest[0] != '[')
    ensures Classify(Repeat('[', depth) + rest) ==
            Header(if |rest| >= depth then rest[..|rest| - depth] else rest, depth)
  {
    hide Repeat, Core, Brackets;
    var s := Repeat('[', depth) + rest;
    assert s[0] == '[' && |s| == depth + |rest| && (forall k :: 0 <= k < depth ==> s[k] == '[') && (depth < |s| ==> s[depth] == rest[0]);
    CoreOfTrimmed(s);
    BracketsIs(s, depth);
    assert s[depth..] == rest;
    if |rest| >= depth { assert s[depth..depth + (|rest| - depth)] == rest[..|rest| - depth]; }
  }

  /** Any other line says what stands in front of its first equals sign and behind it, without blanks at the ends, or
    * nothing that can be used when it has no such sign. */
  lemma AnyPair(raw: string)
    requires Core(raw) != "" && Core(raw)[0] != '[' && raw[0] !in "#;"
    ensures '=' !in Core(raw) ==> Classify(raw) == Malformed
    ensures forall n :: 0 <= n < |Core(raw)| && Core(raw)[n] == '=' && '=' !in Core(raw)[..n] ==>
              Classify(raw) == Pair(Core(Core(raw)[..n]), Core(Core(raw)[n + 1..]))
  {
    hide Core, Brackets;
    var s := Core(raw);
    var f := Find(s, '=');
    if '=' !in s { assert f == |s|; }
    forall n | 0 <= n < |s| && s[n] == '=' && '=' !in s[..n]
      ensures Find(s, '=') == n
    {
      assert forall k :: 0 <= k < n ==> s[k] == s[..n][k];
    }
  }

  /** A file fails at its first line that cannot be taken: everything before it was. */
  lemma {:induction false} FailsAtFirst(recs: seq<Record>, lines: seq<string>, n: nat)
    requires |recs| > 0 && Run(recs, lines, n).Failed?
    ensures var r := Run(recs, lines, n);
            n < r.line <= n + |lines| && var before := Run(recs, lines[..r.line - n - 1], n);
            before.Parsed? && |before.recs| > 0 && Apply(before.recs, Classify(lines[r.line - n - 1])) == Stop(r.error)
    decreases |lines|
  {
    hide Apply, Classify;
    var r := Run(recs, lines, n);
    match Apply(recs, Classify(lines[0]))
    case Stop(_) => assert lines[..0] == [];
    case Next(next) =>
      FailsAtFirst(next, lines[1..], n + 1);
      var m := r.line - n - 1;
      assert lines[..m][0] == lines[0] && lines[..m][1..] == lines[1..][..m - 1];
  }

  /** Why a line cannot be taken. */
  lemma StopsBecause(recs: seq<Record>, line: Line)
    requires |recs| > 0
    ensures Apply(recs, line) == Stop(NoEquals) <==> line == Malformed
    ensures Apply(recs, line) == Stop(WrongDepth) <==>
            line.Header? && (line.depth == 0 || line.depth > recs[|recs| - 1].depth + 1)
    ensures Apply(recs, line) == Stop(DuplicateKey) <==>
            line.Pair? && var entries := recs[|recs| - 1].entries; exists k :: 0 <= k < |entries| && entries[k].key == line.key
  {
    hide LastAt;
  }

  lemma {:induction false} OneEntry(e: Entry)
    ensures EntriesText([e]) == EntryText(e)
  {
    assert [e][1..] == [];
  }

  lemma {:induction false} TwoRecords(r: Record, q: Record)
    ensures DumpText([r, q]) == RecordText(r) + RecordText(q)
  {
    hide RecordText;
    assert RangeText([r, q], 2, 2) == "" && RangeText([r, q], 1, 2) == RecordText(q) + "";
  }

  /** A file in full: a value of the top level and a section with one. */
  lemma {:induction false} WholeFile()
    ensures DumpText([Record(-1, "", 0, [Entry("a", "1")]), Record(0, "x", 1, [Entry("c", "2")])]) == "a=1\n\n[x]\nc=2\n"
  {
    hide EntriesText, DumpText;
    OneEntry(Entry("a", "1"));
    OneEntry(Entry("c", "2"));
    TwoRecords(Record(-1, "", 0, [Entry("a", "1")]), Record(0, "x", 1, [Entry("c", "2")]));
    assert HeaderText(0, "") == "" && HeaderText(1, "x") == "[x]";
    assert RecordText(Record(-1, "", 0, [Entry("a", "1")])) == "a=1\n";
    assert RecordText(Record(0, "x", 1, [Entry("c", "2")])) == "\n[x]\nc=2\n";
  }
}
